/**
 * The four AEMET warning levels, their order and the `NIVELES_ALERTA`
 * presentation table of the Node service.
 */
module Levels {
  import opened Wrappers
  import opened TextOps

  /** verde < amarillo < naranja < rojo. */
  datatype Level = Verde | Amarillo | Naranja | Rojo

  /**
   * Position in the severity order. The Python reducers number the levels
   * 1..4 (`priority`) or 0..3 (`niveles_orden` with default 0); both are
   * this order shifted.
   */
  function Rank(l: Level): (r: nat)
    ensures r <= 3
  {
    match l
    case Verde => 0
    case Amarillo => 1
    case Naranja => 2
    case Rojo => 3
  }

  /** Two levels of equal rank are the same level. */
  lemma RankInjective(a: Level, b: Level)
    requires Rank(a) == Rank(b)
    ensures a == b
  {
  }

  /** The lower-case Spanish name the source uses for a level. */
  function Name(l: Level): String {
    match l
    case Verde => "verde"
    case Amarillo => "amarillo"
    case Naranja => "naranja"
    case Rojo => "rojo"
  }

  /** Reads a level name back; any other string is not a level. */
  function ParseLevel(s: String): (r: Option<Level>)
    ensures r.Some? ==> Name(r.value) == s
  {
    if s == "verde" then Some(Verde)
    else if s == "amarillo" then Some(Amarillo)
    else if s == "naranja" then Some(Naranja)
    else if s == "rojo" then Some(Rojo)
    else None
  }

  /** Every level name reads back as that level. */
  lemma ParseName(l: Level)
    ensures ParseLevel(Name(l)) == Some(l)
  {
  }

  /** The more severe of two levels. */
  function Max(a: Level, b: Level): (r: Level)
    ensures Rank(a) <= Rank(r) && Rank(b) <= Rank(r)
    ensures r == a || r == b
  {
    if Rank(a) >= Rank(b) then a else b
  }

  /** `NIVELES_ALERTA[n].color`. */
  function Color(l: Level): String {
    match l
    case Verde => "#28a745"
    case Amarillo => "#ffc107"
    case Naranja => "#fd7e14"
    case Rojo => "#dc3545"
  }

  /** `NIVELES_ALERTA[n].nombre`. */
  function Title(l: Level): String {
    match l
    case Verde => "Sin riesgo"
    case Amarillo => "Riesgo"
    case Naranja => "Riesgo importante"
    case Rojo => "Riesgo extremo"
  }
}
