/**
 * The Node service's alert lookup: the postal-prefix mapping, the fold that
 * picks the highest level among the AEMET alerts of a province, and the
 * in-memory cache with its ten-minute lifetime and its periodic sweep.
 *
 * JavaScript values are modelled by what the code tests of them: a string
 * field is absent (`null`/`undefined`) or a string, and it is truthy when
 * present and not empty. The clock (`Date.now()`, `new Date().toISOString()`)
 * and the answer of the AEMET request are parameters.
 */
module Service {
  import opened Wrappers
  import opened TextOps
  import opened Levels

  /** `CACHE_DURATION`: ten minutes, in milliseconds. */
  const CacheDuration: int := 10 * 60 * 1000

  /** `!!s` for a string field that may be absent. */
  predicate Truthy(s: Option<String>) {
    s.Some? && s.value != []
  }

  // ---------------------------------------------------------------------
  // Postal code to province code
  // ---------------------------------------------------------------------

  /** `CP_TO_PROVINCIA`: twelve postal prefixes, each mapped to itself. */
  const CpTable: map<String, String> := map[
    "28" := "28", "08" := "08", "46" := "46", "41" := "41", "48" := "48", "50" := "50",
    "29" := "29", "03" := "03", "39" := "39", "45" := "45", "38" := "38", "35" := "35"]

  /** `codigoPostal.substring(0, 2)`. */
  function Prefix(cp: String): (r: String)
    ensures |r| <= 2 && StartsWith(cp, r)
    ensures |cp| >= 2 ==> |r| == 2
  {
    if |cp| <= 2 then cp else cp[..2]
  }

  /** Every entry of the table maps a prefix to itself. */
  lemma {:induction false} CpTableIsIdentity(p: String)
    requires p in CpTable
    ensures CpTable[p] == p
  {
    assert p in CpTable.Keys;
    assert p == "28" || p == "08" || p == "46" || p == "41" || p == "48" || p == "50"
      || p == "29" || p == "03" || p == "39" || p == "45" || p == "38" || p == "35";
  }

  /**
   * `obtenerCodigoProvincia`: null for a missing or empty postal code,
   * otherwise the table's value for its first two characters, or those
   * characters themselves when the table has no entry.
   */
  function CodigoProvincia(cp: Option<String>): (r: Option<String>)
  {
    if !Truthy(cp) then None
    else
      var prefijo := Prefix(cp.value);
      if prefijo in CpTable && CpTable[prefijo] != [] then Some(CpTable[prefijo]) else Some(prefijo)
  }

  /**
   * Because the table maps every prefix to itself, the result is exactly
   * the first two characters of a non-empty postal code, and null for a
   * missing or empty one.
   */
  lemma CodigoProvinciaIsPrefix(cp: Option<String>)
    ensures CodigoProvincia(cp).None? <==> !Truthy(cp)
    ensures Truthy(cp) ==> CodigoProvincia(cp) == Some(Prefix(cp.value))
    ensures Truthy(cp) ==> CodigoProvincia(cp).value != [] && StartsWith(cp.value, CodigoProvincia(cp).value)
  {
    if Truthy(cp) && Prefix(cp.value) in CpTable {
      CpTableIsIdentity(Prefix(cp.value));
    }
  }

  /** `provincia || obtenerCodigoProvincia(codigoPostal)`: the province code the lookup uses, if any. */
  function CodeFor(provincia: Option<String>, cp: Option<String>): (r: Option<String>)
    ensures r.Some? ==> r.value != []
    ensures r.None? <==> !Truthy(provincia) && !Truthy(cp)
  {
    CodigoProvinciaIsPrefix(cp);
    if Truthy(provincia) then provincia else CodigoProvincia(cp)
  }

  // ---------------------------------------------------------------------
  // The level fold
  // ---------------------------------------------------------------------

  /** One alert of the AEMET answer: the fields the fold reads. */
  datatype AlertItem = AlertItem(nivel: Option<String>, fenomeno: Option<String>, evento: Option<String>)

  /**
   * The level an alert asks for: its lower-cased `nivel` when that is
   * "amarillo", "naranja" or "rojo"; verde (it asks for nothing) when
   * `nivel` is missing, empty or anything else, "verde" included.
   */
  function ItemLevel(a: AlertItem): Level {
    if !Truthy(a.nivel) then Verde
    else
      match ParseLevel(LowerStr(a.nivel.value))
      case Some(l) => l
      case None => Verde
  }

  /** `alerta.fenomeno || alerta.evento || null`. */
  function Activo(a: AlertItem): (r: Option<String>)
    ensures r.Some? ==> r.value != [] && (r == a.fenomeno || r == a.evento)
    ensures r.None? <==> !Truthy(a.fenomeno) && !Truthy(a.evento)
  {
    if Truthy(a.fenomeno) then a.fenomeno else if Truthy(a.evento) then a.evento else None
  }

  /** `nivelMaximo` and `fenomenoActivo`. */
  datatype Acc = Acc(level: Level, fenomeno: Option<String>)

  /**
   * The `forEach` callback: a rojo alert always takes over; a naranja one
   * unless the level is already rojo; an amarillo one only while the level
   * is still verde.
   */
  function Step(acc: Acc, a: AlertItem): Acc {
    var l := ItemLevel(a);
    if l == Rojo || (l == Naranja && acc.level != Rojo) || (l == Amarillo && acc.level == Verde)
    then Acc(l, Activo(a))
    else acc
  }

  /** The fold over the alerts from the first to the last, starting from verde and null. */
  function FoldAlerts(items: seq<AlertItem>): Acc
    decreases |items|
  {
    if items == [] then Acc(Verde, None)
    else Step(FoldAlerts(items[..|items| - 1]), items[|items| - 1])
  }

  /** The reference maximum: the most severe level any alert asks for. */
  function MaxLevel(items: seq<AlertItem>): (r: Level)
    ensures forall j :: 0 <= j < |items| ==> Rank(ItemLevel(items[j])) <= Rank(r)
    ensures r == Verde || exists j :: 0 <= j < |items| && ItemLevel(items[j]) == r
    decreases |items|
  {
    if items == [] then Verde
    else
      var init := items[..|items| - 1];
      var r := Max(MaxLevel(init), ItemLevel(items[|items| - 1]));
      assert forall j :: 0 <= j < |init| ==> init[j] == items[j];
      r
  }

  /** Folding one more alert is one more step. */
  lemma FoldAlertsSnoc(items: seq<AlertItem>, a: AlertItem)
    ensures FoldAlerts(items + [a]) == Step(FoldAlerts(items), a)
  {
    assert (items + [a])[..|items|] == items;
  }

  /** The fold ends at the most severe level asked for, under verde < amarillo < naranja < rojo. */
  lemma {:induction false} FoldLevelIsMax(items: seq<AlertItem>)
    ensures FoldAlerts(items).level == MaxLevel(items)
    decreases |items|
  {
    if items != [] {
      FoldLevelIsMax(items[..|items| - 1]);
    }
  }

  /** An alert whose level is missing or not one of the three warning levels changes nothing. */
  lemma UnrecognisedChangesNothing(items: seq<AlertItem>, a: AlertItem)
    requires ItemLevel(a) == Verde
    ensures FoldAlerts(items + [a]) == FoldAlerts(items)
  {
    FoldAlertsSnoc(items, a);
  }

  /** When no alert asks for a warning level the result is verde with no phenomenon. */
  lemma {:induction false} AllVerdeGivesNull(items: seq<AlertItem>)
    requires forall k :: 0 <= k < |items| ==> ItemLevel(items[k]) == Verde
    ensures FoldAlerts(items) == Acc(Verde, None)
    decreases |items|
  {
    if items != [] {
      var init := items[..|items| - 1];
      assert forall k :: 0 <= k < |init| ==> init[k] == items[k];
      AllVerdeGivesNull(init);
    }
  }

  /** A verde result always carries a null phenomenon. */
  lemma {:induction false} VerdeHasNoPhenomenon(items: seq<AlertItem>)
    ensures FoldAlerts(items).level == Verde ==> FoldAlerts(items).fenomeno == None
    decreases |items|
  {
    if items != [] {
      VerdeHasNoPhenomenon(items[..|items| - 1]);
    }
  }

  /** Among rojo alerts the last one's phenomenon wins. */
  lemma {:induction false} LastRojoWins(items: seq<AlertItem>, j: nat)
    requires j < |items| && ItemLevel(items[j]) == Rojo
    requires forall k :: j < k < |items| ==> ItemLevel(items[k]) != Rojo
    ensures FoldAlerts(items) == Acc(Rojo, Activo(items[j]))
    decreases |items|
  {
    var n := |items| - 1;
    var init := items[..n];
    if j < n {
      assert forall k :: j < k < |init| ==> init[k] == items[k];
      assert init[j] == items[j];
      LastRojoWins(init, j);
    }
  }

  /** Without rojo alerts, the last naranja alert's phenomenon wins. */
  lemma {:induction false} LastNaranjaWins(items: seq<AlertItem>, j: nat)
    requires j < |items| && ItemLevel(items[j]) == Naranja
    requires forall k :: 0 <= k < |items| ==> ItemLevel(items[k]) != Rojo
    requires forall k :: j < k < |items| ==> ItemLevel(items[k]) != Naranja
    ensures FoldAlerts(items) == Acc(Naranja, Activo(items[j]))
    decreases |items|
  {
    var n := |items| - 1;
    var init := items[..n];
    assert forall k :: 0 <= k < |init| ==> init[k] == items[k];
    if j < n {
      LastNaranjaWins(init, j);
    } else {
      FoldLevelIsMax(init);
    }
  }

  /** With only amarillo alerts (besides unrecognised ones), the first one's phenomenon wins. */
  lemma {:induction false} FirstAmarilloWins(items: seq<AlertItem>, j: nat)
    requires j < |items| && ItemLevel(items[j]) == Amarillo
    requires forall k :: 0 <= k < |items| ==> ItemLevel(items[k]) == Verde || ItemLevel(items[k]) == Amarillo
    requires forall k :: 0 <= k < j ==> ItemLevel(items[k]) != Amarillo
    ensures FoldAlerts(items) == Acc(Amarillo, Activo(items[j]))
    decreases |items|
  {
    var n := |items| - 1;
    var init := items[..n];
    assert forall k :: 0 <= k < |init| ==> init[k] == items[k];
    if j < n {
      FirstAmarilloWins(init, j);
    } else {
      AllVerdeGivesNull(init);
    }
  }

  /** The fold as the source writes it: a loop over the alerts updating the level and the phenomenon. */
  method MaxAlert(items: seq<AlertItem>) returns (nivelMaximo: Level, fenomenoActivo: Option<String>)
    ensures Acc(nivelMaximo, fenomenoActivo) == FoldAlerts(items)
    ensures nivelMaximo == MaxLevel(items)
  {
    nivelMaximo := Verde;
    fenomenoActivo := None;
    var i := 0;
    while i < |items|
      invariant 0 <= i <= |items|
      invariant Acc(nivelMaximo, fenomenoActivo) == FoldAlerts(items[..i])
    {
      var alerta := items[i];
      assert items[..i + 1] == items[..i] + [alerta];
      FoldAlertsSnoc(items[..i], alerta);
      if Truthy(alerta.nivel) {
        var nivel := LowerStr(alerta.nivel.value);
        if nivel == "rojo" || (nivel == "naranja" && nivelMaximo != Rojo) || (nivel == "amarillo" && nivelMaximo == Verde) {
          nivelMaximo := if nivel == "rojo" then Rojo else if nivel == "naranja" then Naranja else Amarillo;
          fenomenoActivo := Activo(alerta);
        }
      }
      i := i + 1;
    }
    assert items[..|items|] == items;
    FoldLevelIsMax(items);
  }

  // ---------------------------------------------------------------------
  // The lookup and its cache
  // ---------------------------------------------------------------------

  /**
   * What the AEMET request resolved to: a falsy value (null when the
   * request failed), an array of alerts, or some other truthy value, which
   * has `length` 0 only when it is an object carrying such a field.
   */
  datatype Payload = Falsy | Items(items: seq<AlertItem>) | Other(lengthIsZero: bool)

  /** `!alertas || alertas.length === 0`. */
  predicate NoAlerts(p: Payload) {
    p.Falsy? || (p.Items? && |p.items| == 0) || (p.Other? && p.lengthIsZero)
  }

  /**
   * A reply: `NIVELES_ALERTA.verde` itself, or one of the four level
   * records spread with a phenomenon and an update time. The spread fields
   * are `Color(level)`, `Name(level)` and `Title(level)`.
   */
  datatype Reply = Bare(level: Level) | Full(level: Level, fenomeno: Option<String>, actualizacion: String)

  /** What the cache holds under a key. */
  datatype CacheEntry = CacheEntry(data: Reply, timestamp: int)

  /** The message of the reply given when the alerts cannot be processed. */
  const ErrorText: String := "Error al obtener datos"

  /** `alertas_${codigoProv}`. */
  function CacheKey(code: String): String {
    "alertas_" + code
  }

  /** Different province codes are cached under different keys. */
  lemma CacheKeyInjective(a: String, b: String)
    requires CacheKey(a) == CacheKey(b)
    ensures a == b
  {
    assert a == CacheKey(a)[8..];
    assert b == CacheKey(b)[8..];
  }

  /** A cached entry is served: strictly younger than the cache lifetime. */
  predicate Fresh(e: CacheEntry, now: int) {
    now - e.timestamp < CacheDuration
  }

  /** The sweep deletes an entry: strictly older than the cache lifetime. */
  predicate Expired(e: CacheEntry, now: int) {
    now - e.timestamp > CacheDuration
  }

  /** The reply and the cache after a lookup. */
  datatype Outcome = Outcome(reply: Reply, cache: map<String, CacheEntry>)

  /**
   * `obtenerAlertasAEMET`: `now` is the time of the cache check, `fetched`
   * the answer of the request, `doneAt` and `stamp` the times written into
   * the cache and into the reply.
   */
  function Respond(cache: map<String, CacheEntry>, provincia: Option<String>, cp: Option<String>, now: int,
                   fetched: Payload, doneAt: int, stamp: String): Outcome
  {
    var code := CodeFor(provincia, cp);
    if code.None? then Outcome(Bare(Verde), cache)
    else
      var key := CacheKey(code.value);
      if key in cache && Fresh(cache[key], now) then Outcome(cache[key].data, cache)
      else if NoAlerts(fetched) then
        var r := Full(Verde, None, stamp);
        Outcome(r, cache[key := CacheEntry(r, doneAt)])
      else if fetched.Items? then
        var acc := FoldAlerts(fetched.items);
        var r := Full(acc.level, acc.fenomeno, stamp);
        Outcome(r, cache[key := CacheEntry(r, doneAt)])
      else
        Outcome(Full(Verde, Some(ErrorText), stamp), cache)
  }

  /** Without a province code the bare verde record is returned and the cache is left alone. */
  lemma MissingCodeWritesNothing(cache: map<String, CacheEntry>, provincia: Option<String>, cp: Option<String>,
                                 now: int, fetched: Payload, doneAt: int, stamp: String)
    requires !Truthy(provincia) && !Truthy(cp)
    ensures Respond(cache, provincia, cp, now, fetched, doneAt, stamp) == Outcome(Bare(Verde), cache)
  {
  }

  /** A cached entry strictly younger than the lifetime is served as it is, and nothing is written. */
  lemma FreshEntryServed(cache: map<String, CacheEntry>, provincia: Option<String>, cp: Option<String>,
                         now: int, fetched: Payload, doneAt: int, stamp: String)
    requires CodeFor(provincia, cp).Some?
    requires var key := CacheKey(CodeFor(provincia, cp).value); key in cache && now - cache[key].timestamp < CacheDuration
    ensures var o := Respond(cache, provincia, cp, now, fetched, doneAt, stamp);
      o.cache == cache && o.reply == cache[CacheKey(CodeFor(provincia, cp).value)].data
  {
  }

  /**
   * An entry that is not fresh (an entry aged exactly the lifetime
   * included) is not served: the reply is the one an empty cache gives.
   */
  lemma StaleEntryIgnored(cache: map<String, CacheEntry>, provincia: Option<String>, cp: Option<String>,
                          now: int, fetched: Payload, doneAt: int, stamp: String)
    requires CodeFor(provincia, cp).Some?
    requires var key := CacheKey(CodeFor(provincia, cp).value); key in cache ==> !Fresh(cache[key], now)
    ensures Respond(cache, provincia, cp, now, fetched, doneAt, stamp).reply
         == Respond(map[], provincia, cp, now, fetched, doneAt, stamp).reply
  {
  }

  /** No alerts: verde with a null phenomenon, written to the cache under the province's key. */
  lemma NoAlertsCachedVerde(cache: map<String, CacheEntry>, provincia: Option<String>, cp: Option<String>,
                            now: int, fetched: Payload, doneAt: int, stamp: String)
    requires CodeFor(provincia, cp).Some? && NoAlerts(fetched)
    requires var key := CacheKey(CodeFor(provincia, cp).value); key in cache ==> !Fresh(cache[key], now)
    ensures var o := Respond(cache, provincia, cp, now, fetched, doneAt, stamp);
      o.reply == Full(Verde, None, stamp)
      && o.cache == cache[CacheKey(CodeFor(provincia, cp).value) := CacheEntry(o.reply, doneAt)]
  {
  }

  /**
   * A fetched list of alerts gives the most severe level asked for, with a
   * phenomenon only above verde, and the reply is cached with time doneAt.
   */
  lemma AlertsReplyIsMax(cache: map<String, CacheEntry>, provincia: Option<String>, cp: Option<String>,
                         now: int, items: seq<AlertItem>, doneAt: int, stamp: String)
    requires CodeFor(provincia, cp).Some? && items != []
    requires var key := CacheKey(CodeFor(provincia, cp).value); key in cache ==> !Fresh(cache[key], now)
    ensures var o := Respond(cache, provincia, cp, now, Items(items), doneAt, stamp);
      o.reply.Full? && o.reply.level == MaxLevel(items)
      && (o.reply.level == Verde ==> o.reply.fenomeno == None)
      && o.cache == cache[CacheKey(CodeFor(provincia, cp).value) := CacheEntry(o.reply, doneAt)]
  {
    FoldLevelIsMax(items);
    VerdeHasNoPhenomenon(items);
  }

  /** A truthy answer that is not a list ends in the error reply, which is not cached. */
  lemma ErrorNotCached(cache: map<String, CacheEntry>, provincia: Option<String>, cp: Option<String>,
                       now: int, doneAt: int, stamp: String)
    requires CodeFor(provincia, cp).Some?
    requires var key := CacheKey(CodeFor(provincia, cp).value); key in cache ==> !Fresh(cache[key], now)
    ensures var o := Respond(cache, provincia, cp, now, Other(false), doneAt, stamp);
      o.cache == cache && o.reply == Full(Verde, Some(ErrorText), stamp)
  {
  }

  /** A lookup writes at most the entry of its own province: every other entry is unchanged. */
  lemma OnlyOwnKeyWritten(cache: map<String, CacheEntry>, provincia: Option<String>, cp: Option<String>,
                          now: int, fetched: Payload, doneAt: int, stamp: String, k: String)
    requires k in cache
    requires CodeFor(provincia, cp).None? || k != CacheKey(CodeFor(provincia, cp).value)
    ensures var o := Respond(cache, provincia, cp, now, fetched, doneAt, stamp);
      k in o.cache && o.cache[k] == cache[k]
  {
  }

  /** The cache after the sweep: the entries that are not strictly older than the lifetime. */
  function Swept(cache: map<String, CacheEntry>, now: int): map<String, CacheEntry> {
    map k | k in cache && !Expired(cache[k], now) :: cache[k]
  }

  /** The sweep only deletes, and it deletes exactly the expired entries. */
  lemma SweptKeys(cache: map<String, CacheEntry>, now: int, k: String)
    ensures k in Swept(cache, now) <==> k in cache && now - cache[k].timestamp <= CacheDuration
    ensures k in Swept(cache, now) ==> Swept(cache, now)[k] == cache[k]
  {
  }

  /** Whatever would be served survives the sweep. */
  lemma SweepKeepsServable(cache: map<String, CacheEntry>, now: int, k: String)
    requires k in cache && Fresh(cache[k], now)
    ensures k in Swept(cache, now) && Swept(cache, now)[k] == cache[k]
  {
  }

  /** An entry aged exactly the lifetime is neither served nor deleted. */
  lemma BoundaryEntryKeptNotServed(cache: map<String, CacheEntry>, now: int, k: String)
    requires k in cache && now - cache[k].timestamp == CacheDuration
    ensures !Fresh(cache[k], now)
    ensures k in Swept(cache, now)
  {
  }

  /** Sweeping twice at the same time deletes nothing more. */
  lemma SweepIdempotent(cache: map<String, CacheEntry>, now: int)
    ensures Swept(Swept(cache, now), now) == Swept(cache, now)
  {
  }

  /** The module-level cache `Map` of the service, with the lookup and the sweep that change it. */
  class AlertService {
    var cache: map<String, CacheEntry>

    constructor()
      ensures cache == map[]
    {
      cache := map[];
    }

    /** `obtenerAlertasAEMET(provincia, codigoPostal)`. */
    method Obtener(provincia: Option<String>, codigoPostal: Option<String>, now: int,
                   fetched: Payload, doneAt: int, stamp: String) returns (r: Reply)
      modifies this
      ensures Outcome(r, cache) == Respond(old(cache), provincia, codigoPostal, now, fetched, doneAt, stamp)
    {
      var codigoProv := if Truthy(provincia) then provincia else CodigoProvincia(codigoPostal);
      if !Truthy(codigoProv) {
        return Bare(Verde);
      }
      var cacheKey := CacheKey(codigoProv.value);
      if cacheKey in cache && now - cache[cacheKey].timestamp < CacheDuration {
        return cache[cacheKey].data;
      }
      if NoAlerts(fetched) {
        r := Full(Verde, None, stamp);
        cache := cache[cacheKey := CacheEntry(r, doneAt)];
        return;
      }
      if fetched.Items? {
        var nivelMaximo, fenomenoActivo := MaxAlert(fetched.items);
        r := Full(nivelMaximo, fenomenoActivo, stamp);
        cache := cache[cacheKey := CacheEntry(r, doneAt)];
      } else {
        // `alertas.forEach` is not a function: the error reply, nothing cached.
        r := Full(Verde, Some(ErrorText), stamp);
      }
    }

    /** The hourly sweep: delete every entry strictly older than the lifetime. */
    method Sweep(now: int)
      modifies this
      ensures cache == Swept(old(cache), now)
    {
      var pending := cache.Keys;
      ghost var start := cache;
      while pending != {}
        invariant pending <= start.Keys && cache.Keys <= start.Keys
        invariant forall k :: k in pending ==> k in cache && cache[k] == start[k]
        invariant forall k :: k in start && k !in pending ==> (k in cache <==> !Expired(start[k], now))
        invariant forall k :: k in cache ==> cache[k] == start[k]
        decreases pending
      {
        var key :| key in pending;
        if now - cache[key].timestamp > CacheDuration {
          cache := cache - {key};
        }
        pending := pending - {key};
      }
      assert cache.Keys == Swept(start, now).Keys;
    }
  }
}
