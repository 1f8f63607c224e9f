/**
 * The pure decisions inside `download_tar`: the file name taken from the
 * download URL, the format sniffed from the first bytes (the gzip magic
 * number of section 2.3.1 of RFC 1952 and the POSIX ustar magic at offset
 * 257), and the extension appended so the name tells the format.
 */
module Archive {
  import opened TextOps

  newtype byte = x: int | 0 <= x < 256

  /** The bytes of "ustar". */
  const UstarMagic: seq<byte> := [0x75, 0x73, 0x74, 0x61, 0x72]

  /** The first two bytes are the gzip magic 1f 8b. */
  predicate IsGzip(data: seq<byte>) {
    |data| >= 2 && data[0] == 0x1f && data[1] == 0x8b
  }

  /**
   * The five bytes read at offset 257 are "ustar"; a shorter file yields
   * fewer bytes, which never equal the magic.
   */
  predicate IsTar(data: seq<byte>) {
    |data| >= 262 && data[257..262] == UstarMagic
  }

  /** The first n bytes of the file, or all of it when it is shorter. */
  function Head(data: seq<byte>, n: nat): (r: seq<byte>)
    ensures |r| <= n && r <= data
    ensures |data| >= n ==> |r| == n
  {
    if |data| <= n then data else data[..n]
  }

  /**
   * The sniff reads nothing past byte 262: two files that agree on their
   * first 262 bytes are classified alike.
   */
  lemma SniffReadsOnlyHeader(a: seq<byte>, b: seq<byte>)
    requires Head(a, 262) == Head(b, 262)
    ensures IsGzip(a) <==> IsGzip(b)
    ensures IsTar(a) <==> IsTar(b)
  {
    var h := Head(a, 262);
    if |a| >= 2 || |b| >= 2 {
      assert |h| >= 2 && h[0] == a[0] == b[0] && h[1] == a[1] == b[1];
    }
    if |a| >= 262 || |b| >= 262 {
      assert |h| == 262 && |a| >= 262 && |b| >= 262;
      assert a[257..262] == h[257..262] == b[257..262];
    }
  }

  /**
   * The name the download is saved under: the last `/`-segment of the URL
   * without its query, or `<prefix>-<ts>.tar.gz` when that segment is empty.
   */
  function FileNameFromUrl(url: String, prefix: String, ts: String): (r: String)
    ensures r != []
    ensures var seg := AfterLast(BeforeFirst(url, '?'), '/');
      seg != [] ==> r == seg && '/' !in r && '?' !in r && EndsWith(BeforeFirst(url, '?'), r)
    ensures AfterLast(BeforeFirst(url, '?'), '/') == [] ==> r == prefix + "-" + ts + ".tar.gz"
  {
    var path := BeforeFirst(url, '?');
    var seg := AfterLast(path, '/');
    assert '?' !in seg by {
      assert forall k :: 0 <= k < |seg| ==> seg[k] == path[|path| - |seg| + k];
    }
    if seg != [] then seg else prefix + "-" + ts + ".tar.gz"
  }

  /** The path a file of the data directory has: the directory, a slash, the name. */
  function PathOf(dir: String, name: String): String {
    dir + "/" + name
  }

  /** The last component of such a path, pathlib's `name`, is the name when it has no slash. */
  lemma {:induction false} PathNameIsName(dir: String, name: String)
    requires '/' !in name
    ensures AfterLast(PathOf(dir, name), '/') == name
    decreases |name|
  {
    var p := PathOf(dir, name);
    if name != [] {
      var init := name[..|name| - 1];
      assert p[..|p| - 1] == PathOf(dir, init);
      assert name[|name| - 1] in name;
      PathNameIsName(dir, init);
      assert init + [name[|name| - 1]] == name;
    }
  }

  /**
   * The name after the informative rename: ".gz" is appended to a gzip file
   * whose lower-cased path does not end with ".gz"; otherwise ".tar" to a
   * tar file whose lower-cased path ends with neither ".tar" nor ".tar.gz".
   * The second test is an `elif`: it also applies to gzip data whose name
   * already ends with ".gz" and that carries the ustar magic as well.
   */
  function FinalName(dir: String, name: String, gzip: bool, tar: bool): (r: String)
  {
    var p := LowerStr(PathOf(dir, name));
    if gzip && !EndsWith(p, ".gz") then name + ".gz"
    else if tar && !(EndsWith(p, ".tar") || EndsWith(p, ".tar.gz")) then name + ".tar"
    else name
  }

  /** A suffix appended to a text is the suffix of the result. */
  lemma EndsWithAppended(s: String, w: String)
    ensures EndsWith(s + w, w)
  {
    assert (s + w)[|s + w| - |w|..] == w;
  }

  /** Appending t to s makes it end with w + t exactly when s ends with w. */
  lemma EndsWithBothAppended(s: String, w: String, t: String)
    ensures EndsWith(s + t, w + t) <==> EndsWith(s, w)
  {
    var st := s + t;
    if |w| <= |s| {
      var a := s[|s| - |w|..];
      assert st[|st| - |w + t|..] == a + t;
      if a + t == w + t {
        assert (a + t)[..|a|] == a && (w + t)[..|w|] == w;
      }
    }
  }

  /** A text ending with a non-empty suffix ends with that suffix's last character. */
  lemma EndsWithLast(s: String, w: String)
    requires EndsWith(s, w) && w != []
    ensures s[|s| - 1] == w[|w| - 1]
  {
    assert s[|s| - |w|..][|w| - 1] == s[|s| - 1];
  }

  /** The suffix test on a path can be made on the name when the suffix has no slash. */
  lemma EndsWithPathIff(dir: String, name: String, ext: String)
    requires '/' !in ext && |ext| > 0
    ensures EndsWith(LowerStr(PathOf(dir, name)), ext) <==> EndsWith(LowerStr(name), ext)
  {
    var p := PathOf(dir, name);
    LowerStrAppend(dir + "/", name);
    var lp := LowerStr(p);
    var ln := LowerStr(name);
    assert lp == LowerStr(dir + "/") + ln;
    if |ext| <= |ln| {
      assert lp[|lp| - |ext|..] == ln[|ln| - |ext|..];
    } else if |ext| <= |lp| {
      var k := |ext| - |ln| - 1;
      assert lp[|lp| - |ext|..][k] == lp[|lp| - |ln| - 1] == Lower('/') == '/';
    }
  }

  /** The rename decided on the lower-cased name alone, the directory playing no part. */
  lemma FinalNameOnName(dir: String, name: String, gzip: bool, tar: bool)
    ensures var n := LowerStr(name);
      FinalName(dir, name, gzip, tar) ==
        if gzip && !EndsWith(n, ".gz") then name + ".gz"
        else if tar && !(EndsWith(n, ".tar") || EndsWith(n, ".tar.gz")) then name + ".tar"
        else name
  {
    EndsWithPathIff(dir, name, ".gz");
    EndsWithPathIff(dir, name, ".tar");
    EndsWithPathIff(dir, name, ".tar.gz");
  }

  /** Lower-casing a name with an extension appended lower-cases the name only. */
  lemma LowerWithExt(name: String, ext: String)
    requires ext == ".gz" || ext == ".tar"
    ensures LowerStr(name + ext) == LowerStr(name) + ext
  {
    LowerStrAppend(name, ext);
    assert LowerStr(ext) == ext;
  }

  /**
   * The rename only ever appends: the result is the name itself, the name
   * with ".gz" after it (gzip data only) or with ".tar" after it (tar data
   * only); gzip data gets ".tar" only when its name already ends with ".gz".
   */
  lemma FinalNameAppends(dir: String, name: String, gzip: bool, tar: bool)
    ensures var r := FinalName(dir, name, gzip, tar);
      r == name || (gzip && r == name + ".gz") || (tar && r == name + ".tar")
    ensures var r := FinalName(dir, name, gzip, tar);
      gzip && r == name + ".tar" ==> EndsWith(LowerStr(name), ".gz")
  {
    FinalNameOnName(dir, name, gzip, tar);
  }

  /**
   * After the rename a gzip file's lower-cased name ends with ".gz", or,
   * when the data also carries the ustar magic, possibly with ".gz.tar".
   */
  lemma GzipNameEndsWithGz(dir: String, name: String, tar: bool)
    ensures var n := LowerStr(FinalName(dir, name, true, tar));
      EndsWith(n, ".gz") || (tar && EndsWith(n, ".gz.tar"))
    ensures !tar ==> EndsWith(LowerStr(FinalName(dir, name, true, tar)), ".gz")
  {
    var ln := LowerStr(name);
    if !EndsWith(ln, ".gz") {
      AddsGz(dir, name, tar);
      EndsWithAppended(ln, ".gz");
    } else if !tar {
      FinalNameOnName(dir, name, true, false);
    } else if EndsWith(ln, ".tar.gz") {
      KeepsTarGz(dir, name, true, true);
    } else {
      AddsTar(dir, name);
      EndsWithBothAppended(ln, ".gz", ".tar");
    }
  }

  /** A gzip file named "x.gz" whose data also carries the ustar magic is renamed "x.gz.tar". */
  lemma GzipTarNamedGzGetsTar(dir: String)
    ensures FinalName(dir, "x.gz", true, true) == "x.gz.tar"
  {
    FinalNameOnName(dir, "x.gz", true, true);
    assert LowerStr("x.gz") == "x.gz";
    EndsWithAppended("x", ".gz");
    assert !EndsWith("x.gz", ".tar") && !EndsWith("x.gz", ".tar.gz");
  }

  /** After the rename a tar file that is not gzip has a name ending with ".tar" or ".tar.gz". */
  lemma TarNameEndsWithTar(dir: String, name: String)
    ensures var n := LowerStr(FinalName(dir, name, false, true));
      EndsWith(n, ".tar") || EndsWith(n, ".tar.gz")
  {
    FinalNameOnName(dir, name, false, true);
    if !(EndsWith(LowerStr(name), ".tar") || EndsWith(LowerStr(name), ".tar.gz")) {
      LowerWithExt(name, ".tar");
      EndsWithAppended(LowerStr(name), ".tar");
    }
  }

  /**
   * Renaming a second time, with the same sniffed format, changes nothing,
   * unless the data sniffs as both gzip and tar (see GzipTarRenameSettles).
   */
  lemma FinalNameIdempotent(dir: String, name: String, gzip: bool, tar: bool)
    requires !(gzip && tar)
    ensures FinalName(dir, FinalName(dir, name, gzip, tar), gzip, tar) == FinalName(dir, name, gzip, tar)
  {
    var r := FinalName(dir, name, gzip, tar);
    FinalNameOnName(dir, r, gzip, tar);
    if gzip {
      GzipNameEndsWithGz(dir, name, tar);
    } else if tar {
      TarNameEndsWithTar(dir, name);
    }
  }

  /** Renaming data that is both gzip and tar twice gives "x" then "x.gz", then "x.gz.tar". */
  lemma GzipTarNotIdempotent(dir: String)
    ensures FinalName(dir, "x", true, true) == "x.gz"
    ensures FinalName(dir, FinalName(dir, "x", true, true), true, true) == "x.gz.tar"
  {
    FinalNameOnName(dir, "x", true, true);
    assert LowerStr("x") == "x";
    GzipTarNamedGzGetsTar(dir);
  }

  /** A text ending with ".tar.gz" also ends with ".gz". */
  lemma TarGzIsGz(s: String)
    requires EndsWith(s, ".tar.gz")
    ensures EndsWith(s, ".gz")
  {
    assert s[|s| - 3..] == s[|s| - 7..][4..];
  }

  /** A name whose lower-cased form ends with ".tar.gz" is kept. */
  lemma KeepsTarGz(dir: String, n: String, gzip: bool, tar: bool)
    requires EndsWith(LowerStr(n), ".tar.gz")
    ensures FinalName(dir, n, gzip, tar) == n
  {
    TarGzIsGz(LowerStr(n));
    FinalNameOnName(dir, n, gzip, tar);
  }

  /** Gzip data whose lower-cased name does not end with ".gz" gets ".gz". */
  lemma AddsGz(dir: String, n: String, tar: bool)
    requires !EndsWith(LowerStr(n), ".gz")
    ensures FinalName(dir, n, true, tar) == n + ".gz"
    ensures LowerStr(n + ".gz") == LowerStr(n) + ".gz"
  {
    FinalNameOnName(dir, n, true, tar);
    LowerWithExt(n, ".gz");
  }

  /** Gzip and tar data named with ".gz" but not ".tar.gz" gets ".tar". */
  lemma AddsTar(dir: String, n: String)
    requires EndsWith(LowerStr(n), ".gz") && !EndsWith(LowerStr(n), ".tar.gz")
    ensures FinalName(dir, n, true, true) == n + ".tar"
    ensures LowerStr(n + ".tar") == LowerStr(n) + ".tar"
  {
    var ln := LowerStr(n);
    EndsWithLast(ln, ".gz");
    if EndsWith(ln, ".tar") {
      EndsWithLast(ln, ".tar");
    }
    FinalNameOnName(dir, n, true, true);
    LowerWithExt(n, ".tar");
  }

  /** A name ending with ".tar" gets ".gz", and the ".tar.gz" name is then kept. */
  lemma TarThenGz(dir: String, t: String)
    requires EndsWith(LowerStr(t), ".tar")
    ensures FinalName(dir, t, true, true) == t + ".gz"
    ensures FinalName(dir, t + ".gz", true, true) == t + ".gz"
  {
    var lt := LowerStr(t);
    if EndsWith(lt, ".gz") {
      EndsWithLast(lt, ".gz");
      EndsWithLast(lt, ".tar");
    }
    AddsGz(dir, t, true);
    EndsWithBothAppended(lt, ".tar", ".gz");
    assert ".tar" + ".gz" == ".tar.gz";
    KeepsTarGz(dir, t + ".gz", true, true);
  }

  /** A name ending with ".gz" that gets ".tar" is fixed by the rename after one more step. */
  lemma GzTarSettles(dir: String, m: String)
    requires EndsWith(LowerStr(m), ".gz") && !EndsWith(LowerStr(m), ".tar.gz")
    ensures FinalName(dir, m, true, true) == m + ".tar"
    ensures var n := m + ".tar" + ".gz";
      FinalName(dir, m + ".tar", true, true) == n && FinalName(dir, n, true, true) == n
  {
    AddsTar(dir, m);
    EndsWithAppended(LowerStr(m), ".tar");
    TarThenGz(dir, m + ".tar");
  }

  /**
   * Data that is both gzip and tar may be renamed anew each time, but three
   * renames reach a name the rename keeps: "x" goes to "x.gz", "x.gz.tar",
   * then "x.gz.tar.gz", which ends with ".tar.gz".
   */
  lemma GzipTarRenameSettles(dir: String, name: String)
    ensures var r3 := FinalName(dir, FinalName(dir, FinalName(dir, name, true, true), true, true), true, true);
      FinalName(dir, r3, true, true) == r3
  {
    var ln := LowerStr(name);
    if !EndsWith(ln, ".gz") {
      AddsGz(dir, name, true);
      var r1 := name + ".gz";
      EndsWithAppended(ln, ".gz");
      EndsWithBothAppended(ln, ".tar", ".gz");
      assert ".tar" + ".gz" == ".tar.gz";
      if EndsWith(ln, ".tar") {
        KeepsTarGz(dir, r1, true, true);
      } else {
        GzTarSettles(dir, r1);
      }
    } else if EndsWith(ln, ".tar.gz") {
      KeepsTarGz(dir, name, true, true);
    } else {
      GzTarSettles(dir, name);
    }
  }
}
