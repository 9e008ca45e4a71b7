/**
 * From a cached image's path back to the upstream URL it was fetched from
 * (`getUpstreamUrl` in server/utils/cacheValidator.ts): the file name must
 * match `^(\d+)(?:-(.+?))?\.(?:jpg|jpeg|png|webp)$`, and the cache directory
 * named in the path picks the image server endpoint.
 */
module UpstreamUrl {

  import opened Wrappers
  import opened UriEncoding
  import opened CacheUtils

  const ImageServer := "https://images.evetech.net/"

  /** The directories the validator sweeps (`./cache/characters` and so on), and their names once normalised. */
  const CacheDirs: seq<string> := ["./" + DirNames[0], "./" + DirNames[1], "./" + DirNames[2]]
  const DirNames: seq<string> := ["cache/characters", "cache/corporations", "cache/alliances"]

  /** What `getUpstreamUrl` looks for in a path: `/cache/characters/` and so on. */
  const DirTests: seq<string> := ["/" + DirNames[0] + "/", "/" + DirNames[1] + "/", "/" + DirNames[2] + "/"]

  /** The extensions the file name pattern accepts. */
  const Extensions: seq<string> := ["jpg", "jpeg", "png", "webp"]

  predicate HasSuffix(s: string, suffix: string) {
    |suffix| <= |s| && s[|s| - |suffix|..] == suffix
  }

  predicate HasPrefix(s: string, prefix: string) {
    |prefix| <= |s| && s[..|prefix|] == prefix
  }

  predicate OccursAt(s: string, sub: string, i: nat) {
    i + |sub| <= |s| && s[i..i + |sub|] == sub
  }

  /** `s.includes(sub)`. */
  predicate Includes(s: string, sub: string) {
    exists i: nat :: i <= |s| && OccursAt(s, sub, i)
  }

  // ---------------------------------------------------------------------
  // Paths

  /** `path.normalize` on a relative path without `..`, `//` or a trailing separator: leading `./` go. */
  function Normalize(p: string): (r: string)
    ensures !HasPrefix(r, "./")
    ensures |r| <= |p| && r == p[|p| - |r|..]
  {
    if HasPrefix(p, "./") then Normalize(p[2..]) else p
  }

  /** `path.join(dir, name)` for such a directory and a plain file name. */
  function JoinPath(dir: string, name: string): string {
    Normalize(dir) + "/" + name
  }

  /** `p.replace(/\\/g, '/')`. */
  function ToSlashes(p: string): (r: string)
    ensures |r| == |p|
    ensures forall i :: 0 <= i < |p| ==> r[i] == (if p[i] == '\\' then '/' else p[i])
  {
    if p == [] then [] else [if p[0] == '\\' then '/' else p[0]] + ToSlashes(p[1..])
  }

  /** The text after the last `/`. */
  function LastSegment(p: string): (r: string)
    ensures '/' !in r
    ensures HasSuffix(p, r)
  {
    if p == [] || p[|p| - 1] == '/' then []
    else LastSegment(p[..|p| - 1]) + [p[|p| - 1]]
  }

  function TrimTrailingSlashes(p: string): string {
    if p != [] && p[|p| - 1] == '/' then TrimTrailingSlashes(p[..|p| - 1]) else p
  }

  /** `path.basename(p)` (POSIX): trailing separators are ignored. */
  function BaseName(p: string): string {
    LastSegment(TrimTrailingSlashes(p))
  }

  // ---------------------------------------------------------------------
  // The file name pattern

  predicate IsDigit(c: char) { '0' <= c <= '9' }

  /** What `.` in a regular expression without the `s` flag refuses. */
  predicate LineTerminator(c: char) {
    c == '\n' || c == '\r' || c == '\U{2028}' || c == '\U{2029}'
  }

  predicate AllDigits(s: string) {
    forall i :: 0 <= i < |s| ==> IsDigit(s[i])
  }

  predicate OneLine(s: string) {
    forall i :: 0 <= i < |s| ==> !LineTerminator(s[i])
  }

  /** The length of the run of digits `s` starts with. */
  function DigitRun(s: string): (n: nat)
    ensures n <= |s| && AllDigits(s[..n])
    ensures n < |s| ==> !IsDigit(s[n])
  {
    if s == [] || !IsDigit(s[0]) then 0
    else
      var n := 1 + DigitRun(s[1..]);
      assert s[..n] == [s[0]] + s[1..][..n - 1];
      n
  }

  /** The extension `s` ends with (after a dot), if it ends with one of them. */
  function ExtensionOf(s: string): (r: Option<string>)
    ensures r.Some? ==> r.value in Extensions && HasSuffix(s, "." + r.value)
  {
    if HasSuffix(s, ".jpg") then Some("jpg")
    else if HasSuffix(s, ".jpeg") then Some("jpeg")
    else if HasSuffix(s, ".png") then Some("png")
    else if HasSuffix(s, ".webp") then Some("webp")
    else None
  }

  /** The two capture groups: the id, and the parameters when the dash part is there. */
  datatype NameMatch = NameMatch(id: string, params: Option<string>)

  /** The optional `-{params}` part of a name. */
  function DashPart(params: Option<string>): string {
    match params
    case None => ""
    case Some(p) => "-" + p
  }

  /**
   * `filename.match(...)`. Backtracking never shortens the digits (a shorter
   * run is followed by a digit, which neither `-` nor `.` matches), and the
   * anchors leave the lazy group exactly the text between the dash and the
   * extension.
   */
  function MatchCacheName(name: string): Option<NameMatch> {
    match ExtensionOf(name)
    case None => None
    case Some(ext) => MatchStem(name, DigitRun(name), ext)
  }

  /** The rest of the match once the extension is known: at least one digit, then the dash part. */
  function MatchStem(name: string, n: nat, ext: string): Option<NameMatch> {
    if n == 0 || n + |ext| + 1 > |name| then None
    else match MatchDash(name[n..|name| - |ext| - 1])
      case None => None
      case Some(params) => Some(NameMatch(name[..n], params))
  }

  /** A name that matches is `{digits}[-{params}].{ext}`, and the captures are its parts. */
  lemma MatchCacheNameSound(name: string)
    ensures var r := MatchCacheName(name);
      r.Some? ==>
      && r.value.id != [] && AllDigits(r.value.id)
      && (r.value.params.Some? ==> r.value.params.value != [] && OneLine(r.value.params.value))
      && ExtensionOf(name).Some?
      && name == r.value.id + DashPart(r.value.params) + "." + ExtensionOf(name).value
  {
    var n := DigitRun(name);
    if MatchCacheName(name).Some? {
      var ext := ExtensionOf(name).value;
      var params := MatchDash(name[n..|name| - |ext| - 1]).value;
      Reassemble(name, n, ext, params);
    }
  }

  /** The optional group `(?:-(.+?))?` on the text between the digits and the extension. */
  function MatchDash(mid: string): (r: Option<Option<string>>)
    ensures r.Some? ==> DashPart(r.value) == mid
    ensures r.Some? && r.value.Some? ==> r.value.value != [] && OneLine(r.value.value)
  {
    if mid == [] then Some(None)
    else if mid[0] == '-' && |mid| > 1 && OneLine(mid[1..]) then
      assert mid == "-" + mid[1..];
      Some(Some(mid[1..]))
    else None
  }

  // ---------------------------------------------------------------------
  // The upstream URL

  /** The endpoint for an id in each cache directory. */
  function EndpointFor(dirIndex: nat, id: string): string
    requires dirIndex < 3
  {
    if dirIndex == 0 then ImageServer + "characters/" + id + "/portrait"
    else if dirIndex == 1 then ImageServer + "corporations/" + id + "/logo"
    else ImageServer + "alliances/" + id + "/logo"
  }

  /** `getUpstreamUrl(imagePath)` as the source writes it. */
  function GetUpstreamUrl(imagePath: string): (r: Option<string>)
    ensures r.Some? <==>
      && MatchCacheName(BaseName(ToSlashes(imagePath))).Some?
      && (exists k :: 0 <= k < 3 && Includes(ToSlashes(imagePath), DirTests[k]))
    ensures r.Some? ==>
      var np, id := ToSlashes(imagePath), MatchCacheName(BaseName(ToSlashes(imagePath))).value.id;
      && (Includes(np, DirTests[0]) ==> r.value == EndpointFor(0, id))
      && (!Includes(np, DirTests[0]) && Includes(np, DirTests[1]) ==> r.value == EndpointFor(1, id))
      && (!Includes(np, DirTests[0]) && !Includes(np, DirTests[1]) ==> r.value == EndpointFor(2, id))
  {
    var normalizedPath := ToSlashes(imagePath);
    match MatchCacheName(BaseName(normalizedPath))
    case None => None
    case Some(m) => PickEndpoint(normalizedPath, m.id)
  }

  /** The first directory test the path passes picks the endpoint. */
  function PickEndpoint(normalizedPath: string, id: string): (r: Option<string>)
    ensures r.Some? <==> exists k :: 0 <= k < 3 && Includes(normalizedPath, DirTests[k])
    ensures Includes(normalizedPath, DirTests[0]) ==> r == Some(EndpointFor(0, id))
    ensures !Includes(normalizedPath, DirTests[0]) && Includes(normalizedPath, DirTests[1]) ==> r == Some(EndpointFor(1, id))
    ensures !Includes(normalizedPath, DirTests[0]) && !Includes(normalizedPath, DirTests[1]) && r.Some? ==> r == Some(EndpointFor(2, id))
  {
    if Includes(normalizedPath, DirTests[0]) then Some(EndpointFor(0, id))
    else if Includes(normalizedPath, DirTests[1]) then Some(EndpointFor(1, id))
    else if Includes(normalizedPath, DirTests[2]) then Some(EndpointFor(2, id))
    else None
  }

  /**
   * The lookup the sweep needs: the joined path has lost its leading `./`, so
   * it is looked up as the rooted path `/cache/...` that the test expects.
   */
  function ResolveUpstreamUrl(imagePath: string): (r: Option<string>)
  {
    GetUpstreamUrl("/" + imagePath)
  }

  // ---------------------------------------------------------------------
  // Lemmas

  lemma Reassemble(name: string, n: nat, ext: string, params: Option<string>)
    requires n + |ext| + 1 <= |name| && HasSuffix(name, "." + ext)
    requires name[n..|name| - |ext| - 1] == DashPart(params)
    ensures name == name[..n] + DashPart(params) + "." + ext
  {
    var j := |name| - |ext| - 1;
    assert name == name[..n] + name[n..j] + name[j..];
  }

  lemma ExtensionOfSuffix(front: string, ext: string)
    requires ext in Extensions
    ensures ExtensionOf(front + "." + ext) == Some(ext)
  {
    var s := front + "." + ext;
    var n := |s|;
    if ext == "jpg" {
      assert s[n - 4..] == ".jpg";
    } else if ext == "jpeg" {
      assert s[n - 5..] == ".jpeg";
      assert s[n - 4..][0] == 'j';
    } else if ext == "png" {
      assert s[n - 4..] == ".png";
      assert s[n - 2] == 'n' && s[n - 3] == 'p';
    } else {
      assert s[n - 5..] == ".webp";
      assert s[n - 1] == 'p';
    }
  }

  /** Every name of the form `{digits}[-{params}].{ext}` matches, with exactly these captures. */
  lemma MatchCacheNameComplete(id: string, params: Option<string>, ext: string)
    requires id != [] && AllDigits(id) && ext in Extensions
    requires params.Some? ==> params.value != [] && OneLine(params.value)
    ensures MatchCacheName(id + DashPart(params) + "." + ext) == Some(NameMatch(id, params))
  {
    var name := id + DashPart(params) + "." + ext;
    NameLayout(id, DashPart(params), ext);
    MatchDashOf(params);
    MatchCacheNameOf(name, |id|, ext, params);
  }

  /** The steps of the match, taken one at a time. */
  lemma MatchCacheNameOf(name: string, n: nat, ext: string, params: Option<string>)
    requires 0 < n == DigitRun(name) && ExtensionOf(name) == Some(ext) && n + |ext| + 1 <= |name|
    requires MatchDash(name[n..|name| - |ext| - 1]) == Some(params)
    ensures MatchCacheName(name) == Some(NameMatch(name[..n], params))
  {
    MatchStemOf(name, n, ext, params);
  }

  lemma MatchStemOf(name: string, n: nat, ext: string, params: Option<string>)
    requires 0 < n && n + |ext| + 1 <= |name|
    requires MatchDash(name[n..|name| - |ext| - 1]) == Some(params)
    ensures MatchStem(name, n, ext) == Some(NameMatch(name[..n], params))
  {
  }

  lemma MatchDashOf(params: Option<string>)
    requires params.Some? ==> params.value != [] && OneLine(params.value)
    ensures MatchDash(DashPart(params)) == Some(params)
  {
    if params.Some? {
      assert DashPart(params)[1..] == params.value;
    }
  }

  lemma NameLayout(id: string, dash: string, ext: string)
    requires id != [] && AllDigits(id) && ext in Extensions
    requires dash == [] || dash[0] == '-'
    ensures var name := id + dash + "." + ext;
      && DigitRun(name) == |id|
      && ExtensionOf(name) == Some(ext)
      && name[..|id|] == id
      && name[|id|..|name| - |ext| - 1] == dash
  {
    var rest := dash + "." + ext;
    var name := id + dash + "." + ext;
    assert name == id + rest;
    assert rest[0] == '-' || rest[0] == '.';
    DigitRunOf(id, rest);
    ExtensionOfSuffix(id + dash, ext);
  }

  lemma {:induction false} DigitRunOf(id: string, rest: string)
    requires AllDigits(id) && (rest != [] ==> !IsDigit(rest[0]))
    ensures DigitRun(id + rest) == |id|
  {
    if id != [] {
      assert (id + rest)[1..] == id[1..] + rest;
      DigitRunOf(id[1..], rest);
    } else {
      assert id + rest == rest;
    }
  }

  // ---------------------------------------------------------------------
  // Paths the sweep builds

  lemma NormalizedCacheDir(k: nat)
    requires k < 3
    ensures Normalize(CacheDirs[k]) == DirNames[k]
  {
    assert CacheDirs[k] == "./" + DirNames[k];
    assert DirNames[k][0] == 'c';
    DotSlash(DirNames[k]);
  }

  lemma DotSlash(d: string)
    requires d != [] && d[0] != '.'
    ensures Normalize("./" + d) == d
  {
    assert ("./" + d)[2..] == d;
    assert !HasPrefix(d, "./");
  }

  lemma {:induction false} ToSlashesKeeps(s: string)
    requires '\\' !in s
    ensures ToSlashes(s) == s
  {
    if s != [] {
      ToSlashesKeeps(s[1..]);
      assert s == [s[0]] + s[1..];
    }
  }

  lemma {:induction false} LastSegmentAfterSlash(front: string, name: string)
    requires '/' !in name
    ensures LastSegment(front + "/" + name) == name
  {
    var s := front + "/" + name;
    if name == [] {
      assert s[|s| - 1] == '/';
    } else {
      var init := name[..|name| - 1];
      assert s[|s| - 1] == name[|name| - 1] != '/';
      assert s[..|s| - 1] == front + "/" + init;
      assert '/' !in init by {
        forall i | 0 <= i < |init| ensures init[i] != '/' { assert init[i] == name[i]; }
      }
      LastSegmentAfterSlash(front, init);
      assert init + [name[|name| - 1]] == name;
    }
  }

  /** The basename of `{front}/{name}` for a plain name that does not end in `/`. */
  lemma BaseNameOf(front: string, name: string)
    requires '/' !in name && name != []
    ensures BaseName(front + "/" + name) == name
  {
    var s := front + "/" + name;
    assert s[|s| - 1] == name[|name| - 1];
    LastSegmentAfterSlash(front, name);
  }

  /**
   * A pattern ending in `/` cannot straddle into a name without `/`: it occurs
   * in `front + name` exactly when it occurs in `front`.
   */
  lemma IncludesBeforeName(front: string, name: string, sub: string)
    requires sub != [] && sub[|sub| - 1] == '/' && '/' !in name
    ensures Includes(front + name, sub) <==> Includes(front, sub)
  {
    var s := front + name;
    if Includes(s, sub) {
      var i: nat :| i <= |s| && OccursAt(s, sub, i);
      var j := i + |sub| - 1;
      assert s[j] == s[i..i + |sub|][|sub| - 1] == '/';
      assert s[i..i + |sub|] == front[i..i + |sub|];
      assert OccursAt(front, sub, i);
    }
    if Includes(front, sub) {
      var i: nat :| i <= |front| && OccursAt(front, sub, i);
      assert s[i..i + |sub|] == front[i..i + |sub|];
      assert OccursAt(s, sub, i);
    }
  }

  /**
   * A pattern starting with `/` does not occur in `front` when it is not
   * `front`'s beginning and `front` has no `/` at index 1 or 2 and is at most
   * two characters longer than the pattern.
   */
  lemma NotIncludedIn(front: string, sub: string)
    requires |sub| > 0 && sub[0] == '/' && |front| <= |sub| + 2
    requires !HasPrefix(front, sub)
    requires |front| > 1 ==> front[1] != '/'
    requires |front| > 2 ==> front[2] != '/'
    ensures !Includes(front, sub)
  {
    forall i: nat | i <= |front| ensures !OccursAt(front, sub, i) {
      if i + |sub| <= |front| && i > 0 {
        assert front[i..i + |sub|][0] == front[i];
      }
    }
  }

  lemma NoBackslashInDirs()
    ensures forall k :: 0 <= k < 3 ==> '\\' !in DirNames[k]
  {
  }

  lemma FrontStartsLower(k: nat)
    requires k < 3
    ensures var f := DirNames[k] + "/"; f[0] == 'c' && f[1] == 'a' && f[2] == 'c'
  {
  }

  lemma AsWrittenFrontLacksTest(k: nat, j: nat)
    requires k < 3 && j < 3
    ensures !Includes(DirNames[k] + "/", DirTests[j])
  {
    FrontStartsLower(k);
    NotIncludedIn(DirNames[k] + "/", DirTests[j]);
  }

  lemma SweptPathLayout(k: nat, name: string)
    requires k < 3
    ensures JoinPath(CacheDirs[k], name) == (DirNames[k] + "/") + name
  {
    NormalizedCacheDir(k);
  }

  /**
   * As written, `getUpstreamUrl` finds no upstream URL for any path the sweep
   * builds: `path.join` drops the leading `./`, so the path never holds the
   * `/cache/{kind}/` it tests for.
   */
  lemma GetUpstreamUrlMissesSweptPaths(k: nat, name: string)
    requires k < 3 && '/' !in name && '\\' !in name
    ensures GetUpstreamUrl(JoinPath(CacheDirs[k], name)) == None
  {
    var front := DirNames[k] + "/";
    var s := JoinPath(CacheDirs[k], name);
    SweptPathLayout(k, name);
    NoBackslashInDirs();
    assert '\\' !in front;
    ToSlashesKeeps(s);
    IncludesBeforeName(front, name, DirTests[0]);
    IncludesBeforeName(front, name, DirTests[1]);
    IncludesBeforeName(front, name, DirTests[2]);
    AsWrittenFrontLacksTest(k, 0);
    AsWrittenFrontLacksTest(k, 1);
    AsWrittenFrontLacksTest(k, 2);
  }

  lemma DirTestsDistinct()
    ensures !Includes(DirTests[1], DirTests[0])
    ensures !Includes(DirTests[2], DirTests[0]) && !Includes(DirTests[2], DirTests[1])
  {
    assert DirTests[1][8] != DirTests[0][8];
    NotIncludedIn(DirTests[1], DirTests[0]);
    NotIncludedIn(DirTests[2], DirTests[0]);
    NotIncludedIn(DirTests[2], DirTests[1]);
  }

  /**
   * Looked up as a rooted path, the path the sweep builds finds the endpoint
   * of its own directory, with the id its file name starts with.
   */
  lemma ResolveUpstreamUrlOfSweptPath(k: nat, name: string)
    requires k < 3 && name != [] && '/' !in name && '\\' !in name
    ensures ResolveUpstreamUrl(JoinPath(CacheDirs[k], name)) ==
      match MatchCacheName(name)
      case None => None
      case Some(m) => Some(EndpointFor(k, m.id))
  {
    RootedSweptPath(k, name);
    var m := MatchCacheName(name);
    if m.Some? {
      PickEndpointOf(k, name, m);
    }
  }

  /** Rooted, the path the sweep builds is the directory test followed by the name, and reads back as that name. */
  lemma RootedSweptPath(k: nat, name: string)
    requires k < 3 && name != [] && '/' !in name && '\\' !in name
    ensures "/" + JoinPath(CacheDirs[k], name) == DirTests[k] + name
    ensures ToSlashes(DirTests[k] + name) == DirTests[k] + name
    ensures BaseName(DirTests[k] + name) == name
  {
    var d, t := DirNames[k], DirTests[k];
    DirTestOf(k);
    SweptPathLayout(k, name);
    Regroup("/", d, "/", name);
    BackslashFreeJoin(t, name);
    ToSlashesKeeps(t + name);
    BaseNameOf("/" + d, name);
  }

  lemma DirTestOf(k: nat)
    requires k < 3
    ensures DirTests[k] == "/" + DirNames[k] + "/" && '\\' !in DirTests[k]
  {
    if k == 0 {
    } else if k == 1 {
    } else {
    }
  }

  lemma Regroup<T>(a: seq<T>, b: seq<T>, c: seq<T>, d: seq<T>)
    ensures a + ((b + c) + d) == ((a + b) + c) + d
  {
  }

  lemma BackslashFreeJoin(a: string, b: string)
    requires '\\' !in a && '\\' !in b
    ensures '\\' !in a + b
  {
  }

  /** Under its own directory's rooted path, a name picks that directory's endpoint. */
  lemma PickEndpointOf(k: nat, name: string, m: Option<NameMatch>)
    requires k < 3 && '/' !in name && m.Some?
    ensures PickEndpoint(DirTests[k] + name, m.value.id) == Some(EndpointFor(k, m.value.id))
  {
    var front := DirTests[k];
    var s := front + name;
    assert OccursAt(s, DirTests[k], 0);
    DirTestsDistinct();
    IncludesBeforeName(front, name, DirTests[0]);
    IncludesBeforeName(front, name, DirTests[1]);
  }

  lemma NoSlashInName(id: string, params: Option<string>, ext: string)
    requires AllDigits(id) && ext in Extensions
    requires params.Some? ==> IsQueryText(params.value)
    ensures '/' !in id + DashPart(params) + "." + ext
  {
    assert '/' !in id by {
      forall i | 0 <= i < |id| ensures id[i] != '/' { assert IsDigit(id[i]); }
    }
    if params.Some? {
      var p := params.value;
      assert '/' !in p by {
        forall i | 0 <= i < |p| ensures p[i] != '/' { assert QueryChar(p[i]); }
      }
    }
    assert '/' !in "." + ext;
  }

  lemma QueryTextOneLine(s: string)
    requires IsQueryText(s)
    ensures OneLine(s)
  {
    forall i | 0 <= i < |s| ensures !LineTerminator(s[i]) { assert QueryChar(s[i]); }
  }

  /**
   * Round trip with `getCacheFilename`: for an all-digit id and an accepted
   * extension, the pattern matches the basename of the cache filename and
   * captures exactly the id, with the canonical query as the parameters.
   */
  lemma CacheFilenameRoundTrip(id: string, q: Query, ext: string, basePath: string)
    requires id != [] && AllDigits(id) && ext in Extensions && q.WellFormed()
    ensures MatchCacheName(BaseName(GetCacheFilename(id, q, ext, basePath)))
      == Some(NameMatch(id, if q.keys == [] then None else Some(CanonicalQuery(q))))
  {
    var params := if q.keys == [] then None else Some(CanonicalQuery(q));
    var name := id + DashPart(params) + "." + ext;
    FilenameParts(id, q, ext, basePath);
    assert GetCacheFilename(id, q, ext, basePath) == basePath + "/" + name;
    QueryTextOneLine(CanonicalQuery(q));
    NoSlashInName(id, params, ext);
    BaseNameOf(basePath, name);
    MatchCacheNameComplete(id, params, ext);
  }
}
