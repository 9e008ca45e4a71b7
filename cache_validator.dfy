/**
 * The background cache validator (server/utils/cacheValidator.ts): a sidecar
 * `{image}.meta.json` per cached image records the upstream ETag and when the
 * entry falls due; a sweep over the cache directories asks the upstream server
 * for the current ETag of every due entry and then refreshes, adopts or evicts
 * it.
 *
 * The file system is a map from path strings to files, keyed by the string
 * exactly as given (no normalisation: `./cache/a.png` and `cache/a.png` are
 * two keys); the sweep builds its paths with `path.join`, which drops a
 * leading `./`, and the members here are about paths in that form. The clock
 * is the parameter `now` and the upstream server's answer to a `HEAD`
 * request is the function `fetchHead`.
 */
module CacheValidation {

  import opened Wrappers
  import opened Upstream
  import opened UpstreamUrl

  /** The sidecar record, times in milliseconds since the epoch. */
  datatype CacheMetadata = CacheMetadata(etag: string, lastChecked: int, lastModified: int, cacheExpiry: int)

  /** A file: its modification time, and what `JSON.parse` makes of its text (None when that throws). */
  datatype File = File(mtimeMs: int, json: Option<CacheMetadata>)

  type Files = map<string, File>

  /** 24 hours in milliseconds. */
  const CacheValidationInterval: int := 24 * 60 * 60 * 1000
  const MetadataSuffix := ".meta.json"

  function MetadataPath(imagePath: string): string {
    imagePath + MetadataSuffix
  }

  function Get(files: Files, path: string): Option<File> {
    if path in files then Some(files[path]) else None
  }

  // ---------------------------------------------------------------------
  // Reading and writing sidecars

  /** `loadCacheMetadata`: the parsed sidecar, None when it is missing or does not parse. */
  function LoadCacheMetadata(files: Files, imagePath: string): (r: Option<CacheMetadata>)
    ensures r.Some? <==> MetadataPath(imagePath) in files && files[MetadataPath(imagePath)].json.Some?
    ensures r.Some? ==> r == files[MetadataPath(imagePath)].json
  {
    match Get(files, MetadataPath(imagePath))
    case None => None
    case Some(f) => f.json
  }

  /** The record `saveCacheMetadata` writes: checked now, due one interval from now. */
  function FreshMetadata(etag: string, now: int): CacheMetadata {
    CacheMetadata(etag, now, now, now + CacheValidationInterval)
  }

  /** The files after `saveCacheMetadata(imagePath, etag)`: nothing is written for a falsy ETag. */
  function Saved(files: Files, imagePath: string, etag: Option<string>, now: int): Files {
    if !Truthy(etag) then files
    else files[MetadataPath(imagePath) := File(now, Some(FreshMetadata(etag.value, now)))]
  }

  /** The stored record with `lastChecked` and `cacheExpiry` moved to now. */
  function Refreshed(m: CacheMetadata, now: int): CacheMetadata {
    m.(lastChecked := now, cacheExpiry := now + CacheValidationInterval)
  }

  /** The files after `removeCachedImage(imagePath)`: the image and its sidecar are gone. */
  function Evicted(files: Files, imagePath: string): Files {
    files - {imagePath, MetadataPath(imagePath)}
  }

  // ---------------------------------------------------------------------
  // Deciding

  /**
   * `needsValidation`: with a sidecar, whether its expiry has passed; without
   * one, whether the image is older than the interval (false when the image
   * cannot be found either).
   */
  function NeedsValidation(files: Files, imagePath: string, now: int): (r: bool)
    ensures LoadCacheMetadata(files, imagePath).Some? ==>
      (r <==> now > LoadCacheMetadata(files, imagePath).value.cacheExpiry)
    ensures LoadCacheMetadata(files, imagePath).None? ==>
      (r <==> imagePath in files && now - files[imagePath].mtimeMs > CacheValidationInterval)
  {
    match LoadCacheMetadata(files, imagePath)
    case Some(m) => now > m.cacheExpiry
    case None =>
      match Get(files, imagePath)
      case None => false
      case Some(image) => now - image.mtimeMs > CacheValidationInterval
  }

  datatype Action = Validated | Removed | Error

  /** What validating one image reports, and the files afterwards. */
  datatype Outcome = Outcome(action: Action, files: Files)

  /**
   * `validateSingleImage` once the upstream URL is known to be `url`: no URL
   * or no answer is an error; without an ETag upstream the sidecar is created
   * (as `no-etag`) or refreshed; without a sidecar the upstream ETag is
   * adopted; a different ETag evicts the image, the same one refreshes it.
   */
  function ValidateWith(files: Files, imagePath: string, url: Option<string>, now: int, fetchHead: string -> Head): Outcome {
    var metadata := LoadCacheMetadata(files, imagePath);
    match url
    case None => Outcome(Error, files)
    case Some(u) =>
      match fetchHead(u)
      case Unreachable => Outcome(Error, files)
      case Headers(currentETag) =>
        if !Truthy(currentETag) then
          match metadata
          case None => Outcome(Validated, Saved(files, imagePath, Some("no-etag"), now))
          case Some(m) => Outcome(Validated, files[MetadataPath(imagePath) := File(now, Some(Refreshed(m, now)))])
        else
          match metadata
          case None => Outcome(Validated, Saved(files, imagePath, currentETag, now))
          case Some(m) =>
            if currentETag.value != m.etag then Outcome(Removed, Evicted(files, imagePath))
            else Outcome(Validated, files[MetadataPath(imagePath) := File(now, Some(Refreshed(m, now)))])
  }

  /** `validateSingleImage(imagePath)`, with the upstream URL looked up as a rooted path. */
  function Validation(files: Files, imagePath: string, now: int, fetchHead: string -> Head): Outcome {
    ValidateWith(files, imagePath, ResolveUpstreamUrl(imagePath), now, fetchHead)
  }

  // ---------------------------------------------------------------------
  // What one validation does

  lemma MetadataPathDiffers(imagePath: string)
    ensures MetadataPath(imagePath) != imagePath
  {
    assert |MetadataPath(imagePath)| == |imagePath| + 10;
  }

  /**
   * Saving with a falsy ETag changes nothing; otherwise the sidecar then reads
   * back as the given ETag, checked now and due one interval later, and no
   * other file changes.
   */
  lemma SavedReadsBack(files: Files, imagePath: string, etag: Option<string>, now: int)
    ensures !Truthy(etag) ==> Saved(files, imagePath, etag, now) == files
    ensures Truthy(etag) ==>
      var m := LoadCacheMetadata(Saved(files, imagePath, etag, now), imagePath);
      && m.Some? && m.value.etag == etag.value && m.value.lastChecked == now
      && m.value.cacheExpiry == m.value.lastChecked + CacheValidationInterval
    ensures forall q :: q != MetadataPath(imagePath) ==> Get(Saved(files, imagePath, etag, now), q) == Get(files, q)
  {
  }

  /** Validation touches nothing but the image and its sidecar, and the image only when it evicts. */
  lemma ValidationFrame(files: Files, imagePath: string, url: Option<string>, now: int, fetchHead: string -> Head)
    ensures var o := ValidateWith(files, imagePath, url, now, fetchHead);
      && (forall q :: q != imagePath && q != MetadataPath(imagePath) ==> Get(o.files, q) == Get(files, q))
      && (o.action != Removed ==> Get(o.files, imagePath) == Get(files, imagePath))
  {
    MetadataPathDiffers(imagePath);
  }

  /** An error (no URL, or no answer from upstream) leaves every file as it was. */
  lemma ErrorChangesNothing(files: Files, imagePath: string, url: Option<string>, now: int, fetchHead: string -> Head)
    ensures url.None? ==> ValidateWith(files, imagePath, url, now, fetchHead) == Outcome(Error, files)
    ensures ValidateWith(files, imagePath, url, now, fetchHead).action == Error
      ==> ValidateWith(files, imagePath, url, now, fetchHead).files == files
  {
  }

  /**
   * An entry is evicted exactly when upstream answers with an ETag and a
   * sidecar records a different one; afterwards neither the image nor its
   * sidecar exists.
   */
  lemma EvictedIffETagChanged(files: Files, imagePath: string, url: Option<string>, now: int, fetchHead: string -> Head)
    ensures var o := ValidateWith(files, imagePath, url, now, fetchHead);
      var m := LoadCacheMetadata(files, imagePath);
      && (o.action == Removed <==>
           && url.Some? && fetchHead(url.value).Headers? && Truthy(fetchHead(url.value).etag)
           && m.Some? && fetchHead(url.value).etag.value != m.value.etag)
      && (o.action == Removed ==> imagePath !in o.files && MetadataPath(imagePath) !in o.files)
  {
  }

  /**
   * A validated entry keeps its image, and its sidecar then reads back as
   * checked now and due one interval later; the ETag is the stored one when
   * there was a sidecar, else the upstream one, else `no-etag`.
   */
  lemma ValidatedRefreshes(files: Files, imagePath: string, url: Option<string>, now: int, fetchHead: string -> Head)
    requires ValidateWith(files, imagePath, url, now, fetchHead).action == Validated
    ensures var f := ValidateWith(files, imagePath, url, now, fetchHead).files;
      var before := LoadCacheMetadata(files, imagePath);
      var after := LoadCacheMetadata(f, imagePath);
      var upstream := fetchHead(url.value).etag;
      && Get(f, imagePath) == Get(files, imagePath)
      && after.Some? && after.value.lastChecked == now
      && after.value.cacheExpiry == now + CacheValidationInterval
      && after.value.etag == (if before.Some? then before.value.etag else if Truthy(upstream) then upstream.value else "no-etag")
  {
    MetadataPathDiffers(imagePath);
  }

  /** Once due, an entry stays due as time goes on. */
  lemma DueStaysDue(files: Files, imagePath: string, now: int, later: int)
    requires now <= later && NeedsValidation(files, imagePath, now)
    ensures NeedsValidation(files, imagePath, later)
  {
  }

  /**
   * A validated entry is not due again until a full interval has passed, and
   * when the sweep refreshed a due sidecar its expiry moved strictly forward.
   */
  lemma ValidatedNotDueUntilInterval(files: Files, imagePath: string, url: Option<string>, now: int, fetchHead: string -> Head, t: int)
    requires ValidateWith(files, imagePath, url, now, fetchHead).action == Validated
    ensures NeedsValidation(ValidateWith(files, imagePath, url, now, fetchHead).files, imagePath, t)
      <==> t > now + CacheValidationInterval
    ensures NeedsValidation(files, imagePath, now) && LoadCacheMetadata(files, imagePath).Some? ==>
      LoadCacheMetadata(ValidateWith(files, imagePath, url, now, fetchHead).files, imagePath).value.cacheExpiry
        > LoadCacheMetadata(files, imagePath).value.cacheExpiry
  {
    ValidatedRefreshes(files, imagePath, url, now, fetchHead);
  }

  /**
   * As written, every path the sweep builds has no upstream URL, so each due
   * entry ends in an error and no file changes.
   */
  lemma AsWrittenValidationIsInert(files: Files, k: nat, name: string, now: int, fetchHead: string -> Head)
    requires k < 3 && '/' !in name && '\\' !in name
    ensures var imagePath := JoinPath(CacheDirs[k], name);
      ValidateWith(files, imagePath, GetUpstreamUrl(imagePath), now, fetchHead) == Outcome(Error, files)
  {
    GetUpstreamUrlMissesSweptPaths(k, name);
  }

  // ---------------------------------------------------------------------
  // The sweep over one directory

  /** `fs.readdir(dir)`: the names of the files directly inside `dir`. */
  function ListDir(files: Files, dir: string): set<string> {
    var prefix := Normalize(dir) + "/";
    set p | p in files && StripPrefix(p, prefix).Some? && '/' !in StripPrefix(p, prefix).value :: StripPrefix(p, prefix).value
  }

  /** What is left of `s` after `prefix`, if `s` starts with it. */
  function StripPrefix(s: string, prefix: string): Option<string> {
    if prefix == [] then Some(s)
    else if s != [] && s[0] == prefix[0] then StripPrefix(s[1..], prefix[1..])
    else None
  }

  lemma {:induction false} StripPrefixInverse(s: string, prefix: string)
    ensures StripPrefix(prefix + s, prefix) == Some(s)
    ensures StripPrefix(s, prefix).Some? ==> s == prefix + StripPrefix(s, prefix).value
  {
    StripPrefixOfJoin(s, prefix);
    StripPrefixSplits(s, prefix);
  }

  lemma {:induction false} StripPrefixOfJoin(s: string, prefix: string)
    ensures StripPrefix(prefix + s, prefix) == Some(s)
  {
    if prefix == [] {
      assert prefix + s == s;
    } else {
      var t := prefix + s;
      assert t[0] == prefix[0] && t[1..] == prefix[1..] + s;
      StripPrefixOfJoin(s, prefix[1..]);
    }
  }

  lemma {:induction false} StripPrefixSplits(s: string, prefix: string)
    ensures StripPrefix(s, prefix).Some? ==> s == prefix + StripPrefix(s, prefix).value
  {
    if prefix != [] && s != [] && s[0] == prefix[0] {
      StripPrefixSplits(s[1..], prefix[1..]);
      if StripPrefix(s, prefix).Some? {
        var v := StripPrefix(s, prefix).value;
        assert s == [s[0]] + s[1..] == [prefix[0]] + (prefix[1..] + v);
        assert prefix == [prefix[0]] + prefix[1..];
      }
    }
  }


  /** `path.join(dir, name)` for a listed name: stripping the directory gives the name back. */
  function ImagePath(dir: string, name: string): (p: string)
    ensures p == JoinPath(dir, name)
    ensures StripPrefix(p, Normalize(dir) + "/") == Some(name)
  {
    StripPrefixOfJoin(name, Normalize(dir) + "/");
    JoinPath(dir, name)
  }

  /** The filter in `validateCacheDirectory`: an image extension, and not a sidecar. */
  predicate IsImageFile(name: string) {
    && !HasSuffix(name, MetadataSuffix)
    && (HasSuffix(name, ".jpg") || HasSuffix(name, ".jpeg") || HasSuffix(name, ".png") || HasSuffix(name, ".webp"))
  }

  function ImageFiles(files: Files, dir: string): set<string> {
    set n | n in ListDir(files, dir) && IsImageFile(n)
  }

  /** Every name in `names` passes the filter. */
  predicate AllImages(names: set<string>) {
    forall n :: n in names ==> IsImageFile(n)
  }

  /** A listed image is a plain name whose path in `dir` is a file, and an image's sidecar is never listed as an image. */
  lemma ListedImage(files: Files, dir: string, n: string)
    requires n in ImageFiles(files, dir)
    ensures IsImageFile(n) && '/' !in n && ImagePath(dir, n) in files
    ensures n + MetadataSuffix !in ImageFiles(files, dir)
  {
    var prefix := Normalize(dir) + "/";
    var p :| p in files && StripPrefix(p, prefix).Some? && '/' !in StripPrefix(p, prefix).value && n == StripPrefix(p, prefix).value;
    StripPrefixInverse(p, prefix);
    assert ImagePath(dir, n) == p;
    SidecarInDir(dir, n);
  }

  lemma ImageFilesAreImages(files: Files, dir: string)
    ensures AllImages(ImageFiles(files, dir))
  {
  }

  /** What the sweep does with one image: validate it when due, else nothing. */
  function Visit(files: Files, imagePath: string, now: int, fetchHead: string -> Head, resolve: string -> Option<string>): (Option<Action>, Files) {
    if NeedsValidation(files, imagePath, now) then
      var o := ValidateWith(files, imagePath, resolve(imagePath), now, fetchHead);
      (Some(o.action), o.files)
    else (None, files)
  }

  /** An image's slot: the image and its sidecar. */
  datatype Slot = Slot(image: Option<File>, sidecar: Option<File>)

  function SlotAt(files: Files, imagePath: string): Slot {
    Slot(Get(files, imagePath), Get(files, MetadataPath(imagePath)))
  }

  /**
   * The name of the image in `dir` whose slot `q` is: `q` is either the
   * image's path or its sidecar's.
   */
  function Owner(dir: string, q: string): Option<string> {
    match StripPrefix(q, Normalize(dir) + "/")
    case None => None
    case Some(rest) =>
      if HasSuffix(rest, MetadataSuffix) then Some(rest[..|rest| - |MetadataSuffix|]) else Some(rest)
  }

  /** Whether `q` is the path of one of the images `names` of `dir`, or of its sidecar. */
  predicate InSlots(dir: string, names: set<string>, q: string) {
    Owner(dir, q).Some? && Owner(dir, q).value in names
  }


  /** What visiting each of the images `names` of `dir` alone would report. */
  function Reports(files: Files, dir: string, names: set<string>, now: int, fetchHead: string -> Head, resolve: string -> Option<string>): map<string, Option<Action>> {
    map n | n in names :: Visit(files, ImagePath(dir, n), now, fetchHead, resolve).0
  }

  /** The names among `names` whose report is `a`. */
  function Tally(names: set<string>, report: map<string, Option<Action>>, a: Action): set<string> {
    set n | n in names && n in report && report[n] == Some(a)
  }

  /**
   * `after` is what a sweep of `dir` makes of `before`: every listed image's
   * slot is what visiting it alone would make of it, and every other path is
   * unchanged.
   */
  ghost predicate SweptDir(before: Files, after: Files, dir: string, now: int, fetchHead: string -> Head, resolve: string -> Option<string>) {
    var images := ImageFiles(before, dir);
    && (forall n {:trigger SlotAt(after, ImagePath(dir, n))} :: n in images ==>
          SlotAt(after, ImagePath(dir, n)) == SlotAt(Visit(before, ImagePath(dir, n), now, fetchHead, resolve).1, ImagePath(dir, n)))
    && (forall q {:trigger Get(after, q)} :: !InSlots(dir, images, q) ==> Get(after, q) == Get(before, q))
  }

  /** Validation depends on the image's slot alone. */
  lemma ValidateWithLocal(f: Files, g: Files, imagePath: string, url: Option<string>, now: int, fetchHead: string -> Head)
    requires SlotAt(f, imagePath) == SlotAt(g, imagePath)
    ensures ValidateWith(f, imagePath, url, now, fetchHead).action == ValidateWith(g, imagePath, url, now, fetchHead).action
    ensures SlotAt(ValidateWith(f, imagePath, url, now, fetchHead).files, imagePath)
         == SlotAt(ValidateWith(g, imagePath, url, now, fetchHead).files, imagePath)
  {
    MetadataPathDiffers(imagePath);
    var m := LoadCacheMetadata(f, imagePath);
    assert m == LoadCacheMetadata(g, imagePath);
    if url.Some? && fetchHead(url.value).Headers? {
      var e := fetchHead(url.value).etag;
      var mp := MetadataPath(imagePath);
      if m.Some? && !(Truthy(e) && e.value != m.value.etag) {
        var nf := File(now, Some(Refreshed(m.value, now)));
        assert SlotAt(f[mp := nf], imagePath) == Slot(Get(f, imagePath), Some(nf));
        assert SlotAt(g[mp := nf], imagePath) == Slot(Get(g, imagePath), Some(nf));
      } else if m.None? {
        var e' := if Truthy(e) then e else Some("no-etag");
        var nf := File(now, Some(FreshMetadata(e'.value, now)));
        assert SlotAt(f[mp := nf], imagePath) == Slot(Get(f, imagePath), Some(nf));
        assert SlotAt(g[mp := nf], imagePath) == Slot(Get(g, imagePath), Some(nf));
      }
    }
  }

  /** A visit depends on the image's slot alone. */
  lemma VisitLocal(f: Files, g: Files, imagePath: string, now: int, fetchHead: string -> Head, resolve: string -> Option<string>)
    requires SlotAt(f, imagePath) == SlotAt(g, imagePath)
    ensures Visit(f, imagePath, now, fetchHead, resolve).0 == Visit(g, imagePath, now, fetchHead, resolve).0
    ensures SlotAt(Visit(f, imagePath, now, fetchHead, resolve).1, imagePath) == SlotAt(Visit(g, imagePath, now, fetchHead, resolve).1, imagePath)
  {
    assert NeedsValidation(f, imagePath, now) == NeedsValidation(g, imagePath, now);
    ValidateWithLocal(f, g, imagePath, resolve(imagePath), now, fetchHead);
  }

  lemma VisitFrame(f: Files, imagePath: string, now: int, fetchHead: string -> Head, resolve: string -> Option<string>, q: string)
    requires q != imagePath && q != MetadataPath(imagePath)
    ensures Get(Visit(f, imagePath, now, fetchHead, resolve).1, q) == Get(f, q)
  {
    ValidationFrame(f, imagePath, resolve(imagePath), now, fetchHead);
  }

  lemma JoinPathInjective(dir: string, n: string, m: string)
    ensures ImagePath(dir, n) == ImagePath(dir, m) ==> n == m
  {
    var k := |Normalize(dir)| + 1;
    assert ImagePath(dir, n)[k..] == n;
    assert ImagePath(dir, m)[k..] == m;
  }

  lemma MetadataPathInjective(a: string, b: string)
    ensures MetadataPath(a) == MetadataPath(b) ==> a == b
  {
    assert MetadataPath(a)[..|a|] == a;
    assert MetadataPath(b)[..|b|] == b;
  }

  /** A sidecar sits in its image's directory, under a name no image has. */
  lemma SidecarInDir(dir: string, n: string)
    ensures MetadataPath(ImagePath(dir, n)) == ImagePath(dir, n + MetadataSuffix)
    ensures !IsImageFile(n + MetadataSuffix)
  {
    Regroup3(Normalize(dir) + "/", n, MetadataSuffix);
    SidecarNotImage(n);
  }

  lemma Regroup3<T>(a: seq<T>, b: seq<T>, c: seq<T>)
    ensures (a + b) + c == a + (b + c)
  {
  }

  lemma SidecarNotImage(n: string)
    ensures !IsImageFile(n + MetadataSuffix)
  {
    assert (n + MetadataSuffix)[|n|..] == MetadataSuffix;
  }

  /** An image's path and its sidecar's both belong to that image. */
  lemma OwnerOfSlot(dir: string, n: string)
    requires IsImageFile(n)
    ensures Owner(dir, ImagePath(dir, n)) == Some(n)
    ensures Owner(dir, MetadataPath(ImagePath(dir, n))) == Some(n)
  {
    var prefix := Normalize(dir) + "/";
    StripPrefixInverse(n, prefix);
    SidecarInDir(dir, n);
    StripPrefixInverse(n + MetadataSuffix, prefix);
    assert (n + MetadataSuffix)[|n|..] == MetadataSuffix;
    assert (n + MetadataSuffix)[..|n|] == n;
  }

  /** A path with an owner is that owner's path or its sidecar's. */
  lemma OwnedIsSlot(dir: string, q: string)
    requires Owner(dir, q).Some?
    ensures q == ImagePath(dir, Owner(dir, q).value) || q == MetadataPath(ImagePath(dir, Owner(dir, q).value))
  {
    var prefix := Normalize(dir) + "/";
    StripPrefixInverse(q, prefix);
    var rest := StripPrefix(q, prefix).value;
    if HasSuffix(rest, MetadataSuffix) {
      var o := rest[..|rest| - |MetadataSuffix|];
      assert rest == o + MetadataSuffix;
      SidecarInDir(dir, o);
    }
  }

  /** Two different images of one directory have disjoint slots. */
  lemma SlotsApart(dir: string, n: string, m: string)
    requires IsImageFile(n) && IsImageFile(m) && n != m
    ensures var p, r := ImagePath(dir, n), ImagePath(dir, m);
      p != r && p != MetadataPath(r) && MetadataPath(p) != r && MetadataPath(p) != MetadataPath(r)
  {
    var prefix := Normalize(dir) + "/";
    var p, r := ImagePath(dir, n), ImagePath(dir, m);
    JoinPathInjective(dir, n, m);
    MetadataPathInjective(p, r);
    SidecarInDir(dir, m);
    SidecarInDir(dir, n);
    JoinPathInjective(dir, n, m + MetadataSuffix);
    JoinPathInjective(dir, m, n + MetadataSuffix);
  }

  /** Whether an image is due depends on its slot alone. */
  lemma NeedsValidationLocal(f: Files, g: Files, imagePath: string, now: int)
    requires SlotAt(f, imagePath) == SlotAt(g, imagePath)
    ensures NeedsValidation(f, imagePath, now) == NeedsValidation(g, imagePath, now)
  {
    assert LoadCacheMetadata(f, imagePath) == LoadCacheMetadata(g, imagePath);
  }

  /**
   * Part way through a sweep of `dir` that began at `f0`: the images in `done`
   * have been visited, the others are as they were, and nothing outside the
   * listed images' slots has changed.
   */
  ghost predicate Partial(f0: Files, cur: Files, dir: string, images: set<string>, done: set<string>, now: int, fetchHead: string -> Head, resolve: string -> Option<string>) {
    && (forall n {:trigger SlotAt(cur, ImagePath(dir, n))} :: n in images ==>
          SlotAt(cur, ImagePath(dir, n)) ==
            if n in done then SlotAt(Visit(f0, ImagePath(dir, n), now, fetchHead, resolve).1, ImagePath(dir, n))
            else SlotAt(f0, ImagePath(dir, n)))
    && (forall q {:trigger Get(cur, q)} :: !InSlots(dir, images, q) ==> Get(cur, q) == Get(f0, q))
  }

  /** Visiting one more image extends the partial sweep, and reports what visiting it first would have. */
  lemma SweepStep(f0: Files, cur: Files, dir: string, images: set<string>, done: set<string>, n: string, now: int, fetchHead: string -> Head, resolve: string -> Option<string>)
    requires AllImages(images) && n in images && n !in done
    requires Partial(f0, cur, dir, images, done, now, fetchHead, resolve)
    ensures Visit(cur, ImagePath(dir, n), now, fetchHead, resolve).0 == Reports(f0, dir, images, now, fetchHead, resolve)[n]
    ensures Partial(f0, Visit(cur, ImagePath(dir, n), now, fetchHead, resolve).1, dir, images, done + {n}, now, fetchHead, resolve)
  {
    var p := ImagePath(dir, n);
    var next := Visit(cur, p, now, fetchHead, resolve).1;
    VisitLocal(cur, f0, p, now, fetchHead, resolve);
    forall m | m in images
      ensures SlotAt(next, ImagePath(dir, m)) ==
        if m in done + {n} then SlotAt(Visit(f0, ImagePath(dir, m), now, fetchHead, resolve).1, ImagePath(dir, m))
        else SlotAt(f0, ImagePath(dir, m))
    {
      if m != n {
        var r := ImagePath(dir, m);
        SlotsApart(dir, n, m);
        VisitFrame(cur, p, now, fetchHead, resolve, r);
        VisitFrame(cur, p, now, fetchHead, resolve, MetadataPath(r));
        assert SlotAt(next, r) == SlotAt(cur, r);
      }
    }
    forall q | !InSlots(dir, images, q)
      ensures Get(next, q) == Get(f0, q)
    {
      OwnerOfSlot(dir, n);
      VisitFrame(cur, p, now, fetchHead, resolve, q);
    }
  }

  /** A partial sweep that has visited every listed image is a whole one. */
  lemma PartialDone(f0: Files, cur: Files, dir: string, images: set<string>, done: set<string>, now: int, fetchHead: string -> Head, resolve: string -> Option<string>)
    requires images == ImageFiles(f0, dir) && done == images
    requires Partial(f0, cur, dir, images, done, now, fetchHead, resolve)
    ensures SweptDir(f0, cur, dir, now, fetchHead, resolve)
  {
  }

  /** Adding one name to those visited adds it to the tally of its own report only. */
  lemma TallyAdd(names: set<string>, n: string, report: map<string, Option<Action>>, a: Action)
    requires n !in names && n in report
    ensures |Tally(names + {n}, report, a)| == |Tally(names, report, a)| + if report[n] == Some(a) then 1 else 0
  {
    if report[n] == Some(a) {
      assert Tally(names + {n}, report, a) == Tally(names, report, a) + {n};
    } else {
      assert Tally(names + {n}, report, a) == Tally(names, report, a);
    }
  }

  /** The loop's counters, moved on by one visit, are the tallies of the names visited so far. */
  lemma CountStep(done: set<string>, n: string, report: map<string, Option<Action>>, action: Option<Action>, validated: nat, removed: nat)
    requires n !in done && n in report && action == report[n]
    requires validated == |Tally(done, report, Validated)| && removed == |Tally(done, report, Removed)|
    ensures (if action == Some(Validated) then validated + 1 else validated) == |Tally(done + {n}, report, Validated)|
    ensures (if action == Some(Removed) then removed + 1 else removed) == |Tally(done + {n}, report, Removed)|
  {
    TallyAdd(done, n, report, Validated);
    TallyAdd(done, n, report, Removed);
  }

  lemma FilesExtensional(a: Files, b: Files)
    requires forall q :: Get(a, q) == Get(b, q)
    ensures a == b
  {
    forall q | q in a ensures q in b && a[q] == b[q] {
      assert Get(a, q) == Get(b, q);
    }
    forall q | q in b ensures q in a {
      assert Get(a, q) == Get(b, q);
    }
  }

  /**
   * A sweep's result does not depend on the order the listing is visited in:
   * two results of sweeping the same directory from the same files are equal.
   */
  lemma SweptDirDeterministic(before: Files, a1: Files, a2: Files, dir: string, now: int, fetchHead: string -> Head, resolve: string -> Option<string>)
    requires SweptDir(before, a1, dir, now, fetchHead, resolve) && SweptDir(before, a2, dir, now, fetchHead, resolve)
    ensures a1 == a2
  {
    var images := ImageFiles(before, dir);
    forall q ensures Get(a1, q) == Get(a2, q) {
      if InSlots(dir, images, q) {
        var n := Owner(dir, q).value;
        OwnedIsSlot(dir, q);
        assert SlotAt(a1, ImagePath(dir, n)) == SlotAt(a2, ImagePath(dir, n));
      }
    }
    FilesExtensional(a1, a2);
  }

  /**
   * What a sweep leaves behind for each listed image: an evicted image and
   * its sidecar are gone; a validated image is still there and no longer due;
   * an image that was not due is untouched.
   */
  lemma SweptDirOutcome(before: Files, after: Files, dir: string, n: string, now: int, fetchHead: string -> Head, resolve: string -> Option<string>)
    requires SweptDir(before, after, dir, now, fetchHead, resolve) && n in ImageFiles(before, dir)
    ensures var p := ImagePath(dir, n);
      var a := Visit(before, p, now, fetchHead, resolve).0;
      && (a == Some(Removed) ==> p !in after && MetadataPath(p) !in after)
      && (a == Some(Validated) ==> p in after && !NeedsValidation(after, p, now))
      && (a == None <==> !NeedsValidation(before, p, now))
      && (a == None ==> SlotAt(after, p) == SlotAt(before, p))
  {
    var p := ImagePath(dir, n);
    var o := ValidateWith(before, p, resolve(p), now, fetchHead);
    var a := Visit(before, p, now, fetchHead, resolve).0;
    ListedImage(before, dir, n);
    assert SlotAt(after, p) == SlotAt(Visit(before, p, now, fetchHead, resolve).1, p);
    if a == Some(Removed) {
      EvictedIffETagChanged(before, p, resolve(p), now, fetchHead);
    } else if a == Some(Validated) {
      ValidatedNotDueUntilInterval(before, p, resolve(p), now, fetchHead, now);
      ValidationFrame(before, p, resolve(p), now, fetchHead);
      NeedsValidationLocal(after, o.files, p, now);
    }
  }

  /** A sweep counts each listed image at most once: validated plus removed never exceeds the listing. */
  lemma TallyBound(names: set<string>, report: map<string, Option<Action>>)
    ensures |Tally(names, report, Validated)| + |Tally(names, report, Removed)| <= |names|
  {
    var v, r := Tally(names, report, Validated), Tally(names, report, Removed);
    assert v * r == {};
    assert |v + r| == |v| + |r|;
    assert names == (v + r) + (names - (v + r));
    assert |names| == |v + r| + |names - (v + r)|;
  }

  /** Moving one name from the names still to visit to those visited keeps the two a partition of the listing. */
  lemma MoveOne(todo: set<string>, done: set<string>, all: set<string>, x: string)
    requires todo + done == all && todo !! done && x in todo
    ensures (todo - {x}) + (done + {x}) == all && (todo - {x}) !! (done + {x})
    ensures |todo - {x}| < |todo|
  {
  }

  // ---------------------------------------------------------------------
  // The validator

  /** The cache's files on disk, which the validator's methods change in place. */
  class Disk {
    var files: Files

    constructor (files: Files)
      ensures this.files == files
    {
      this.files := files;
    }

    /** `fs.writeFile(path, …)`: the file at `path` is created or replaced. */
    method WriteFile(path: string, f: File)
      modifies this
      ensures files == old(files)[path := f]
    {
      files := files[path := f];
    }

    /** `fs.unlink(path)`, with a missing file ignored as the validator's callers do. */
    method Unlink(path: string)
      modifies this
      ensures files == old(files) - {path}
    {
      files := files - {path};
    }
  }

  /** `CacheValidator`: its one field is the handle of the repeating sweep timer. */
  class CacheValidator {
    var validationTimer: Option<nat>

    constructor ()
      ensures validationTimer == None
    {
      validationTimer := None;
    }

    /** `start`: the repeating sweep is scheduled under `handle`. */
    method Start(handle: nat)
      modifies this
      ensures validationTimer == Some(handle)
    {
      validationTimer := Some(handle);
    }

    /** `stop`: the timer, if any, is cleared. */
    method Stop()
      modifies this
      ensures validationTimer == None
    {
      if validationTimer.Some? {
        validationTimer := None;
      }
    }

    /** `saveCacheMetadata`: a falsy ETag writes nothing; otherwise a fresh sidecar is written. */
    method SaveCacheMetadata(disk: Disk, imagePath: string, etag: Option<string>, now: int)
      modifies disk
      ensures disk.files == Saved(old(disk.files), imagePath, etag, now)
    {
      if !Truthy(etag) {
        return;
      }
      var metadataPath := imagePath + MetadataSuffix;
      var metadata := CacheMetadata(etag.value, now, now, now + CacheValidationInterval);
      disk.WriteFile(metadataPath, File(now, Some(metadata)));
    }

    /** `removeCachedImage`: the image, then its sidecar, is unlinked. */
    method RemoveCachedImage(disk: Disk, imagePath: string)
      modifies disk
      ensures disk.files == Evicted(old(disk.files), imagePath)
    {
      disk.Unlink(imagePath);
      disk.Unlink(imagePath + MetadataSuffix);
    }

    /** `validateSingleImage`, step by step, against its specification. */
    method ValidateSingleImage(disk: Disk, imagePath: string, now: int, fetchHead: string -> Head) returns (action: Action)
      modifies disk
      ensures Outcome(action, disk.files) == Validation(old(disk.files), imagePath, now, fetchHead)
    {
      var metadata := LoadCacheMetadata(disk.files, imagePath);
      var upstreamUrl := ResolveUpstreamUrl(imagePath);
      if upstreamUrl.None? {
        return Error;
      }
      var response := fetchHead(upstreamUrl.value);
      if response.Unreachable? {
        return Error;
      }
      var currentETag := response.etag;
      if !Truthy(currentETag) {
        if metadata.None? {
          SaveCacheMetadata(disk, imagePath, Some("no-etag"), now);
        } else {
          var m := metadata.value.(lastChecked := now, cacheExpiry := now + CacheValidationInterval);
          disk.WriteFile(imagePath + MetadataSuffix, File(now, Some(m)));
        }
        return Validated;
      }
      if metadata.None? {
        SaveCacheMetadata(disk, imagePath, currentETag, now);
        return Validated;
      }
      if currentETag.value != metadata.value.etag {
        RemoveCachedImage(disk, imagePath);
        return Removed;
      } else {
        var m := metadata.value.(lastChecked := now, cacheExpiry := now + CacheValidationInterval);
        disk.WriteFile(imagePath + MetadataSuffix, File(now, Some(m)));
        return Validated;
      }
    }

    /** One pass of the loop in `validateCacheDirectory`: the image is validated only when it is due. */
    method VisitImage(disk: Disk, imagePath: string, now: int, fetchHead: string -> Head) returns (action: Option<Action>)
      modifies disk
      ensures (action, disk.files) == Visit(old(disk.files), imagePath, now, fetchHead, ResolveUpstreamUrl)
    {
      if NeedsValidation(disk.files, imagePath, now) {
        var result := ValidateSingleImage(disk, imagePath, now, fetchHead);
        action := Some(result);
      } else {
        action := None;
      }
    }

    /**
     * `validateCacheDirectory`: every listed image that is due is validated;
     * the counts are of the validations that reported each action.
     */
    method ValidateCacheDirectory(disk: Disk, cacheDir: string, now: int, fetchHead: string -> Head)
      returns (validated: nat, removed: nat)
      modifies disk
      ensures SweptDir(old(disk.files), disk.files, cacheDir, now, fetchHead, ResolveUpstreamUrl)
      ensures validated == DirTally(old(disk.files), cacheDir, Validated, now, fetchHead, ResolveUpstreamUrl)
      ensures removed == DirTally(old(disk.files), cacheDir, Removed, now, fetchHead, ResolveUpstreamUrl)
    {
      ghost var f0 := disk.files;
      validated, removed := 0, 0;
      var imageFiles := ImageFiles(disk.files, cacheDir);
      ImageFilesAreImages(disk.files, cacheDir);
      var todo := imageFiles;
      ghost var done: set<string> := {};
      while todo != {}
        invariant todo + done == imageFiles && todo !! done
        invariant Partial(f0, disk.files, cacheDir, imageFiles, done, now, fetchHead, ResolveUpstreamUrl)
        invariant validated == |Tally(done, Reports(f0, cacheDir, imageFiles, now, fetchHead, ResolveUpstreamUrl), Validated)|
        invariant removed == |Tally(done, Reports(f0, cacheDir, imageFiles, now, fetchHead, ResolveUpstreamUrl), Removed)|
        decreases |todo|
      {
        var file :| file in todo;
        validated, removed := VisitListed(disk, cacheDir, file, now, fetchHead, validated, removed, f0, imageFiles, done);
        MoveOne(todo, done, imageFiles, file);
        todo := todo - {file};
        done := done + {file};
      }
      PartialDone(f0, disk.files, cacheDir, imageFiles, done, now, fetchHead, ResolveUpstreamUrl);
    }

    /**
     * One pass of the loop in `validateCacheDirectory`, as a step of the sweep
     * that began at `f0`: the image is validated when due, and the count of
     * the action it reports goes up by one.
     */
    method VisitListed(disk: Disk, cacheDir: string, file: string, now: int, fetchHead: string -> Head,
                       validated: nat, removed: nat,
                       ghost f0: Files, ghost images: set<string>, ghost done: set<string>)
      returns (validated': nat, removed': nat)
      requires AllImages(images) && file in images && file !in done
      requires Partial(f0, disk.files, cacheDir, images, done, now, fetchHead, ResolveUpstreamUrl)
      requires validated == |Tally(done, Reports(f0, cacheDir, images, now, fetchHead, ResolveUpstreamUrl), Validated)|
      requires removed == |Tally(done, Reports(f0, cacheDir, images, now, fetchHead, ResolveUpstreamUrl), Removed)|
      modifies disk
      ensures Partial(f0, disk.files, cacheDir, images, done + {file}, now, fetchHead, ResolveUpstreamUrl)
      ensures validated' == |Tally(done + {file}, Reports(f0, cacheDir, images, now, fetchHead, ResolveUpstreamUrl), Validated)|
      ensures removed' == |Tally(done + {file}, Reports(f0, cacheDir, images, now, fetchHead, ResolveUpstreamUrl), Removed)|
    {
      ghost var report := Reports(f0, cacheDir, images, now, fetchHead, ResolveUpstreamUrl);
      var imagePath := ImagePath(cacheDir, file);
      SweepStep(f0, disk.files, cacheDir, images, done, file, now, fetchHead, ResolveUpstreamUrl);
      var action := VisitImage(disk, imagePath, now, fetchHead);
      CountStep(done, file, report, action, validated, removed);
      validated', removed' := Count(action, validated, removed);
    }

    /** The counters in `validateCacheDirectory`: a validation bumps the one named by its action. */
    static method Count(action: Option<Action>, validated: nat, removed: nat) returns (validated': nat, removed': nat)
      ensures validated' == if action == Some(Validated) then validated + 1 else validated
      ensures removed' == if action == Some(Removed) then removed + 1 else removed
    {
      validated', removed' := validated, removed;
      if action == Some(Validated) {
        validated' := validated + 1;
      } else if action == Some(Removed) {
        removed' := removed + 1;
      }
    }

    /**
     * `validateAllCaches`: the three cache directories are swept in turn,
     * each from the files the previous sweep left, and the counts summed.
     */
    method ValidateAllCaches(disk: Disk, now: int, fetchHead: string -> Head)
      returns (validatedCount: nat, removedCount: nat, ghost stages: seq<Files>, ghost validatedByDir: seq<nat>, ghost removedByDir: seq<nat>)
      modifies disk
      ensures |stages| == |CacheDirs| + 1 && stages[0] == old(disk.files) && stages[|CacheDirs|] == disk.files
      ensures SweptUpTo(stages, validatedByDir, removedByDir, |CacheDirs|, now, fetchHead)
      ensures validatedCount == Sum(validatedByDir) && removedCount == Sum(removedByDir)
    {
      validatedCount, removedCount := 0, 0;
      stages, validatedByDir, removedByDir := [disk.files], [], [];
      var cacheDirs := CacheDirs;
      for i := 0 to |cacheDirs|
        invariant |stages| == i + 1 && stages[0] == old(disk.files) && stages[i] == disk.files
        invariant SweptUpTo(stages, validatedByDir, removedByDir, i, now, fetchHead)
        invariant validatedCount == Sum(validatedByDir) && removedCount == Sum(removedByDir)
      {
        var validated, removed := ValidateCacheDirectory(disk, cacheDirs[i], now, fetchHead);
        SweptUpToStep(stages, validatedByDir, removedByDir, i, disk.files, validated, removed, now, fetchHead);
        SumSnoc(validatedByDir, validated);
        SumSnoc(removedByDir, removed);
        validatedCount := validatedCount + validated;
        removedCount := removedCount + removed;
        stages := stages + [disk.files];
        validatedByDir := validatedByDir + [validated];
        removedByDir := removedByDir + [removed];
      }
    }
  }

  /**
   * The first `n` cache directories have been swept in turn: sweep `k` took
   * `stages[k]` to `stages[k + 1]`, and its counts are the tallies of what
   * each of its images reported.
   */
  ghost predicate SweptUpTo(stages: seq<Files>, validatedByDir: seq<nat>, removedByDir: seq<nat>, n: nat, now: int, fetchHead: string -> Head) {
    && n <= |CacheDirs| && |stages| == n + 1 && |validatedByDir| == |removedByDir| == n
    && forall k :: 0 <= k < n ==>
      && SweptDir(stages[k], stages[k + 1], CacheDirs[k], now, fetchHead, ResolveUpstreamUrl)
      && validatedByDir[k] == DirTally(stages[k], CacheDirs[k], Validated, now, fetchHead, ResolveUpstreamUrl)
      && removedByDir[k] == DirTally(stages[k], CacheDirs[k], Removed, now, fetchHead, ResolveUpstreamUrl)
  }

  lemma SweptUpToStep(stages: seq<Files>, validatedByDir: seq<nat>, removedByDir: seq<nat>, n: nat, next: Files, validated: nat, removed: nat, now: int, fetchHead: string -> Head)
    requires SweptUpTo(stages, validatedByDir, removedByDir, n, now, fetchHead) && n < |CacheDirs|
    requires SweptDir(stages[n], next, CacheDirs[n], now, fetchHead, ResolveUpstreamUrl)
    requires validated == DirTally(stages[n], CacheDirs[n], Validated, now, fetchHead, ResolveUpstreamUrl)
    requires removed == DirTally(stages[n], CacheDirs[n], Removed, now, fetchHead, ResolveUpstreamUrl)
    ensures SweptUpTo(stages + [next], validatedByDir + [validated], removedByDir + [removed], n + 1, now, fetchHead)
  {
    var s, v, r := stages + [next], validatedByDir + [validated], removedByDir + [removed];
    forall k | 0 <= k < n + 1
      ensures && SweptDir(s[k], s[k + 1], CacheDirs[k], now, fetchHead, ResolveUpstreamUrl)
              && v[k] == DirTally(s[k], CacheDirs[k], Validated, now, fetchHead, ResolveUpstreamUrl)
              && r[k] == DirTally(s[k], CacheDirs[k], Removed, now, fetchHead, ResolveUpstreamUrl)
    {
      assert s[k] == stages[k] && s[k + 1] == if k < n then stages[k + 1] else next;
      if k < n {
        assert v[k] == validatedByDir[k] && r[k] == removedByDir[k];
      }
    }
  }

  /** The images of `dir` that sweeping it from `before` reports as `a`. */
  function DirTally(before: Files, dir: string, a: Action, now: int, fetchHead: string -> Head, resolve: string -> Option<string>): nat {
    var images := ImageFiles(before, dir);
    |Tally(images, Reports(before, dir, images, now, fetchHead, resolve), a)|
  }

  /**
   * A sweep of `dir` validates and removes, together, at most as many images
   * as the directory lists; errors are counted in neither.
   */
  lemma DirTallyBound(before: Files, dir: string, now: int, fetchHead: string -> Head, resolve: string -> Option<string>)
    ensures DirTally(before, dir, Validated, now, fetchHead, resolve) + DirTally(before, dir, Removed, now, fetchHead, resolve)
      <= |ImageFiles(before, dir)|
  {
    var images := ImageFiles(before, dir);
    TallyBound(images, Reports(before, dir, images, now, fetchHead, resolve));
  }

  /** The sum of a sequence of counts. */
  function Sum(s: seq<nat>): nat {
    if s == [] then 0 else Sum(s[..|s| - 1]) + s[|s| - 1]
  }

  lemma SumSnoc(s: seq<nat>, x: nat)
    ensures Sum(s + [x]) == Sum(s) + x
  {
    assert (s + [x])[..|s|] == s;
  }
}
