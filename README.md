# Image proxy cache bookkeeping, in Dafny

This project models the bookkeeping around an image proxy for the EVE Online
image server. The proxy caches portraits and logos on disk and revalidates
them in the background. Everything that is not image processing is modelled:

- **Cache keys** (`CacheUtils`, with `KeyOrder` and `UriEncoding`). A request's
  query is canonicalised by sorting its keys in UTF-16 code-unit order. Each
  `key=value` pair is percent-encoded as `encodeURIComponent` does (UTF-8
  bytes, upper-case hex), and the pairs are joined with `&`. The result is
  folded into the cache filename `{base}/{id}[-{q}].{ext}`.
- **Cache validation** (`CacheValidation`, with `UpstreamUrl` and `Upstream`).
  Each cached image has a sidecar `{image}.meta.json` holding the upstream ETag
  and the time the entry falls due.
  - The sweep walks `./cache/characters`, `./cache/corporations` and
    `./cache/alliances`.
  - For every due image it maps the file name back to the upstream URL and
    asks upstream for the current ETag. The model's sweep uses the corrected
    lookup, which tests the swept path as a rooted path (see Findings).
  - It then refreshes the sidecar, adopts the upstream ETag, or evicts the
    image together with its sidecar, and counts the validated and removed
    entries.
  - The file system is a `map` from path strings to files, held by a `Disk`
    object that the validator's methods change in place. Keys are the strings
    as given, with no normalisation.
  - The clock is a parameter `now`. The upstream server's answer to a `HEAD`
    request is a function parameter `fetchHead`.
- **Archived portraits** (`CharacterUtils`). The archive lookup works through a
  priority cascade over four candidate files. A JPEG asked for as WebP is
  converted, and the conversion is stored next to it. The module also keeps
  the placeholder portrait's ETag.
- **Image transforms** (`ResizeImage`, `OverlayImage`, `Sharp`, `Buffers`).
  - Resizing only ever shrinks.
  - The overlay badge's side is a quarter of the base width, never below 16.
  - A missing overlay file leaves the base unchanged.
  - The image library (`sharp`) is a record of uninterpreted function values.
    The properties the callers rely on are predicates over those functions.
- **Folder statistics** (`FolderStats`). A recursive walk counts the files and
  bytes under each cache folder, and the byte total is rounded to kilobytes.
  A flag keeps runs from overlapping. The table is replaced in one step and
  read back as a copy.

Each operation that works step by step in the program is a method. The
validator's sidecar writes, its sweep loops, the archive lookup, the
statistics walk and the statistics cache are all methods. Each is proved
against a function that specifies it, and the properties are lemmas about
those functions.

## Model

| member | source | states |
|---|---|---|
| CacheUtils.Segment | server/utils/cacheUtils.ts:3 | one encoded `key=value` pair holds exactly the characters a canonical query may hold, contains `=` and never `&` |
| CacheUtils.Segments | server/utils/cacheUtils.ts:3 | one segment per sorted key, in key order, each encoding that key's value |
| CacheUtils.CanonicalQuery | server/utils/cacheUtils.ts:1-4 | the canonical query is empty exactly when the query has no keys, and it is written only in unreserved characters, `%`, `=` and `&` |
| CacheUtils.GetCacheFilename | server/utils/cacheUtils.ts:6-9 | an empty query gives `{base}/{id}.{ext}`; otherwise `{base}/{id}-{canonical query}.{ext}` |
| CacheUtils.Join | server/utils/cacheUtils.ts:3 | `.join('&')`; its properties are stated by `JoinNonEmpty`, `JoinQueryText` and `SplitJoin` |
| CacheUtils.SortedKeysHaveValues | server/utils/cacheUtils.ts:2-3 | every sorted key has a value in the query |
| CacheUtils.EncodedLacks | server/utils/cacheUtils.ts:3 | an encoded string contains no reserved character other than `%`, so no `&`, `=` or `/` |
| CacheUtils.JoinNonEmpty | server/utils/cacheUtils.ts:3 | joining at least one segment gives a non-empty string |
| CacheUtils.JoinQueryText | server/utils/cacheUtils.ts:3 | joining canonical segments with `&` stays within the canonical alphabet |
| CacheUtils.SplitJoin | server/utils/cacheUtils.ts:3 | splitting the `&`-join of segments without `&` gives the segments back |
| CacheUtils.ParseSegmentOfSegment | server/utils/cacheUtils.ts:3 | cutting a segment at its first `=` and decoding both halves gives back the key and the value |
| CacheUtils.ParseSegmentsOfSegments | server/utils/cacheUtils.ts:3 | every segment parses back to its own key/value pair, in order |
| CacheUtils.CanonicalQueryParses | server/utils/cacheUtils.ts:1-4 | splitting a canonical query on `&` and then on the first `=` recovers every key once, in ascending order, each with its own value |
| CacheUtils.CanonicalQueryIffSameValues | server/utils/cacheUtils.ts:1-4 | two queries canonicalise to the same string exactly when they hold the same key/value pairs, whatever the key insertion order |
| CacheUtils.EmptyQueryFilename | server/utils/cacheUtils.ts:6-9 | an empty query canonicalises to `""` and its filename has no dash |
| CacheUtils.FilenameParts | server/utils/cacheUtils.ts:6-9 | the filename is the base path, `/`, then the id, the dash and query only when the query is non-empty, and the extension |
| KeyOrder.Less | server/utils/cacheUtils.ts:2 | the default `sort` comparison, UTF-16 code units compared in order; `LessIsStrictTotalOrder` and `LessAsymmetric` state what it is |
| KeyOrder.CodeUnits | server/utils/cacheUtils.ts:2 | a character is one UTF-16 code unit or a surrogate pair |
| KeyOrder.CodeUnitsPrefixFree | server/utils/cacheUtils.ts:2 | the UTF-16 encoding of one character is never a prefix of another character's encoding |
| KeyOrder.Utf16Injective | server/utils/cacheUtils.ts:2 | different strings have different UTF-16 encodings |
| KeyOrder.BelowIrreflexive | server/utils/cacheUtils.ts:2 | no code-unit sequence sorts before itself |
| KeyOrder.BelowTransitive | server/utils/cacheUtils.ts:2 | the code-unit order is transitive |
| KeyOrder.BelowTotal | server/utils/cacheUtils.ts:2 | of two different code-unit sequences one sorts before the other |
| KeyOrder.LessIsStrictTotalOrder | server/utils/cacheUtils.ts:2 | the default `sort` order on strings is irreflexive, transitive and total |
| KeyOrder.LessAsymmetric | server/utils/cacheUtils.ts:2 | two strings never sort before each other |
| KeyOrder.Insert | server/utils/cacheUtils.ts:2 | inserting a key adds exactly one element |
| KeyOrder.Sort | server/utils/cacheUtils.ts:2 | sorting keeps the number of keys |
| KeyOrder.InsertMultiset | server/utils/cacheUtils.ts:2 | insertion adds exactly the inserted key |
| KeyOrder.HeadBelowInsert | server/utils/cacheUtils.ts:2 | the least key still sorts before everything after an insertion into the tail |
| KeyOrder.InsertKeeps | server/utils/cacheUtils.ts:2 | inserting a new key into an ascending sequence keeps it ascending and adds exactly that key |
| KeyOrder.SortIsAscendingPermutation | server/utils/cacheUtils.ts:2 | `Object.keys(query).sort()` lists the keys in strictly ascending order, each exactly once |
| KeyOrder.AscendingTail | server/utils/cacheUtils.ts:2 | the tail of an ascending sequence is ascending |
| KeyOrder.MultisetTail | server/utils/cacheUtils.ts:2 | dropping the first key removes exactly that key |
| KeyOrder.AscendingSameHead | server/utils/cacheUtils.ts:2 | two ascending sequences of the same keys start with the same key |
| KeyOrder.AscendingIsUnique | server/utils/cacheUtils.ts:2 | two ascending sequences of the same keys are equal |
| KeyOrder.SortIgnoresOrder | server/utils/cacheUtils.ts:2 | two enumerations of the same keys sort to the same sequence |
| UriEncoding.Utf8 | server/utils/cacheUtils.ts:3 | a character's UTF-8 encoding is one to four bytes |
| UriEncoding.Utf8RoundTrip | server/utils/cacheUtils.ts:3 | the UTF-8 encoding of a character announces its own length, uses continuation bytes after the first and decodes back to the character |
| UriEncoding.TwoByteValue | server/utils/cacheUtils.ts:3 | a two-byte code point is rebuilt from its 5-bit and 6-bit parts |
| UriEncoding.ThreeByteValue | server/utils/cacheUtils.ts:3 | a three-byte code point is rebuilt from its 4-, 6- and 6-bit parts |
| UriEncoding.FourByteValue | server/utils/cacheUtils.ts:3 | a four-byte code point is rebuilt from its 3-, 6-, 6- and 6-bit parts |
| UriEncoding.SplitDiv64 | server/utils/cacheUtils.ts:3 | the 6-bit groups of a code point compose as expected |
| UriEncoding.HexDigit | server/utils/cacheUtils.ts:3 | a hex digit is an unreserved character |
| UriEncoding.HexDigitValue | server/utils/cacheUtils.ts:3 | a hex digit reads back as its value |
| UriEncoding.Triple | server/utils/cacheUtils.ts:3 | a byte is encoded as three characters starting with `%` |
| UriEncoding.Triples | server/utils/cacheUtils.ts:3 | n bytes are encoded as 3n characters, all unreserved or `%` |
| UriEncoding.ReadTripleOfTriple | server/utils/cacheUtils.ts:3 | a `%XY` triple reads back as its byte |
| UriEncoding.ReadTriplesOfTriples | server/utils/cacheUtils.ts:3 | the triples of a byte sequence read back as that sequence |
| UriEncoding.EncodeChar | server/utils/cacheUtils.ts:3 | each character is encoded as a non-empty string of unreserved characters and `%` |
| UriEncoding.Encode | server/utils/cacheUtils.ts:3 | `encodeURIComponent` output holds only unreserved characters and `%`, and is never shorter than its input |
| UriEncoding.DecodeTriplesOfChar | server/utils/cacheUtils.ts:3 | the triples of a reserved character decode back to that character and take 3 characters per byte |
| UriEncoding.DecodeEncodeChar | server/utils/cacheUtils.ts:3 | decoding an encoded character followed by any text gives the character followed by that text's decoding |
| UriEncoding.DecodeEncode | server/utils/cacheUtils.ts:3 | `decodeURIComponent(encodeURIComponent(s)) == s` |
| UriEncoding.OverlongRefused | server/utils/cacheUtils.ts:3 | the decoder refuses an overlong UTF-8 form such as `%C0%AF`, as `decodeURIComponent` does |
| UriEncoding.EncodeInjective | server/utils/cacheUtils.ts:3 | different strings have different encodings |
| UpstreamUrl.Normalize | server/utils/cacheValidator.ts:148 | `path.join` drops the leading `./` of the directory and keeps the rest |
| UpstreamUrl.ToSlashes | server/utils/cacheValidator.ts:240 | every backslash becomes `/` and every other character stays |
| UpstreamUrl.LastSegment | server/utils/cacheValidator.ts:241 | the basename holds no `/` and ends the path |
| UpstreamUrl.DigitRun | server/utils/cacheValidator.ts:245 | `(\d+)` takes the longest run of leading digits |
| UpstreamUrl.ExtensionOf | server/utils/cacheValidator.ts:245 | an accepted extension ends the name after a dot |
| UpstreamUrl.MatchDash | server/utils/cacheValidator.ts:245 | `(?:-(.+?))?` matches the empty text or a dash followed by non-empty, single-line parameters |
| UpstreamUrl.BaseName | server/utils/cacheValidator.ts:241 | `path.basename`; `LastSegment` and `BaseNameOf` state what it gives |
| UpstreamUrl.MatchCacheName | server/utils/cacheValidator.ts:245 | the file-name pattern (digits, optional `-` parameters, an image extension); `MatchCacheNameSound` and `MatchCacheNameComplete` state what it accepts and captures |
| UpstreamUrl.MatchCacheNameSound | server/utils/cacheValidator.ts:245-249 | a matching file name is `{digits}[-{params}].{ext}` and the captures are exactly its id and parameters |
| UpstreamUrl.MatchCacheNameComplete | server/utils/cacheValidator.ts:245-249 | every name `{digits}[-{params}].{ext}` matches, with exactly those captures |
| UpstreamUrl.GetUpstreamUrl | server/utils/cacheValidator.ts:239-260 | a URL is found exactly when the basename matches the pattern and the path contains one of `/cache/characters/`, `/cache/corporations/` or `/cache/alliances/`; it is the endpoint of the first of those the path contains, with the captured id |
| UpstreamUrl.PickEndpoint | server/utils/cacheValidator.ts:251-257 | an endpoint is picked exactly when the path contains one of the three directory tests, and it is the endpoint of the first test the path contains |
| UpstreamUrl.JoinPath | server/utils/cacheValidator.ts:148 | `path.join(dir, name)`; `SweptPathLayout` and `JoinPathInjective` state its layout and injectivity |
| UpstreamUrl.ResolveUpstreamUrl | server/utils/cacheValidator.ts:239-260 | the corrected lookup, `getUpstreamUrl` of the rooted path; `ResolveUpstreamUrlOfSweptPath` states what it gives for swept paths |
| UpstreamUrl.NormalizedCacheDir | server/utils/cacheValidator.ts:113-117 | each swept directory normalises to `cache/{kind}` |
| UpstreamUrl.SweptPathLayout | server/utils/cacheValidator.ts:148 | the path the sweep builds is `cache/{kind}/{name}`, with no leading `./` or `/` |
| UpstreamUrl.BaseNameOf | server/utils/cacheValidator.ts:241 | the basename of `{dir}/{name}` is the name |
| UpstreamUrl.IncludesBeforeName | server/utils/cacheValidator.ts:251-256 | a directory test ending in `/` cannot straddle into a file name |
| UpstreamUrl.AsWrittenFrontLacksTest | server/utils/cacheValidator.ts:251-256 | no directory test occurs in the directory part of a swept path |
| UpstreamUrl.GetUpstreamUrlMissesSweptPaths | server/utils/cacheValidator.ts:239-260 | as written, no path the sweep builds has an upstream URL |
| UpstreamUrl.DirTestsDistinct | server/utils/cacheValidator.ts:251-256 | no directory test contains an earlier one, so the first test passed names the directory |
| UpstreamUrl.RootedSweptPath | server/utils/cacheValidator.ts:240-241 | rooted, a swept path is the directory test followed by the name, and its basename is the name |
| UpstreamUrl.PickEndpointOf | server/utils/cacheValidator.ts:251-257 | a name under its own directory's test picks that directory's endpoint |
| UpstreamUrl.ResolveUpstreamUrlOfSweptPath | server/utils/cacheValidator.ts:251-257 | looked up as a rooted path, a swept image of a matching name gets its directory's endpoint with the name's id; a name that does not match gets none |
| UpstreamUrl.NoSlashInName | server/utils/cacheUtils.ts:8 | a cache file name holds no `/` |
| UpstreamUrl.CacheFilenameRoundTrip | server/utils/cacheValidator.ts:244-249 | the pattern matches the basename of every `getCacheFilename` output for an all-digit id and an accepted extension, and captures the id and the canonical query |
| CacheValidation.LoadCacheMetadata | server/utils/cacheValidator.ts:72-81 | the parsed sidecar when `{image}.meta.json` exists and parses, none when it is missing or does not parse |
| CacheValidation.NeedsValidation | server/utils/cacheValidator.ts:86-102 | with a sidecar, due exactly when now is past its expiry; without one, due exactly when the image exists and is older than 24 hours |
| CacheValidation.Saved | server/utils/cacheValidator.ts:51-67 | the files after `saveCacheMetadata`; `SavedReadsBack` states what it writes and what it keeps |
| CacheValidation.Evicted | server/utils/cacheValidator.ts:222-234 | the files after `removeCachedImage`; `EvictedIffETagChanged` and `ValidationFrame` state what it removes |
| CacheValidation.ValidateWith | server/utils/cacheValidator.ts:169-217 | `validateSingleImage` once the URL is known; `ValidationFrame`, `ErrorChangesNothing`, `EvictedIffETagChanged`, `ValidatedRefreshes` and `ValidateWithLocal` state its outcomes |
| CacheValidation.Validation | server/utils/cacheValidator.ts:169-217 | `validateSingleImage` with the corrected lookup; `AsWrittenValidationIsInert` states the as-written lookup's outcome |
| CacheValidation.MetadataPathDiffers | server/utils/cacheValidator.ts:54 | a sidecar's path is never its image's path |
| CacheValidation.SavedReadsBack | server/utils/cacheValidator.ts:51-67 | a falsy ETag writes nothing; otherwise the sidecar reads back with that ETag, checked now and due one interval later, and no other file changes |
| CacheValidation.ValidationFrame | server/utils/cacheValidator.ts:169-217 | validation changes only the image's sidecar, and the image itself only when it evicts |
| CacheValidation.ErrorChangesNothing | server/utils/cacheValidator.ts:172-176 | no upstream URL is an error, and an error changes no file |
| CacheValidation.EvictedIffETagChanged | server/utils/cacheValidator.ts:194-205 | an entry is removed exactly when upstream sends an ETag that differs from the stored one; afterwards neither the image nor its sidecar exists |
| CacheValidation.ValidatedRefreshes | server/utils/cacheValidator.ts:182-212 | a validated entry keeps its image; its sidecar is checked now and due one interval later, and keeps the stored ETag, else the upstream one, else `no-etag` |
| CacheValidation.DueStaysDue | server/utils/cacheValidator.ts:86-102 | an entry that is due stays due as time passes |
| CacheValidation.ValidatedNotDueUntilInterval | server/utils/cacheValidator.ts:206-211 | a validated entry is due again exactly when a full interval has passed, and a refreshed expiry moves strictly forward |
| CacheValidation.AsWrittenValidationIsInert | server/utils/cacheValidator.ts:169-176 | as written, validating any swept path is an error that changes no file |
| CacheValidation.StripPrefixInverse | server/utils/cacheValidator.ts:141 | a stripped prefix put back gives the path |
| CacheValidation.StripPrefixOfJoin | server/utils/cacheValidator.ts:148 | stripping the directory from a joined path gives the name |
| CacheValidation.ImagePath | server/utils/cacheValidator.ts:148 | the image path is `path.join(dir, name)`, and the directory listing gives the name back |
| CacheValidation.ListedImage | server/utils/cacheValidator.ts:141-145 | a listed image is a plain name whose file exists, and its sidecar is never listed as an image |
| CacheValidation.ListDir | server/utils/cacheValidator.ts:141 | `fs.readdir(dir)`: the names directly under the directory; `StripPrefixOfJoin` and `ImagePath` state how names and paths correspond |
| CacheValidation.IsImageFile | server/utils/cacheValidator.ts:142-145 | the filter: an image extension and not a sidecar |
| CacheValidation.ImageFiles | server/utils/cacheValidator.ts:141-145 | the listed names that pass the filter; `ImageFilesAreImages` and `ListedImage` state what they are |
| CacheValidation.ImageFilesAreImages | server/utils/cacheValidator.ts:142-145 | every name the filter keeps has an image extension and is not a sidecar |
| CacheValidation.ValidateWithLocal | server/utils/cacheValidator.ts:169-217 | validation decides from the image and its sidecar alone |
| CacheValidation.NeedsValidationLocal | server/utils/cacheValidator.ts:86-102 | the due test reads only the image and its sidecar |
| CacheValidation.Visit | server/utils/cacheValidator.ts:150-157 | one loop pass: validate when due, else skip; `VisitLocal` and `VisitFrame` state what it reads and changes |
| CacheValidation.VisitLocal | server/utils/cacheValidator.ts:150-157 | visiting an image decides from its own files alone |
| CacheValidation.VisitFrame | server/utils/cacheValidator.ts:150-157 | visiting an image changes no file outside its image and sidecar |
| CacheValidation.JoinPathInjective | server/utils/cacheValidator.ts:148 | different names in a directory have different paths |
| CacheValidation.SlotsApart | server/utils/cacheValidator.ts:147-158 | two listed images never share an image or sidecar path |
| CacheValidation.SweepStep | server/utils/cacheValidator.ts:147-158 | visiting the next image during a sweep reports what visiting it alone would report, and extends the sweep by that image |
| CacheValidation.PartialDone | server/utils/cacheValidator.ts:147-158 | once every listed image has been visited, the directory has been swept |
| CacheValidation.TallyAdd | server/utils/cacheValidator.ts:152-156 | visiting one more image adds one to the tally of its action |
| CacheValidation.CountStep | server/utils/cacheValidator.ts:152-156 | the counters follow the tallies: the action reported bumps its own counter and an error bumps neither |
| CacheValidation.SweptDirDeterministic | server/utils/cacheValidator.ts:147-158 | a sweep's result does not depend on the order the listing is visited in |
| CacheValidation.SweptDirOutcome | server/utils/cacheValidator.ts:147-158 | after a sweep an evicted image and its sidecar are gone, a validated one is still there and no longer due, and one that was not due is untouched |
| CacheValidation.TallyBound | server/utils/cacheValidator.ts:150-157 | validated plus removed never exceeds the number of images visited |
| CacheValidation.DirTallyBound | server/utils/cacheValidator.ts:136-164 | a directory sweep validates plus removes at most as many images as it lists |
| CacheValidation.SweptUpToStep | server/utils/cacheValidator.ts:119-127 | sweeping one more directory extends the record of the sweeps so far |
| CacheValidation.SumSnoc | server/utils/cacheValidator.ts:122-123 | adding a directory's count adds it to the total |
| CacheValidation.Disk.WriteFile | server/utils/cacheValidator.ts:63 | `fs.writeFile` creates or replaces exactly one file |
| CacheValidation.Disk.Unlink | server/utils/cacheValidator.ts:224 | `fs.unlink` removes exactly one file, and a missing file is ignored |
| CacheValidation.CacheValidator.constructor | server/utils/cacheValidator.ts:15 | a new validator has no timer |
| CacheValidation.CacheValidator.Start | server/utils/cacheValidator.ts:31-35 | `start` records the repeating timer |
| CacheValidation.CacheValidator.Stop | server/utils/cacheValidator.ts:41-46 | after `stop` there is no timer |
| CacheValidation.CacheValidator.SaveCacheMetadata | server/utils/cacheValidator.ts:51-67 | the disk afterwards is the specified save: nothing for a falsy ETag, else a fresh sidecar |
| CacheValidation.CacheValidator.RemoveCachedImage | server/utils/cacheValidator.ts:222-234 | the image and its sidecar are gone and nothing else changes |
| CacheValidation.CacheValidator.ValidateSingleImage | server/utils/cacheValidator.ts:169-217 | the action and the disk afterwards are the specified validation of the image, with the corrected lookup |
| CacheValidation.CacheValidator.VisitImage | server/utils/cacheValidator.ts:150-157 | an image is validated only when it is due, and otherwise nothing changes, with the corrected lookup |
| CacheValidation.CacheValidator.ValidateCacheDirectory | server/utils/cacheValidator.ts:136-164 | the disk afterwards is the directory swept, each listed image as if visited alone and every other file unchanged; the counts are the number of images reporting each action, with the corrected lookup |
| CacheValidation.CacheValidator.VisitListed | server/utils/cacheValidator.ts:148-157 | one loop pass extends the sweep by one image and keeps the counters equal to the tallies, with the corrected lookup |
| CacheValidation.CacheValidator.Count | server/utils/cacheValidator.ts:152-156 | `validated` goes up for a validation, `removed` for a removal, and neither for an error or a skipped image |
| CacheValidation.CacheValidator.ValidateAllCaches | server/utils/cacheValidator.ts:107-131 | the three directories are swept in turn, each from the files the previous sweep left, and the totals are the sums of the per-directory counts, with the corrected lookup |
| CharacterUtils.Candidates | server/utils/characterUtils.ts:33-59 | the files the cascade tries, in order; `SelectIsFirstExisting` relates them to the cascade |
| CharacterUtils.Select | server/utils/characterUtils.ts:33-59 | the if/else cascade; `SelectIsFirstExisting` states that it picks the first existing candidate and when it converts |
| CharacterUtils.FirstExisting | server/utils/characterUtils.ts:33-59 | the first existing path among the candidates, or none when none exists |
| CharacterUtils.SelectIsFirstExisting | server/utils/characterUtils.ts:33-59 | the cascade picks the first existing candidate; conversion is needed exactly when WebP was asked for and a JPEG was picked; without WebP no `.webp` file is picked |
| CharacterUtils.OldCharacterImage | server/utils/characterUtils.ts:22-80 | nothing found is `{false, null, null}` and writes nothing; a found image is the first existing candidate: its own bytes and path when no conversion is needed, else its WebP conversion with path `{id}_256.webp`; the only write is the WebP conversion of a JPEG to `{id}_256.webp` or `missing_256.webp`, and the path returned is then `{id}_256.webp` |
| CharacterUtils.ConversionIsStored | server/utils/characterUtils.ts:70-77 | after a lookup converted `{id}_256.jpg`, a second WebP lookup returns the stored conversion and writes nothing |
| CharacterUtils.JpegLookupWritesNothing | server/utils/characterUtils.ts:52-59 | a lookup that does not ask for WebP writes no file |
| CharacterUtils.PortraitArchive.GetOldCharacterImage | server/utils/characterUtils.ts:22-80 | the result and the files afterwards are the specified lookup |
| CharacterUtils.DefaultPortrait.constructor | server/utils/characterUtils.ts:4 | no placeholder ETag is known at first |
| CharacterUtils.DefaultPortrait.InitDefaultCharacterETag | server/utils/characterUtils.ts:6-16 | the placeholder's `ETag` header is stored (none when absent), and a failed request keeps the old value |
| CharacterUtils.DefaultPortrait.GetDefaultCharacterETag | server/utils/characterUtils.ts:18-20 | the stored placeholder ETag |
| Buffers.ArraySlice | server/utils/resizeImage.ts:13-16 | `ArrayBuffer.slice` within bounds is the sub-range, and empty when the end is not after the start |
| Buffers.Detach | server/utils/resizeImage.ts:13-16 | the bytes a Node buffer views: `byteLength` bytes from `byteOffset` |
| Sharp.ConvertToWebp | server/utils/convertToWebp.ts:3-11 | the WebP encoding has the length of the library's output buffer |
| ResizeImage.SourceWidth | server/utils/resizeImage.ts:7 | `metadata.width`, or `size`: the reported width, or `size` when it is missing or zero |
| ResizeImage.Resize | server/utils/resizeImage.ts:3-17 | an image no wider than `size` comes back unchanged; a wider one is resized into a `size` x `size` box with `fit: inside` and its bytes are the output buffer's view |
| ResizeImage.UnknownWidthUnchanged | server/utils/resizeImage.ts:7-11 | an image of unknown or zero width is never resized |
| ResizeImage.ResizeIdempotent | server/utils/resizeImage.ts:3-17 | resizing twice to the same box is resizing once |
| OverlayImage.BaseWidth | server/utils/overlayImage.ts:21 | `metadata.width`, falling back to 64: positive; the reported width when it is non-zero, and 64 when it is missing or zero |
| OverlayImage.OverlaySide | server/utils/overlayImage.ts:24 | the side is at least 16, and otherwise a quarter of the base width rounded down |
| OverlayImage.OverlaySideMonotone | server/utils/overlayImage.ts:24 | a wider base never gets a smaller overlay |
| OverlayImage.QuarterFromDefaultWidth | server/utils/overlayImage.ts:24 | from 64 pixels up, `4*side <= baseWidth < 4*(side+1)` |
| OverlayImage.DefaultWidthSide | server/utils/overlayImage.ts:21-24 | a base of unknown or zero width gets a 16-pixel overlay |
| OverlayImage.ApplyOverlay | server/utils/overlayImage.ts:7-47 | a missing overlay returns the base unchanged; otherwise the overlay is stretched to a side x side square, encoded as PNG, composited at top 0, left 0, and the output's whole backing store is returned |
| OverlayImage.WholeBufferIsView | server/utils/overlayImage.ts:46 | when the output covers its backing store, returning the backing store is returning the view |
| FolderStats.WalkDir | server/utils/folderStats.ts:35-47 | `walk(dir)`; a path that is not a directory fails at `readdir` |
| FolderStats.WalkEntries | server/utils/folderStats.ts:37-46 | the loop of `walk` over a listing, stopping at the first failure |
| FolderStats.WalkEntry | server/utils/folderStats.ts:35-47 | one entry: recurse, stat or skip; `WalkCountsEveryFile`, `FailureIsFinal` and `WalkStopsAtFailure` state what the walk adds |
| FolderStats.WalkCountsEveryFile | server/utils/folderStats.ts:35-47 | a walk over a tree that can be read completely adds exactly the number and the bytes of its regular files |
| FolderStats.WalkEntriesCountEveryFile | server/utils/folderStats.ts:37-46 | the loop over a readable listing adds exactly the files and bytes of its entries |
| FolderStats.FailureIsFinal | server/utils/folderStats.ts:35-53 | once the walk has failed, later entries change nothing |
| FolderStats.FailureKeepsPartialSums | server/utils/folderStats.ts:35-55 | a failing `stat` part-way ends the walk with exactly the files and bytes counted before it, not zeros |
| FolderStats.WalkEntryOnlyAdds | server/utils/folderStats.ts:35-47 | a walk never lowers its size or file count |
| FolderStats.WalkEntriesOnlyAdds | server/utils/folderStats.ts:37-46 | the loop over a listing never lowers its size or file count |
| FolderStats.WalkStopsAtFailure | server/utils/folderStats.ts:35-55 | any failing entry (file, unreadable directory or deeper failure) ends the walk where that entry's walk ends, keeping at least the files and bytes before it |
| FolderStats.SizeKBIsHalfUp | server/utils/folderStats.ts:55 | `Math.round(size / 1024)` is `(size + 512) / 1024` for a byte count |
| FolderStats.MissingFolderIsEmpty | server/utils/folderStats.ts:49-55 | a folder that cannot be listed gives zero kilobytes and zero files |
| FolderStats.StatsOfReadableFolder | server/utils/folderStats.ts:29-56 | a readable folder's statistics count every regular file and round its bytes half up to kilobytes |
| FolderStats.StatsOf | server/utils/folderStats.ts:29-56 | one folder's row; `StatsOfReadableFolder` and `MissingFolderIsEmpty` state its value |
| FolderStats.StatsTable | server/utils/folderStats.ts:59-80 | the table has a row for exactly the eight folders, and a folder that is missing gets zero kilobytes and zero files |
| FolderStats.Walk | server/utils/folderStats.ts:35-47 | the walk as the program runs it ends where the specification's walk ends, with the same sums |
| FolderStats.GetFolderStats | server/utils/folderStats.ts:29-56 | the statistics are those of the specified walk from zero, with errors swallowed |
| FolderStats.StatsCache.constructor | server/utils/folderStats.ts:11-27 | every one of the eight folders starts at zero kilobytes and zero files, with no calculation running |
| FolderStats.StatsCache.CalculateAllFolderStats | server/utils/folderStats.ts:59-80 | a run in flight leaves the table as it was; otherwise the table is replaced by the statistics of every folder and the flag is cleared |
| FolderStats.StatsCache.GetCurrentStats | server/utils/folderStats.ts:83-85 | the caller gets the table's entries as a value of its own |

## Left out

- The image library's pixel work is not modelled. Resizing, compositing, PNG and WebP encoding and metadata reading are uninterpreted functions of the `Sharp.Engine` record. `ResizeIdempotent` assumes only that `fit: inside` output fits the box as the library reports it.
- The functions of `Sharp.Engine` never fail. In the program a corrupt or unsupported buffer makes `sharp` throw, and nothing catches it: `img.metadata()` in `resizeImage`, `baseImage.metadata()` and the compositing in `applyOverlay`, and `convertToWebp` in `getOldCharacterImage` all pass the exception to their caller. A lookup that fails this way writes nothing. `ResizeImage.Resize`, `OverlayImage.ApplyOverlay`, `Sharp.ConvertToWebp`, `CharacterUtils.OldCharacterImage` and `CharacterUtils.PortraitArchive.GetOldCharacterImage` model only the runs in which the library succeeds.
- Network requests are parameters, not calls. The validator's `HEAD` request is the function `fetchHead`, and the placeholder probe's response is the `InitDefaultCharacterETag` parameter. A request that throws is `Unreachable`.
- `Date.now()` is the parameter `now`, read once per operation. The program reads the clock several times, so its `lastChecked` and `cacheExpiry` can differ by a few milliseconds where the model has one instant.
- Console logging and timing (`duration`) are left out.
- CacheValidation.CacheValidator.Start: records only the repeating timer's handle. It does not schedule the initial run after five minutes or the six-hourly runs, because timers are runtime scheduling.
- `initFolderStats` (server/utils/folderStats.ts:88-100) is left out for the same reason.
- The sidecar's JSON text is not modelled. A sidecar is a record, and a file that does not parse is `None`. A sidecar that parses to a value of another shape is not modelled.
- CacheValidation.Disk.WriteFile: always succeeds. A failing `writeFile` in `saveCacheMetadata` is caught by the program and would leave the disk unchanged. Other file system errors are not modelled either, beyond missing files.
- A directory that cannot be read lists nothing in the model, so its sweep counts `{0, 0}` as the program's catch does. Subdirectories inside a cache directory are not modelled as entries of the validator's disk.
- CacheValidation.CacheValidator.ValidateCacheDirectory: visits the listing in an unspecified order, because `readdir` order is unspecified. `SweptDirDeterministic` shows that the result does not depend on that order.
- UpstreamUrl.Normalize: models only the leading `./` that `path.join` drops. Paths with `..`, `//` or trailing separators do not occur in the modelled calls.
- The URL lemmas cover file names without `/` or backslash. POSIX allows a backslash in a file name, and `getUpstreamUrl` would read it as a separator; the program's own writers never create such names, and names containing a backslash are not covered.
- CacheValidation.CacheValidator.ValidateSingleImage: uses the corrected lookup (`ResolveUpstreamUrl`, the rooted path), not the as-written one; the as-written behaviour is `CacheValidation.AsWrittenValidationIsInert`.
- CacheValidation.CacheValidator.VisitImage: uses the corrected lookup; the as-written behaviour is `CacheValidation.AsWrittenValidationIsInert`.
- CacheValidation.CacheValidator.ValidateCacheDirectory: uses the corrected lookup; the as-written behaviour is `CacheValidation.AsWrittenValidationIsInert`.
- CacheValidation.CacheValidator.VisitListed: uses the corrected lookup; the as-written behaviour is `CacheValidation.AsWrittenValidationIsInert`.
- CacheValidation.CacheValidator.ValidateAllCaches: uses the corrected lookup; the as-written behaviour is `CacheValidation.AsWrittenValidationIsInert`.
- The disk is keyed by the path string as given, so `./cache/corporations/98.png` and `cache/corporations/98.png` are two keys. `Get`, `LoadCacheMetadata`, `NeedsValidation`, `Saved`, `Evicted`, `CacheValidator.SaveCacheMetadata`, `CacheValidator.RemoveCachedImage` and the sweep are about paths in the form the sweep builds (`path.join` output, no leading `./`). Callers that pass `./`-prefixed paths, such as the route handlers, are not covered.
- Strings are sequences of Unicode scalar values. Lone surrogates cannot be written, so the `URIError` that `encodeURIComponent` throws on them is not modelled.
- A `Record<string, string>` is a list of distinct keys plus a map. Object-key ordering rules for integer-like keys do not matter here, because the keys are sorted.
- The `catch` in `calculateAllFolderStats` is not modelled, because `getFolderStats` swallows its own errors and nothing else in the loop throws. The in-flight flag is therefore always cleared at the end of a run.
- FolderStats.StatsCache.GetCurrentStats: returns the table as a value. The program's shallow copy shares the row objects, and mutating a row through the copy would reach the cache. The model does not capture that aliasing.
- Floating-point division is not modelled. `Math.round(size / 1024)` is computed over the reals, which agrees with doubles for byte counts below 2^53.
- `hashUtils.ts`, the route handlers, the plugins and the scripts outside `server/utils` are not part of this model.
- Concurrency between requests and the sweep is not modelled.
- `status.ts` has its own copy of `getFolderStats`, which is not part of this model.

## Findings

| source | as written | input that shows it | evidently intended | confidence | as-written member | corrected member |
|---|---|---|---|---|---|---|
| server/utils/cacheValidator.ts:251-257 | the sweep passes `path.join('./cache/characters', file)` to `getUpstreamUrl`, which tests for `/cache/characters/`; `path.join` drops the leading `./`, so the path is `cache/characters/123.jpg`, no directory test passes, and every due entry whose name holds no backslash ends as `error` with no file revalidated or evicted | `cache/characters/123.jpg` | the directory tests pass for the swept paths, so `123.jpg` under `./cache/characters` is checked against `https://images.evetech.net/characters/123/portrait` | high (not executed) | UpstreamUrl.GetUpstreamUrlMissesSweptPaths | UpstreamUrl.ResolveUpstreamUrlOfSweptPath |

The validator's methods use the corrected lookup, which tests the swept path as
the rooted path `/cache/characters/123.jpg`. The as-written behaviour is kept
as `UpstreamUrl.GetUpstreamUrl`. `CacheValidation.AsWrittenValidationIsInert`
shows its consequence for the sweep: every due entry (for names without a
backslash) is an error and no file changes.
