/**
 * characterUtils (server/utils/characterUtils.ts): the placeholder-portrait
 * ETag kept by the module, and the lookup of archived ("old") portraits, which
 * converts a JPEG to WebP on demand and stores the conversion next to it.
 */
module CharacterUtils {

  import opened Wrappers
  import opened Buffers
  import opened Sharp
  import opened Upstream

  const OldCharacters := "./cache/oldcharacters/"
  const MissingJpgPath := OldCharacters + "missing_256.jpg"
  const MissingWebpPath := OldCharacters + "missing_256.webp"

  function JpgPath(id: string): string { OldCharacters + id + "_256.jpg" }
  function WebpPath(id: string): string { OldCharacters + id + "_256.webp" }

  /** `{found, image, path}` as `getOldCharacterImage` returns it. */
  datatype OldImage = OldImage(found: bool, image: Option<Bytes>, path: Option<string>)

  /** The file the cascade settles on, and whether it still has to be converted to WebP. */
  datatype Choice = Choice(path: string, needsConversion: bool)

  /** A lookup's result together with the files on disk afterwards. */
  datatype Lookup = Lookup(result: OldImage, files: map<string, Bytes>)

  // ---------------------------------------------------------------------
  // Choosing the source file

  /** The files tried, in order of preference. */
  function Candidates(id: string, webpRequested: bool): seq<string> {
    if webpRequested then [WebpPath(id), JpgPath(id), MissingWebpPath, MissingJpgPath]
    else [JpgPath(id), MissingJpgPath]
  }

  /** Reference definition: the first of `paths` that exists. */
  function FirstExisting(paths: seq<string>, present: set<string>): (r: Option<string>)
    ensures r.Some? ==> r.value in paths && r.value in present
    ensures r.None? <==> forall i :: 0 <= i < |paths| ==> paths[i] !in present
  {
    if paths == [] then None
    else if paths[0] in present then Some(paths[0])
    else FirstExisting(paths[1..], present)
  }

  /** The if/else cascade that picks `imagePath` and sets `needsConversion`. */
  function Select(id: string, webpRequested: bool, present: set<string>): Option<Choice> {
    if webpRequested then
      if WebpPath(id) in present then Some(Choice(WebpPath(id), false))
      else if JpgPath(id) in present then Some(Choice(JpgPath(id), true))
      else if MissingWebpPath in present then Some(Choice(MissingWebpPath, false))
      else if MissingJpgPath in present then Some(Choice(MissingJpgPath, true))
      else None
    else
      if JpgPath(id) in present then Some(Choice(JpgPath(id), false))
      else if MissingJpgPath in present then Some(Choice(MissingJpgPath, false))
      else None
  }

  function HasSuffix(s: string, suffix: string): bool {
    |suffix| <= |s| && s[|s| - |suffix|..] == suffix
  }

  /**
   * The cascade picks the first existing candidate; a conversion is needed
   * exactly when WebP was asked for and the file picked is a JPEG. Without
   * WebP a `.webp` file is never picked.
   */
  lemma SelectIsFirstExisting(id: string, webpRequested: bool, present: set<string>)
    ensures var c := Select(id, webpRequested, present);
      && (c.None? <==> FirstExisting(Candidates(id, webpRequested), present).None?)
      && (c.Some? ==> Some(c.value.path) == FirstExisting(Candidates(id, webpRequested), present))
      && (c.Some? ==> (c.value.needsConversion <==> webpRequested && HasSuffix(c.value.path, ".jpg")))
      && (c.Some? && !webpRequested ==> !HasSuffix(c.value.path, ".webp"))
  {
    var jpg, webp := JpgPath(id), WebpPath(id);
    assert HasSuffix(jpg, ".jpg") && !HasSuffix(jpg, ".webp") by {
      assert jpg[|jpg| - 4..] == ".jpg";
      assert jpg[|jpg| - 5] == '_' || jpg[|jpg| - 5..] != ".webp";
    }
    assert !HasSuffix(webp, ".jpg") by { assert webp[|webp| - 4..] == "webp"; }
    assert HasSuffix(MissingJpgPath, ".jpg") && !HasSuffix(MissingJpgPath, ".webp");
    assert !HasSuffix(MissingWebpPath, ".jpg");
    var cs := Candidates(id, webpRequested);
    if webpRequested {
      assert cs == [webp, jpg, MissingWebpPath, MissingJpgPath];
      if webp !in present {
        assert FirstExisting(cs, present) == FirstExisting(cs[1..], present);
        assert cs[1..] == [jpg, MissingWebpPath, MissingJpgPath];
        if jpg !in present {
          assert FirstExisting(cs[1..], present) == FirstExisting(cs[2..], present);
          assert cs[2..] == [MissingWebpPath, MissingJpgPath];
          if MissingWebpPath !in present {
            assert FirstExisting(cs[2..], present) == FirstExisting(cs[3..], present);
            assert cs[3..] == [MissingJpgPath];
          }
        }
      }
    } else {
      assert cs == [jpg, MissingJpgPath];
      if jpg !in present {
        assert FirstExisting(cs, present) == FirstExisting(cs[1..], present);
        assert cs[1..] == [MissingJpgPath];
      }
    }
  }

  // ---------------------------------------------------------------------
  // The whole lookup

  /**
   * `getOldCharacterImage(id, webpRequested)` as a function of the files on
   * disk: nothing found gives `{false, null, null}`; a file that needs no
   * conversion is returned as it is, with its own path; a JPEG asked for as
   * WebP is converted, the conversion is written to `{id}_256.webp` (or to
   * `missing_256.webp` when the placeholder was used), and the path returned
   * is `{id}_256.webp` in both cases.
   */
  function OldCharacterImage(files: map<string, Bytes>, sharp: Engine, id: string, webpRequested: bool): (r: Lookup)
    ensures !r.result.found <==> forall p :: p in Candidates(id, webpRequested) ==> p !in files
    ensures !r.result.found ==> r == Lookup(OldImage(false, None, None), files)
    ensures r.result.found ==> r.result.image.Some? && r.result.path.Some?
    ensures r.result.found ==>
      var c := Select(id, webpRequested, files.Keys);
      && c.Some? && c.value.path in files
      && (!c.value.needsConversion ==> r.result == OldImage(true, Some(files[c.value.path]), Some(c.value.path)))
      && (c.value.needsConversion ==>
            r.result == OldImage(true, Some(ConvertToWebp(sharp, files[c.value.path])), Some(WebpPath(id))))
    ensures r.files != files ==>
      webpRequested && (r.result.path == Some(WebpPath(id)))
      && exists src :: src in files && src in {JpgPath(id), MissingJpgPath}
                       && r.files == files[(if src == JpgPath(id) then WebpPath(id) else MissingWebpPath) := ConvertToWebp(sharp, files[src])]
  {
    SelectIsFirstExisting(id, webpRequested, files.Keys);
    match Select(id, webpRequested, files.Keys)
    case None => Lookup(OldImage(false, None, None), files)
    case Some(Choice(path, needsConversion)) =>
      if needsConversion && webpRequested then
        var webp := ConvertToWebp(sharp, files[path]);
        var savePath := if path == JpgPath(id) then WebpPath(id) else MissingWebpPath;
        Lookup(OldImage(true, Some(webp), Some(WebpPath(id))), files[savePath := webp])
      else
        Lookup(OldImage(true, Some(files[path]), Some(path)), files)
  }

  /**
   * A second WebP lookup after one that converted `{id}_256.jpg` finds the
   * stored conversion, returns it without converting again, and writes nothing.
   */
  lemma ConversionIsStored(files: map<string, Bytes>, sharp: Engine, id: string)
    requires Select(id, true, files.Keys) == Some(Choice(JpgPath(id), true))
    ensures var first := OldCharacterImage(files, sharp, id, true);
      var second := OldCharacterImage(first.files, sharp, id, true);
      && second.files == first.files
      && second.result == OldImage(true, Some(ConvertToWebp(sharp, files[JpgPath(id)])), Some(WebpPath(id)))
  {
    var first := OldCharacterImage(files, sharp, id, true);
    assert first.files == files[WebpPath(id) := ConvertToWebp(sharp, files[JpgPath(id)])];
    assert Select(id, true, first.files.Keys) == Some(Choice(WebpPath(id), false));
  }

  /** A request that does not ask for WebP never writes a file. */
  lemma JpegLookupWritesNothing(files: map<string, Bytes>, sharp: Engine, id: string)
    ensures OldCharacterImage(files, sharp, id, false).files == files
  {
  }

  /** The archive of old portraits on disk, as `Bun.file` sees it. */
  class PortraitArchive {
    var files: map<string, Bytes>

    constructor (files: map<string, Bytes>)
      ensures this.files == files
    {
      this.files := files;
    }

    /** `getOldCharacterImage(id, webpRequested)`, step by step as the program runs it. */
    method GetOldCharacterImage(sharp: Engine, id: string, webpRequested: bool) returns (result: OldImage)
      modifies this
      ensures Lookup(result, files) == OldCharacterImage(old(files), sharp, id, webpRequested)
    {
      var jpgPath := JpgPath(id);
      var webpPath := WebpPath(id);
      var imagePath: Option<string> := None;
      var needsConversion := false;

      if webpRequested {
        if webpPath in files {
          imagePath := Some(webpPath);
        } else if jpgPath in files {
          imagePath := Some(jpgPath);
          needsConversion := true;
        } else if MissingWebpPath in files {
          imagePath := Some(MissingWebpPath);
        } else if MissingJpgPath in files {
          imagePath := Some(MissingJpgPath);
          needsConversion := true;
        }
      } else {
        if jpgPath in files {
          imagePath := Some(jpgPath);
        } else if MissingJpgPath in files {
          imagePath := Some(MissingJpgPath);
        }
      }

      if imagePath.None? {
        return OldImage(false, None, None);
      }

      var image := files[imagePath.value];
      if needsConversion && webpRequested {
        image := ConvertToWebp(sharp, image);
        var savePath := if imagePath.value == jpgPath then webpPath else MissingWebpPath;
        files := files[savePath := image];
        imagePath := Some(webpPath);
      }
      result := OldImage(true, Some(image), imagePath);
    }
  }

  /** The module-level `defaultCharacterETag`. */
  class DefaultPortrait {
    var defaultCharacterETag: Option<string>

    /** Nothing is known before the placeholder has been probed. */
    constructor ()
      ensures defaultCharacterETag == None
    {
      defaultCharacterETag := None;
    }

    /**
     * `initDefaultCharacterETag()`: the `ETag` header of the placeholder
     * portrait's `HEAD` response is stored (null when absent); a request that
     * throws leaves the stored value as it was.
     */
    method InitDefaultCharacterETag(response: Head)
      modifies this
      ensures response.Headers? ==> defaultCharacterETag == response.etag
      ensures response.Unreachable? ==> defaultCharacterETag == old(defaultCharacterETag)
    {
      if response.Headers? {
        defaultCharacterETag := response.etag;
      }
    }

    /** `getDefaultCharacterETag()`. */
    method GetDefaultCharacterETag() returns (etag: Option<string>)
      ensures etag == defaultCharacterETag
    {
      etag := defaultCharacterETag;
    }
  }
}
