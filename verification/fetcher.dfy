/** One call of `fetch_image`: given the already-parsed URL path, the HTTP
    response (or its failure), what the disk allowed and the set of content
    hashes seen so far, decide the outcome and compute the new seen-set and
    the new contents of the file system. The network, MD5 and the disk are
    inputs; nothing here performs I/O. */
module Fetcher {
  import opened PyStr
  import PosixPath

  newtype byte = b: int | 0 <= b < 256

  /** What `requests.get(...)` followed by `raise_for_status()` produced:
      `Failed` for any `RequestException` (connection error, timeout, a 4xx or
      5xx status), otherwise the `Content-Type` header (`""` when absent) and the
      full body. */
  datatype Response = Failed | Ok(contentType: string, body: seq<byte>)

  /** How the two file-system calls of one fetch behave: whether
      `os.makedirs(dir, exist_ok=True)` succeeds, and whether opening and
      writing the target file succeeds (for a name that can be opened at all). */
  datatype Disk = Disk(makedirsOk: bool, writeOk: bool)

  /** Files on disk, by full path. */
  type Files = map<string, seq<byte>>

  /** The two `except` arms of `fetch_image`. */
  datatype ErrorKind = ConnectionError | OtherError

  /** What one fetch reports. */
  datatype Outcome = Error(kind: ErrorKind) | NotImage | Duplicate | Saved(path: string)

  /** The outcome, the seen-set returned to the caller, and the file system
      afterwards. */
  datatype Fetch = Fetch(outcome: Outcome, seen: set<string>, files: Files)

  const DefaultDir := "Fetched_Images"
  const DefaultFilename := "downloaded_image.jpg"
  const ImagePrefix := "image/"

  /** The content-type test: an exact, case-sensitive prefix match. */
  predicate IsImage(contentType: string) {
    StartsWith(contentType, ImagePrefix)
  }

  /** The content-type test accepts exactly the types that are `image/`
      followed by anything. */
  lemma IsImageIffImagePrefix(contentType: string)
    ensures IsImage(contentType) <==> exists rest :: contentType == ImagePrefix + rest
  {
    if IsImage(contentType) {
      var rest := contentType[|ImagePrefix|..];
      assert contentType == ImagePrefix + rest;
    }
  }

  /** The test compares characters exactly: no case folding and no
      trimming, so `Image/png` and ` image/png` are not images. */
  lemma IsImageIsCaseSensitive()
    ensures IsImage("image/png")
    ensures !IsImage("Image/png") && !IsImage("IMAGE/PNG") && !IsImage(" image/png")
  {
    assert "image/png"[..6] == ImagePrefix;
    assert "Image/png"[..6][0] != ImagePrefix[0];
    assert "IMAGE/PNG"[..6][0] != ImagePrefix[0];
    assert " image/png"[..6][0] != ImagePrefix[0];
  }

  /** `os.makedirs` raises for an empty name and for a name holding a NUL
      character, whatever the disk is like. */
  predicate DirCreated(dir: string, disk: Disk) {
    dir != "" && '\0' !in dir && disk.makedirsOk
  }

  /** A response that gets past directory creation, the request and the
      content-type check, and so reaches the duplicate check. */
  predicate ReachesHashCheck(dir: string, resp: Response, disk: Disk) {
    DirCreated(dir, disk) && resp.Ok? && IsImage(resp.contentType)
  }

  /** Names that `open(..., "wb")` rejects whatever the disk is like: `.`
      and `..` name directories, and a NUL character is refused outright. */
  predicate Openable(name: string) {
    name != "." && name != ".." && '\0' !in name
  }

  /** The directory `main` uses is a name `os.makedirs` accepts. */
  lemma DefaultDirIsValid()
    ensures DefaultDir != "" && '\0' !in DefaultDir
  {
    forall k | 0 <= k < |DefaultDir| ensures DefaultDir[k] != '\0' { }
  }

  lemma DefaultFilenameHasNoSlash()
    ensures '/' !in DefaultFilename
  {
    forall k | 0 <= k < |DefaultFilename| ensures DefaultFilename[k] != '/' { }
  }

  /** The file name derived from a URL path: its basename, or
      `downloaded_image.jpg` when the path is empty or ends in `/`. Either
      way a nonempty name without `/`. */
  function Filename(urlPath: string): (r: string)
    ensures r != "" && '/' !in r
    ensures urlPath == "" || urlPath[|urlPath| - 1] == '/' ==> r == DefaultFilename
  {
    var b := PosixPath.Basename(urlPath);
    if b == "" then
      DefaultFilenameHasNoSlash();
      DefaultFilename
    else b
  }

  /** A URL path that does not end in `/` names its file after its last
      segment: the part after the last `/`, or the whole path. */
  lemma FilenameIsLastSegment(urlPath: string)
    requires urlPath != "" && urlPath[|urlPath| - 1] != '/'
    ensures var r := Filename(urlPath);
            && |r| <= |urlPath|
            && r == urlPath[|urlPath| - |r|..]
            && (|r| == |urlPath| || urlPath[|urlPath| - |r| - 1] == '/')
  {
    assert Filename(urlPath) == PosixPath.Basename(urlPath);
  }

  /** The path a fetch of `urlPath` writes to. */
  function TargetPath(dir: string, urlPath: string): string {
    PosixPath.Join(dir, Filename(urlPath))
  }

  /** `fetch_image(url, dir, seen)`, the steps in the order the code takes
      them: create the directory, request, check the content type, derive
      the file name, hash the body, skip a seen hash, write, record the hash.
      Every failure leaves the seen-set and the files as they were; only a
      save grows the set, by exactly the new hash, and only a save touches
      the files, at exactly one path. */
  function FetchImage(hash: seq<byte> -> string, dir: string, urlPath: string,
                      resp: Response, disk: Disk, seen: set<string>, files: Files): (r: Fetch)
    // the seen-set only grows
    ensures seen <= r.seen
    // it changes exactly when the image is saved
    ensures r.seen != seen <==> r.outcome.Saved?
    ensures !r.outcome.Saved? ==> r.files == files
    ensures r.outcome.Saved? ==>
              && ReachesHashCheck(dir, resp, disk)
              && hash(resp.body) !in seen
              && r.seen == seen + {hash(resp.body)}
              && r.outcome.path == TargetPath(dir, urlPath)
              && r.files == files[r.outcome.path := resp.body]
    // the classification of every non-saving outcome
    ensures r.outcome == Error(ConnectionError) <==> DirCreated(dir, disk) && resp.Failed?
    ensures r.outcome == NotImage <==>
              DirCreated(dir, disk) && resp.Ok? && !IsImage(resp.contentType)
    ensures r.outcome == Duplicate <==>
              ReachesHashCheck(dir, resp, disk) && hash(resp.body) in seen
    ensures r.outcome == Error(OtherError) <==>
              || !DirCreated(dir, disk)
              || (ReachesHashCheck(dir, resp, disk) && hash(resp.body) !in seen
                  && !(disk.writeOk && Openable(Filename(urlPath))))
  {
    if !DirCreated(dir, disk) then Fetch(Error(OtherError), seen, files)
    else match resp
      case Failed => Fetch(Error(ConnectionError), seen, files)
      case Ok(contentType, body) =>
        if !IsImage(contentType) then Fetch(NotImage, seen, files)
        else
          var filename := Filename(urlPath);
          var path := PosixPath.Join(dir, filename);
          var h := hash(body);
          if h in seen then Fetch(Duplicate, seen, files)
          else if !(disk.writeOk && Openable(filename)) then Fetch(Error(OtherError), seen, files)
          else
            assert h in seen + {h};
            Fetch(Saved(path), seen + {h}, files[path := body])
  }

  /** The seen-set grows by at most one element per fetch: by exactly one
      on a save, by none otherwise. */
  lemma SeenGrowsByAtMostOne(hash: seq<byte> -> string, dir: string, urlPath: string,
                             resp: Response, disk: Disk, seen: set<string>, files: Files)
    ensures var r := FetchImage(hash, dir, urlPath, resp, disk, seen, files);
            && |r.seen| <= |seen| + 1
            && |r.seen| == |seen| + (if r.outcome.Saved? then 1 else 0)
  {
    var r := FetchImage(hash, dir, urlPath, resp, disk, seen, files);
    if r.outcome.Saved? {
      assert |seen + {hash(resp.body)}| == |seen| + 1;
    }
  }

  /** A save changes the file system at the target path only: every other
      path keeps its presence and its contents, and the target now holds the
      body, whatever it held before. */
  lemma SaveTouchesOnlyTarget(hash: seq<byte> -> string, dir: string, urlPath: string,
                              resp: Response, disk: Disk, seen: set<string>, files: Files)
    ensures var r := FetchImage(hash, dir, urlPath, resp, disk, seen, files);
            && (forall k :: k != TargetPath(dir, urlPath) ==>
                  (k in r.files <==> k in files) && (k in files ==> r.files[k] == files[k]))
            && (r.outcome.Saved? ==> r.files[TargetPath(dir, urlPath)] == resp.body)
  {
  }

  /** Two files saved to the same directory under different derived names
      never overwrite each other. */
  lemma DistinctNamesDistinctTargets(dir: string, path1: string, path2: string)
    requires Filename(path1) != Filename(path2)
    ensures TargetPath(dir, path1) != TargetPath(dir, path2)
  {
    PosixPath.JoinInjective(dir, Filename(path1), Filename(path2));
  }

  /** Repeating a fetch with the same response against the state it left
      behind changes nothing further: a saved image comes back `Duplicate`,
      and any other outcome repeats with the state untouched. */
  lemma FetchTwiceIsFetchOnce(hash: seq<byte> -> string, dir: string, urlPath: string,
                              resp: Response, disk: Disk, seen: set<string>, files: Files)
    ensures var r1 := FetchImage(hash, dir, urlPath, resp, disk, seen, files);
            var r2 := FetchImage(hash, dir, urlPath, resp, disk, r1.seen, r1.files);
            && r2.seen == r1.seen && r2.files == r1.files
            && r2.outcome == (if r1.outcome.Saved? then Duplicate else r1.outcome)
  {
  }

  /** A response declared `text/html`, or one with no `Content-Type` header
      at all, is skipped as not an image once the directory exists: nothing
      is written and the seen-set comes back as it was. */
  lemma HtmlOrUntypedIsSkipped(hash: seq<byte> -> string, dir: string, urlPath: string,
                               contentType: string, body: seq<byte>, disk: Disk,
                               seen: set<string>, files: Files)
    requires DirCreated(dir, disk)
    requires contentType == "text/html" || contentType == ""
    ensures FetchImage(hash, dir, urlPath, Ok(contentType, body), disk, seen, files)
            == Fetch(NotImage, seen, files)
  {
    if contentType != "" {
      assert contentType[0] != ImagePrefix[0];
    }
  }
}
