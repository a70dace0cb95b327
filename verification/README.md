# Ubuntu Image Fetcher — a Dafny model

The fetcher reads one line of comma-separated URLs. It downloads each one in
turn. It keeps a response only if it declares an `image/` content type and its
body has a content hash not seen before in this run. It writes that body to
`Fetched_Images/<basename of the URL path>`.

This project models that decision procedure as pure functions. The network, MD5
and the disk become inputs:

- `pystr.dfy` (`PyStr`): Python's `str.split` on one character, `str.strip()`
  with Python's exact `isspace` set, and `startswith`.
- `posixpath.dfy` (`PosixPath`): `os.path.basename` and two-argument
  `os.path.join` with POSIX semantics.
- `fetcher.dfy` (`Fetcher`): `fetch_image` as `FetchImage`. It takes a
  directory, the parsed URL path, the response (`Failed` or
  `Ok(contentType, body)`), how the disk behaves (`Disk(makedirsOk, writeOk)`),
  the seen-set and the files (a map from path to bytes). It returns the outcome
  (`Error(ConnectionError)`, `Error(OtherError)`, `NotImage`, `Duplicate` or
  `Saved(path)`), the new seen-set and the new files.
- `driver.dfy` (`Driver`): `main` as `ParseUrls` (split, strip, drop blanks),
  `Run` (the loop that threads the seen-set and files from call to call) and
  `Session` (one input line, default directory, empty seen-set). What the
  network and the disk do on each fetch is an `Attempt`. `Run` takes one per
  URL; `Session` takes a function from the fetch's position in the line to its
  `Attempt`.

The content hash is a function parameter `hash`. No lemma assumes it is
injective, so every property about duplicates is stated about equal hashes, not
equal bodies. `urlparse` is a parameter `pathOf` that maps a URL to its path
component. The steps follow the order of the source:

1. Create the directory.
2. Send the request.
3. Test the content type.
4. Derive the file name.
5. Check the hash.
6. Open and write the file.
7. Record the hash.

So a failure at any step leaves the seen-set and the files as they were.

Where the code and a plain reading of its behaviour part ways, the model
follows the code:

- The content-type test is a case-sensitive prefix match on `image/`. A missing
  header counts as `""`.
- `os.path.join` is modelled with its absolute-component rule, not as
  `dir + "/" + name`. The two agree whenever the directory is non-empty and
  does not end in `/`, in particular for `Fetched_Images`. A derived name
  never starts with `/`, so the absolute-component rule never applies.
- `os.makedirs` raises for an empty name and for a name containing a NUL
  character. So such a directory makes every fetch an `Error(OtherError)`.
- A URL whose derived file name is `.` or `..`, or contains a NUL character,
  still reaches the duplicate check, so a seen hash gives `Duplicate`.
  Otherwise `open` rejects the name, which gives `Error(OtherError)` with
  nothing recorded.

## Model

| member | source | states |
|---|---|---|
| `PyStr.Strip` | ubuntu_fetcher.py:65 | `u.strip()` neither starts nor ends with a Python whitespace character |
| `PyStr.StripUnique` | ubuntu_fetcher.py:65 | stripping `a + m + b` gives back `m` for whitespace `a`, `b` and an already trimmed `m`; this is the reference definition `Strip` is checked against |
| `PyStr.StripRemovesOnlySpace` | ubuntu_fetcher.py:65 | the result is the slice of `s` after its leading whitespace; everything cut off on either side is whitespace |
| `PyStr.StripEmptyIffAllSpace` | ubuntu_fetcher.py:65 | `u.strip()` is falsy (empty) exactly when `u` is all whitespace, which is the filter `if u.strip()` |
| `PyStr.StripKeepsCharOut` | ubuntu_fetcher.py:65 | stripping adds no characters: a comma-free piece stays comma-free |
| `PyStr.StripTrimmed` | ubuntu_fetcher.py:65 | a trimmed string strips to itself, with or without one leading space |
| `PyStr.StripIdempotent` | ubuntu_fetcher.py:65 | `s.strip().strip() == s.strip()` |
| `PyStr.Split` | ubuntu_fetcher.py:62 | `line.split(",")` yields one more piece than there are commas, no piece contains a comma, and joining the pieces with `,` gives the line back |
| `PyStr.SplitAppend` | ubuntu_fetcher.py:62 | splitting at one comma gives the pieces of the text before it followed by the pieces of the text after it |
| `PyStr.SplitJoin` | ubuntu_fetcher.py:62 | splitting the comma-join of at least one comma-free piece returns exactly those pieces, so `Split` and `Join` are inverse |
| `PosixPath.Basename` | ubuntu_fetcher.py:29 | `os.path.basename` contains no `/`, and is empty exactly when the path is empty or ends in `/` |
| `PosixPath.BasenameIsLastSegment` | ubuntu_fetcher.py:29 | the basename is a suffix of the path that is either the whole path or preceded by `/`: everything after the last `/` |
| `PosixPath.Join` | ubuntu_fetcher.py:33 | a definition of two-argument `os.path.join`; `BasenameOfJoin` and `JoinInjective` characterise it |
| `PosixPath.BasenameOfJoin` | ubuntu_fetcher.py:33 | the basename of `os.path.join(dir, name)` is `name` for any `/`-free name |
| `PosixPath.JoinInjective` | ubuntu_fetcher.py:33 | in one directory, two `/`-free names join to the same path only if they are equal |
| `Fetcher.Filename` | ubuntu_fetcher.py:28-31 | the derived file name is never empty, never contains `/`, and is `downloaded_image.jpg` when the path is empty or ends in `/` |
| `Fetcher.IsImage` | ubuntu_fetcher.py:22-23 | a definition of `content_type.startswith("image/")`; `IsImageIffImagePrefix` and `IsImageIsCaseSensitive` characterise it |
| `Fetcher.IsImageIffImagePrefix` | ubuntu_fetcher.py:22-23 | a content type passes exactly when it is `image/` followed by anything |
| `Fetcher.IsImageIsCaseSensitive` | ubuntu_fetcher.py:22-23 | `image/png` passes; `Image/png`, `IMAGE/PNG` and ` image/png` do not, because nothing is case-folded or trimmed |
| `Fetcher.TargetPath` | ubuntu_fetcher.py:33 | a definition of `filepath`, the directory joined with the derived file name; `DistinctNamesDistinctTargets` and `BasenameOfJoin` characterise it |
| `Fetcher.FilenameIsLastSegment` | ubuntu_fetcher.py:28-31 | for a path not ending in `/`, the file name is the part of the path after its last `/`, or the whole path |
| `Fetcher.FetchImage` | ubuntu_fetcher.py:12-55 | the seen-set only grows. It changes exactly on a save, to `seen + {hash(body)}`, for a hash not seen before. A save writes `body` at `join(dir, filename)` and changes no other file; every other outcome leaves the files alone. A connection error, non-image, duplicate or other error is reported exactly under the conditions of lines 14-53 |
| `Fetcher.SeenGrowsByAtMostOne` | ubuntu_fetcher.py:37-45 | one call grows the seen-set by one element on a save and by none otherwise |
| `Fetcher.SaveTouchesOnlyTarget` | ubuntu_fetcher.py:42-43 | only the target path can change; after a save it holds the body, whatever it held before (a silent overwrite) |
| `Fetcher.DistinctNamesDistinctTargets` | ubuntu_fetcher.py:33 | different derived file names never land on the same path of one directory |
| `Fetcher.FetchTwiceIsFetchOnce` | ubuntu_fetcher.py:36-45 | repeating a fetch against the state it produced changes nothing: a save comes back `Duplicate`, any other outcome repeats |
| `Fetcher.HtmlOrUntypedIsSkipped` | ubuntu_fetcher.py:22-25 | a `text/html` response, or one without a `Content-Type` header, is `NotImage` with seen-set and files unchanged |
| `Driver.Clean` | ubuntu_fetcher.py:65 | its own contract says only that it never yields more URLs than pieces; `CleanSingleton` and `CleanAppend` fix its content, and `CleanedAreStripped` its shape |
| `Driver.CleanSingleton` | ubuntu_fetcher.py:65 | one piece yields its stripped text, or nothing when that is empty |
| `Driver.CleanedAreStripped` | ubuntu_fetcher.py:65 | every URL kept by `[u.strip() for u in urls if u.strip()]` is non-empty and stripped |
| `Driver.CleanAppend` | ubuntu_fetcher.py:65 | cleaning distributes over concatenation, so surviving pieces keep their input order |
| `Driver.CleanOfClean` | ubuntu_fetcher.py:65 | a list of non-empty stripped pieces is left exactly as it is |
| `Driver.ParseUrls` | ubuntu_fetcher.py:62-65 | the parsed URLs are at most one more than the commas in the line, and each is non-empty, stripped and comma-free |
| `Driver.ParseUrlsPiece` | ubuntu_fetcher.py:62-65 | a comma-free line parses to its stripped text, or to no URL when it is blank |
| `Driver.ParseUrlsAppend` | ubuntu_fetcher.py:62-65 | the URLs of `a + "," + b` are the URLs of `a` followed by those of `b`; with `ParseUrlsPiece` this fixes the result for every line |
| `Driver.ParseJoinedUrls` | ubuntu_fetcher.py:62-65 | non-empty, stripped, comma-free URLs joined with commas parse back to exactly that list |
| `Driver.Run` | ubuntu_fetcher.py:64-66 | the loop produces one outcome per URL and never shrinks the seen-set |
| `Driver.RunSeenGrowth` | ubuntu_fetcher.py:64-66 | over a run the seen-set grows by exactly the number of saves, so by at most one per URL |
| `Driver.RunSeenIsSavedHashes` | ubuntu_fetcher.py:64-66 | the final seen-set is the initial one plus the hashes of the saved bodies, and nothing else |
| `Driver.RunTouchesOnlySavedPaths` | ubuntu_fetcher.py:64-66 | a run changes only the paths of its saves; every other file keeps its presence and contents |
| `Driver.RunSavesAtTargets` | ubuntu_fetcher.py:64-66 | every save in a run is of an image response past the directory check, written to the path derived from its own URL |
| `Driver.Session` | ubuntu_fetcher.py:62-66 | `main` on one line gives one outcome per parsed URL |
| `Driver.SessionSummary` | ubuntu_fetcher.py:62-66 | after one line, the seen-set is exactly the saved bodies' hashes, one per save, so at most one per URL; only saved paths change on disk |
| `Driver.SeenHashIsDuplicate` | ubuntu_fetcher.py:37-39 | once a hash is in the seen-set, every later image response with that hash is reported `Duplicate` |
| `Driver.SavedHashIsDuplicateLater` | ubuntu_fetcher.py:64-66 | after a save, a later image response with an equal hash is `Duplicate`, because the set is threaded forward |
| `Driver.SavedHashesDistinct` | ubuntu_fetcher.py:36-45 | no two saves of one run have equal hashes, so identical bodies are saved at most once |
| `Driver.LastSaveWins` | ubuntu_fetcher.py:42-43 | at the end of a run, a saved path holds the body of the last save to that path |
| `Driver.ParseSameUrlTwice` | ubuntu_fetcher.py:62-65 | `"u, u"` parses into `[u, u]` |
| `Driver.RunSameUrlTwice` | ubuntu_fetcher.py:64-66 | fetching the same image URL twice from an empty set saves once, then reports `Duplicate`, leaving one hash and one new file |
| `Driver.SameUrlTwice` | ubuntu_fetcher.py:62-66 | the input `"u, u"` for an image URL `u` gives outcomes `[Saved(Fetched_Images/<name>), Duplicate]`, a seen-set of exactly one hash, and exactly one file written |

## Left out

- The HTTP request (`requests.get`, the User-Agent header, the 10-second
  timeout, `raise_for_status`) is a foreign network call. It is collapsed into
  `Response`: `Failed` for any `RequestException`, otherwise the content type
  and body.
- An exception from the request that is not a `RequestException` is not
  modelled; `Failed` always reports `ConnectionError`.
- MD5 is a foreign cryptographic routine. It is the uninterpreted parameter
  `hash`.
- `urlparse` (scheme, query and fragment handling) is the parameter `pathOf`.
  `FetchImage` takes the path component directly.
- Console output (`print`) and the `input` prompt are I/O only. A `print` that
  fails after the hash is recorded (lines 47-48) is not modelled.
- The mutable default argument `seen_hashes=set()` is a Python aliasing
  artefact. `main` always passes the set explicitly, and here it is an explicit
  parameter and result.
- The directory that `os.makedirs` creates is not an entry of the files map.
  Only whether it succeeds is modelled, by `Disk.makedirsOk`.
- `Fetcher.FetchImage`: when `open` succeeds but `write` fails, Python leaves
  an empty or partial file behind. The model leaves the files unchanged on
  every error.
- File-system failures beyond the two `Disk` flags and the names `open` always
  rejects are not modelled: file-name length limits, permissions on existing
  files, and a path that names an existing directory.
- `Driver.Clean`: its own ensures is only the length bound. Its content is
  stated by `CleanSingleton` and `CleanAppend`, and its shape by
  `CleanedAreStripped`, so that the function's contract stays small.
- `Driver.Run`: the driver always uses the default directory `Fetched_Images`.
  `Run` takes the directory as a parameter so that its lemmas cover any
  directory.
