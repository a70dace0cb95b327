/** `main`: read one line of comma-separated URLs, keep the non-blank pieces
    stripped of surrounding whitespace, and call `fetch_image` once per URL in
    order, each call receiving the seen-set the previous one returned. The
    seen-set starts empty; the file system starts as it was found. */
module Driver {
  import opened PyStr
  import opened Fetcher

  /** What the outside world did during one fetch: the HTTP response and the
      behaviour of the disk. */
  datatype Attempt = Attempt(response: Response, disk: Disk)

  /** The outcome of every fetch of a run, in order, with the final seen-set
      and file system. */
  datatype Summary = Summary(outcomes: seq<Outcome>, seen: set<string>, files: Files)

  // ---------------------------------------------------------------------------
  // Parsing the input line
  // ---------------------------------------------------------------------------

  /** `[u.strip() for u in pieces if u.strip()]`: the pieces, stripped, with
      the blank ones dropped, in their original order. */
  function Clean(pieces: seq<string>): (r: seq<string>)
    ensures |r| <= |pieces|
  {
    if |pieces| == 0 then []
    else
      var u := Strip(pieces[0]);
      (if u == "" then [] else [u]) + Clean(pieces[1..])
  }

  /** Every piece that survives cleaning is non-blank and stripped. */
  lemma {:induction false} CleanedAreStripped(pieces: seq<string>)
    ensures forall u <- Clean(pieces) :: u != "" && Trimmed(u)
    decreases |pieces|
  {
    if |pieces| > 0 {
      CleanedAreStripped(pieces[1..]);
    }
  }

  /** Cleaning works piece by piece: it distributes over concatenation, so
      the relative order of the surviving pieces is the original one. */
  lemma {:induction false} CleanAppend(a: seq<string>, b: seq<string>)
    ensures Clean(a + b) == Clean(a) + Clean(b)
    decreases |a|
  {
    if |a| == 0 {
      assert a + b == b;
    } else {
      var u := Strip(a[0]);
      var head := if u == "" then [] else [u];
      assert (a + b)[0] == a[0];
      assert (a + b)[1..] == a[1..] + b;
      assert Clean(a + b) == head + Clean(a[1..] + b);
      CleanAppend(a[1..], b);
      assert head + (Clean(a[1..]) + Clean(b)) == (head + Clean(a[1..])) + Clean(b);
    }
  }

  /** One piece yields its stripped text, or nothing when that is blank. */
  lemma CleanSingleton(p: string)
    ensures Clean([p]) == if Strip(p) == "" then [] else [Strip(p)]
  {
    assert [p][1..] == [];
  }

  lemma {:induction false} CleanKeepsCharOut(pieces: seq<string>, c: char)
    requires forall p <- pieces :: c !in p
    ensures forall u <- Clean(pieces) :: c !in u
    decreases |pieces|
  {
    if |pieces| > 0 {
      CleanKeepsCharOut(pieces[1..], c);
      StripKeepsCharOut(pieces[0], c);
    }
  }

  /** Pieces that are already non-blank and stripped survive cleaning
      unchanged. */
  lemma {:induction false} CleanOfClean(pieces: seq<string>)
    requires forall u <- pieces :: u != "" && Trimmed(u)
    ensures Clean(pieces) == pieces
    decreases |pieces|
  {
    if |pieces| > 0 {
      var u := pieces[0];
      StripTrimmed(u);
      assert forall v <- pieces[1..] :: v in pieces;
      CleanOfClean(pieces[1..]);
      assert pieces == [u] + pieces[1..];
    }
  }

  /** The URL list `main` iterates over: the comma-separated pieces of the
      line, stripped, blank ones dropped, in order. Each URL is non-empty,
      has no surrounding whitespace and contains no comma. */
  function ParseUrls(line: string): (r: seq<string>)
    ensures |r| <= Count(line, ',') + 1
    ensures forall u <- r :: u != "" && Trimmed(u) && ',' !in u
  {
    var pieces := Split(line, ',');
    CleanKeepsCharOut(pieces, ',');
    CleanedAreStripped(pieces);
    Clean(pieces)
  }

  /** A comma-free piece of the line contributes its stripped text, or
      nothing when it is blank. */
  lemma ParseUrlsPiece(p: string)
    requires ',' !in p
    ensures ParseUrls(p) == if Strip(p) == "" then [] else [Strip(p)]
  {
    SplitJoin([p], ',');
    CleanSingleton(p);
  }

  /** The line is parsed comma by comma: the URLs before a comma, then the
      URLs after it. */
  lemma ParseUrlsAppend(a: string, b: string)
    ensures ParseUrls(a + "," + b) == ParseUrls(a) + ParseUrls(b)
  {
    assert a + "," + b == a + [','] + b;
    SplitAppend(a, b, ',');
    CleanAppend(Split(a, ','), Split(b, ','));
  }

  /** Round trip: URLs that are non-empty, stripped and comma-free, joined
      with commas into one input line, are parsed back exactly. */
  lemma ParseJoinedUrls(urls: seq<string>)
    requires forall u <- urls :: u != "" && Trimmed(u) && ',' !in u
    ensures ParseUrls(Join(urls, ',')) == urls
  {
    if |urls| == 0 {
      assert Split("", ',') == [""];
      assert Strip("") == "";
      assert Clean([""]) == [] + Clean([]);
    } else {
      SplitJoin(urls, ',');
      CleanOfClean(urls);
    }
  }

  // ---------------------------------------------------------------------------
  // The driver loop
  // ---------------------------------------------------------------------------

  /** Number of saves in a sequence of outcomes. */
  function SavedCount(outcomes: seq<Outcome>): (n: nat)
    ensures n <= |outcomes|
  {
    if |outcomes| == 0 then 0
    else (if outcomes[0].Saved? then 1 else 0) + SavedCount(outcomes[1..])
  }

  /** The content hashes of the saved bodies. */
  function SavedHashes(hash: seq<byte> -> string, outcomes: seq<Outcome>, attempts: seq<Attempt>): set<string>
    requires |outcomes| == |attempts|
  {
    if |outcomes| == 0 then {}
    else
      (if outcomes[0].Saved? && attempts[0].response.Ok?
       then {hash(attempts[0].response.body)} else {})
      + SavedHashes(hash, outcomes[1..], attempts[1..])
  }

  /** The paths written by the saves. */
  function SavedPaths(outcomes: seq<Outcome>): set<string> {
    if |outcomes| == 0 then {}
    else (if outcomes[0].Saved? then {outcomes[0].path} else {}) + SavedPaths(outcomes[1..])
  }

  /** A path is among the saved paths exactly when some outcome saved to it. */
  lemma {:induction false} SavedPathsMembers(outcomes: seq<Outcome>, p: string)
    ensures p in SavedPaths(outcomes) <==> Saved(p) in outcomes
    decreases |outcomes|
  {
    if |outcomes| > 0 {
      SavedPathsMembers(outcomes[1..], p);
      assert outcomes == [outcomes[0]] + outcomes[1..];
    }
  }

  /** The loop of `main` from a given state: one `fetch_image` per URL, in
      order, each call's seen-set and file system feeding the next. There
      is one outcome per URL, and the seen-set only grows. */
  function Run(hash: seq<byte> -> string, dir: string, pathOf: string -> string,
               urls: seq<string>, attempts: seq<Attempt>,
               seen: set<string>, files: Files): (r: Summary)
    requires |attempts| == |urls|
    ensures |r.outcomes| == |urls|
    ensures seen <= r.seen
    decreases |urls|
  {
    if |urls| == 0 then Summary([], seen, files)
    else
      var a := attempts[0];
      var f := FetchImage(hash, dir, pathOf(urls[0]), a.response, a.disk, seen, files);
      var rest := Run(hash, dir, pathOf, urls[1..], attempts[1..], f.seen, f.files);
      var outcomes := [f.outcome] + rest.outcomes;
      assert outcomes[0] == f.outcome && outcomes[1..] == rest.outcomes;
      Summary(outcomes, rest.seen, rest.files)
  }

  /** A run of at least one URL: the first URL's fetch, then the run of the
      rest from the state it left. */
  lemma RunStep(hash: seq<byte> -> string, dir: string, pathOf: string -> string,
                urls: seq<string>, attempts: seq<Attempt>, seen: set<string>, files: Files)
    requires |attempts| == |urls| > 0
    ensures var a := attempts[0];
            var f := FetchImage(hash, dir, pathOf(urls[0]), a.response, a.disk, seen, files);
            var rest := Run(hash, dir, pathOf, urls[1..], attempts[1..], f.seen, f.files);
            Run(hash, dir, pathOf, urls, attempts, seen, files)
              == Summary([f.outcome] + rest.outcomes, rest.seen, rest.files)
  {
  }

  /** A run of one URL is that URL's fetch. */
  lemma RunSingle(hash: seq<byte> -> string, dir: string, pathOf: string -> string,
                  url: string, a: Attempt, seen: set<string>, files: Files)
    ensures var f := FetchImage(hash, dir, pathOf(url), a.response, a.disk, seen, files);
            Run(hash, dir, pathOf, [url], [a], seen, files) == Summary([f.outcome], f.seen, f.files)
  {
    var f := FetchImage(hash, dir, pathOf(url), a.response, a.disk, seen, files);
    var rest := Run(hash, dir, pathOf, [url][1..], [a][1..], f.seen, f.files);
    assert [url][1..] == [] && [a][1..] == [];
    assert rest == Summary([], f.seen, f.files);
  }

  /** A run of two URLs is the second fetch started from the state the first
      one left. */
  lemma RunPair(hash: seq<byte> -> string, dir: string, pathOf: string -> string,
                u1: string, u2: string, a1: Attempt, a2: Attempt, seen: set<string>, files: Files)
    ensures var f1 := FetchImage(hash, dir, pathOf(u1), a1.response, a1.disk, seen, files);
            var f2 := FetchImage(hash, dir, pathOf(u2), a2.response, a2.disk, f1.seen, f1.files);
            Run(hash, dir, pathOf, [u1, u2], [a1, a2], seen, files)
              == Summary([f1.outcome, f2.outcome], f2.seen, f2.files)
  {
    var f1 := FetchImage(hash, dir, pathOf(u1), a1.response, a1.disk, seen, files);
    RunSingle(hash, dir, pathOf, u2, a2, f1.seen, f1.files);
    assert [u1, u2][1..] == [u2] && [a1, a2][1..] == [a2];
  }

  /** Every save adds a hash that was not yet seen, so the seen-set grows
      by exactly the number of saves, and by at most one per URL. */
  lemma {:induction false} RunSeenGrowth(hash: seq<byte> -> string, dir: string, pathOf: string -> string,
                                         urls: seq<string>, attempts: seq<Attempt>,
                                         seen: set<string>, files: Files)
    requires |attempts| == |urls|
    ensures var r := Run(hash, dir, pathOf, urls, attempts, seen, files);
            |r.seen| == |seen| + SavedCount(r.outcomes) <= |seen| + |urls|
    decreases |urls|
  {
    if |urls| > 0 {
      var a := attempts[0];
      var f := FetchImage(hash, dir, pathOf(urls[0]), a.response, a.disk, seen, files);
      var rest := Run(hash, dir, pathOf, urls[1..], attempts[1..], f.seen, f.files);
      RunSeenGrowth(hash, dir, pathOf, urls[1..], attempts[1..], f.seen, f.files);
      SeenGrowsByAtMostOne(hash, dir, pathOf(urls[0]), a.response, a.disk, seen, files);
      var outcomes := [f.outcome] + rest.outcomes;
      RunStep(hash, dir, pathOf, urls, attempts, seen, files);
      assert outcomes[0] == f.outcome && outcomes[1..] == rest.outcomes;
    }
  }

  /** The seen-set at the end of a run is the starting set plus the hashes
      of the saved bodies, and nothing else. */
  lemma {:induction false} RunSeenIsSavedHashes(hash: seq<byte> -> string, dir: string, pathOf: string -> string,
                                                urls: seq<string>, attempts: seq<Attempt>,
                                                seen: set<string>, files: Files)
    requires |attempts| == |urls|
    ensures var r := Run(hash, dir, pathOf, urls, attempts, seen, files);
            r.seen == seen + SavedHashes(hash, r.outcomes, attempts)
    decreases |urls|
  {
    if |urls| > 0 {
      var a := attempts[0];
      var f := FetchImage(hash, dir, pathOf(urls[0]), a.response, a.disk, seen, files);
      var rest := Run(hash, dir, pathOf, urls[1..], attempts[1..], f.seen, f.files);
      RunSeenIsSavedHashes(hash, dir, pathOf, urls[1..], attempts[1..], f.seen, f.files);
      var outcomes := [f.outcome] + rest.outcomes;
      RunStep(hash, dir, pathOf, urls, attempts, seen, files);
      assert outcomes[0] == f.outcome && outcomes[1..] == rest.outcomes;
      var added := if f.outcome.Saved? then {hash(a.response.body)} else {};
      assert f.seen == seen + added;
      assert SavedHashes(hash, outcomes, attempts) == added + SavedHashes(hash, rest.outcomes, attempts[1..]);
    }
  }

  /** `after` differs from `before` at most at the paths in `touched`, and
      has every one of those paths. */
  predicate OnlyTouches(before: Files, after: Files, touched: set<string>) {
    && after.Keys == before.Keys + touched
    && forall k :: k in before && k !in touched ==> after[k] == before[k]
  }

  lemma UntouchedKept(before: Files, after: Files, touched: set<string>, p: string)
    requires OnlyTouches(before, after, touched)
    requires p in before && p !in touched
    ensures p in after && after[p] == before[p]
  {
  }

  lemma OnlyTouchesCompose(x: Files, y: Files, z: Files, t1: set<string>, t2: set<string>)
    requires OnlyTouches(x, y, t1) && OnlyTouches(y, z, t2)
    ensures OnlyTouches(x, z, t1 + t2)
  {
  }

  /** A run writes only the paths of its saves: every other file keeps its
      presence and its contents, and no other file appears. */
  lemma {:induction false} RunTouchesOnlySavedPaths(hash: seq<byte> -> string, dir: string, pathOf: string -> string,
                                                    urls: seq<string>, attempts: seq<Attempt>,
                                                    seen: set<string>, files: Files)
    requires |attempts| == |urls|
    ensures var r := Run(hash, dir, pathOf, urls, attempts, seen, files);
            OnlyTouches(files, r.files, SavedPaths(r.outcomes))
    decreases |urls|
  {
    if |urls| > 0 {
      var a := attempts[0];
      var f := FetchImage(hash, dir, pathOf(urls[0]), a.response, a.disk, seen, files);
      var rest := Run(hash, dir, pathOf, urls[1..], attempts[1..], f.seen, f.files);
      RunTouchesOnlySavedPaths(hash, dir, pathOf, urls[1..], attempts[1..], f.seen, f.files);
      var outcomes := [f.outcome] + rest.outcomes;
      RunStep(hash, dir, pathOf, urls, attempts, seen, files);
      assert outcomes[0] == f.outcome && outcomes[1..] == rest.outcomes;
      var written := if f.outcome.Saved? then {f.outcome.path} else {};
      assert OnlyTouches(files, f.files, written);
      OnlyTouchesCompose(files, f.files, rest.files, written, SavedPaths(rest.outcomes));
      assert SavedPaths(outcomes) == written + SavedPaths(rest.outcomes);
    }
  }

  /** Every save of a run is of an image response that got past the
      directory and content-type checks, written to the path derived from
      its own URL. */
  lemma {:induction false} RunSavesAtTargets(hash: seq<byte> -> string, dir: string, pathOf: string -> string,
                                             urls: seq<string>, attempts: seq<Attempt>,
                                             seen: set<string>, files: Files)
    requires |attempts| == |urls|
    ensures var r := Run(hash, dir, pathOf, urls, attempts, seen, files);
            forall i :: 0 <= i < |urls| && r.outcomes[i].Saved? ==>
              && ReachesHashCheck(dir, attempts[i].response, attempts[i].disk)
              && r.outcomes[i].path == TargetPath(dir, pathOf(urls[i]))
    decreases |urls|
  {
    if |urls| > 0 {
      var a := attempts[0];
      var f := FetchImage(hash, dir, pathOf(urls[0]), a.response, a.disk, seen, files);
      var rest := Run(hash, dir, pathOf, urls[1..], attempts[1..], f.seen, f.files);
      RunSavesAtTargets(hash, dir, pathOf, urls[1..], attempts[1..], f.seen, f.files);
      var outcomes := [f.outcome] + rest.outcomes;
      RunStep(hash, dir, pathOf, urls, attempts, seen, files);
      forall i | 1 <= i < |urls|
        ensures outcomes[i] == rest.outcomes[i - 1]
        ensures urls[i] == urls[1..][i - 1] && attempts[i] == attempts[1..][i - 1]
      { }
    }
  }

  /** The outside world's behaviour for the first `n` fetches of a session,
      given as what it does on the `i`-th fetch. */
  function Attempts(attemptAt: nat -> Attempt, n: nat): (a: seq<Attempt>)
    ensures |a| == n
    ensures forall i :: 0 <= i < n ==> a[i] == attemptAt(i)
  {
    seq(n, i requires 0 <= i => attemptAt(i))
  }

  /** `main` for one input line: the run over the parsed URLs into the
      default directory, starting from an empty seen-set, the `i`-th fetch
      meeting `attemptAt(i)`. */
  function Session(hash: seq<byte> -> string, pathOf: string -> string, line: string,
                   attemptAt: nat -> Attempt, files: Files): (r: Summary)
    ensures |r.outcomes| == |ParseUrls(line)|
  {
    var urls := ParseUrls(line);
    Run(hash, DefaultDir, pathOf, urls, Attempts(attemptAt, |urls|), {}, files)
  }

  /** What one input line does as a whole: the seen-set ends up holding
      exactly the hashes of the saved bodies, one per save, so a line of `n`
      URLs saves at most `n` files; and only the saved paths change on disk. */
  lemma SessionSummary(hash: seq<byte> -> string, pathOf: string -> string, line: string,
                       attemptAt: nat -> Attempt, files: Files)
    ensures var urls := ParseUrls(line);
            var r := Session(hash, pathOf, line, attemptAt, files);
            && |r.seen| == SavedCount(r.outcomes) <= |urls|
            && r.seen == SavedHashes(hash, r.outcomes, Attempts(attemptAt, |urls|))
            && OnlyTouches(files, r.files, SavedPaths(r.outcomes))
  {
    var urls := ParseUrls(line);
    var attempts := Attempts(attemptAt, |urls|);
    RunSeenGrowth(hash, DefaultDir, pathOf, urls, attempts, {}, files);
    RunSeenIsSavedHashes(hash, DefaultDir, pathOf, urls, attempts, {}, files);
    RunTouchesOnlySavedPaths(hash, DefaultDir, pathOf, urls, attempts, {}, files);
  }

  // ---------------------------------------------------------------------------
  // Properties of whole runs
  // ---------------------------------------------------------------------------

  /** A hash already in the seen-set blocks every later fetch of a body with
      that hash which gets as far as the duplicate check. */
  lemma {:induction false} SeenHashIsDuplicate(hash: seq<byte> -> string, dir: string, pathOf: string -> string,
                                               urls: seq<string>, attempts: seq<Attempt>,
                                               seen: set<string>, files: Files, j: nat)
    requires |attempts| == |urls|
    requires j < |urls|
    requires ReachesHashCheck(dir, attempts[j].response, attempts[j].disk)
    requires hash(attempts[j].response.body) in seen
    ensures Run(hash, dir, pathOf, urls, attempts, seen, files).outcomes[j] == Duplicate
    decreases j
  {
    var a := attempts[0];
    var f := FetchImage(hash, dir, pathOf(urls[0]), a.response, a.disk, seen, files);
    var rest := Run(hash, dir, pathOf, urls[1..], attempts[1..], f.seen, f.files);
    RunStep(hash, dir, pathOf, urls, attempts, seen, files);
    if j > 0 {
      assert attempts[j] == attempts[1..][j - 1];
      SeenHashIsDuplicate(hash, dir, pathOf, urls[1..], attempts[1..], f.seen, f.files, j - 1);
    }
  }

  /** Once a body is saved, a later body with the same hash that reaches the
      duplicate check is reported `Duplicate` and not written. */
  lemma {:induction false} SavedHashIsDuplicateLater(hash: seq<byte> -> string, dir: string, pathOf: string -> string,
                                                     urls: seq<string>, attempts: seq<Attempt>,
                                                     seen: set<string>, files: Files, i: nat, j: nat)
    requires |attempts| == |urls|
    requires i < j < |urls|
    ensures var r := Run(hash, dir, pathOf, urls, attempts, seen, files);
            // (the save implies the response was `Ok`; the conjunct makes `body` defined)
            r.outcomes[i].Saved? && attempts[i].response.Ok?
            && ReachesHashCheck(dir, attempts[j].response, attempts[j].disk)
            && hash(attempts[j].response.body) == hash(attempts[i].response.body)
            ==> r.outcomes[j] == Duplicate
    decreases i
  {
    var a := attempts[0];
    var f := FetchImage(hash, dir, pathOf(urls[0]), a.response, a.disk, seen, files);
    var rest := Run(hash, dir, pathOf, urls[1..], attempts[1..], f.seen, f.files);
    var r := Run(hash, dir, pathOf, urls, attempts, seen, files);
    RunStep(hash, dir, pathOf, urls, attempts, seen, files);
    assert r.outcomes[j] == rest.outcomes[j - 1] && attempts[j] == attempts[1..][j - 1];
    if i == 0 {
      if && r.outcomes[0].Saved? && a.response.Ok?
         && ReachesHashCheck(dir, attempts[j].response, attempts[j].disk)
         && hash(attempts[j].response.body) == hash(a.response.body)
      {
        SeenHashIsDuplicate(hash, dir, pathOf, urls[1..], attempts[1..], f.seen, f.files, j - 1);
      }
    } else {
      assert r.outcomes[i] == rest.outcomes[i - 1] && attempts[i] == attempts[1..][i - 1];
      SavedHashIsDuplicateLater(hash, dir, pathOf, urls[1..], attempts[1..], f.seen, f.files, i - 1, j - 1);
    }
  }

  /** No two saves of one run share a content hash: equal bodies (indeed
      equal hashes) leave at most one file. */
  lemma SavedHashesDistinct(hash: seq<byte> -> string, dir: string, pathOf: string -> string,
                            urls: seq<string>, attempts: seq<Attempt>,
                            seen: set<string>, files: Files, i: nat, j: nat)
    requires |attempts| == |urls|
    requires i < j < |urls|
    requires Run(hash, dir, pathOf, urls, attempts, seen, files).outcomes[i].Saved?
    requires Run(hash, dir, pathOf, urls, attempts, seen, files).outcomes[j].Saved?
    ensures attempts[i].response.Ok? && attempts[j].response.Ok?
    ensures hash(attempts[i].response.body) != hash(attempts[j].response.body)
  {
    RunSavesAtTargets(hash, dir, pathOf, urls, attempts, seen, files);
    if hash(attempts[i].response.body) == hash(attempts[j].response.body) {
      SavedHashIsDuplicateLater(hash, dir, pathOf, urls, attempts, seen, files, i, j);
    }
  }

  /** Files are overwritten without a check: the file at a saved path holds
      the body of the last save to that path. */
  lemma {:induction false} LastSaveWins(hash: seq<byte> -> string, dir: string, pathOf: string -> string,
                                        urls: seq<string>, attempts: seq<Attempt>,
                                        seen: set<string>, files: Files, i: nat)
    requires |attempts| == |urls|
    requires i < |urls|
    requires Run(hash, dir, pathOf, urls, attempts, seen, files).outcomes[i].Saved?
    requires forall j :: i < j < |urls| ==>
               Run(hash, dir, pathOf, urls, attempts, seen, files).outcomes[j]
                 != Run(hash, dir, pathOf, urls, attempts, seen, files).outcomes[i]
    ensures var r := Run(hash, dir, pathOf, urls, attempts, seen, files);
            && attempts[i].response.Ok?
            && r.outcomes[i].path in r.files
            && r.files[r.outcomes[i].path] == attempts[i].response.body
    decreases i
  {
    var r := Run(hash, dir, pathOf, urls, attempts, seen, files);
    var a := attempts[0];
    var f := FetchImage(hash, dir, pathOf(urls[0]), a.response, a.disk, seen, files);
    var rest := Run(hash, dir, pathOf, urls[1..], attempts[1..], f.seen, f.files);
    RunStep(hash, dir, pathOf, urls, attempts, seen, files);
    if i == 0 {
      assert Saved(f.outcome.path) !in rest.outcomes by {
        forall j | 0 <= j < |rest.outcomes| ensures rest.outcomes[j] != f.outcome {
          assert rest.outcomes[j] == r.outcomes[j + 1];
        }
      }
      RunTouchesOnlySavedPaths(hash, dir, pathOf, urls[1..], attempts[1..], f.seen, f.files);
      SavedPathsMembers(rest.outcomes, f.outcome.path);
      UntouchedKept(f.files, rest.files, SavedPaths(rest.outcomes), f.outcome.path);
    } else {
      assert r.outcomes[i] == rest.outcomes[i - 1] && attempts[i] == attempts[1..][i - 1];
      forall j | i - 1 < j < |urls| - 1 ensures rest.outcomes[j] != rest.outcomes[i - 1] {
        assert rest.outcomes[j] == r.outcomes[j + 1];
      }
      LastSaveWins(hash, dir, pathOf, urls[1..], attempts[1..], f.seen, f.files, i - 1);
    }
  }

  // ---------------------------------------------------------------------------
  // The two-URL example
  // ---------------------------------------------------------------------------

  lemma SplitUrlPair(url: string)
    requires ',' !in url
    ensures Split(url + ", " + url, ',') == [url, " " + url]
  {
    var pieces := [url, " " + url];
    assert Join(pieces, ',') == url + ", " + url;
    assert ',' !in " " + url by {
      forall k | 0 <= k < |" " + url| ensures (" " + url)[k] != ',' {
        if k > 0 { assert (" " + url)[k] == url[k - 1]; }
      }
    }
    SplitJoin(pieces, ',');
  }

  lemma CleanUrlPair(url: string)
    requires url != "" && Trimmed(url)
    ensures Clean([url, " " + url]) == [url, url]
  {
    StripTrimmed(url);
    CleanSingleton(url);
    CleanSingleton(" " + url);
    assert [url, " " + url] == [url] + [" " + url];
    CleanAppend([url], [" " + url]);
  }

  /** A URL typed twice, separated by a comma and a space, parses into that
      URL twice. */
  lemma ParseSameUrlTwice(url: string)
    requires url != "" && Trimmed(url) && ',' !in url
    ensures ParseUrls(url + ", " + url) == [url, url]
  {
    SplitUrlPair(url);
    CleanUrlPair(url);
  }

  /** Fetching the same image URL twice from an empty seen-set saves it
      once, at its target path in `dir`, and reports the second fetch as a
      duplicate. */
  lemma RunSameUrlTwice(hash: seq<byte> -> string, dir: string, pathOf: string -> string, url: string,
                        contentType: string, body: seq<byte>, files: Files)
    requires dir != "" && '\0' !in dir
    requires IsImage(contentType)
    requires Openable(Filename(pathOf(url)))
    ensures var ok := Attempt(Ok(contentType, body), Disk(true, true));
            var r := Run(hash, dir, pathOf, [url, url], [ok, ok], {}, files);
            && r.outcomes == [Saved(TargetPath(dir, pathOf(url))), Duplicate]
            && r.seen == {hash(body)}
            && r.files == files[TargetPath(dir, pathOf(url)) := body]
  {
    var ok := Attempt(Ok(contentType, body), Disk(true, true));
    RunPair(hash, dir, pathOf, url, url, ok, ok, {}, files);
  }

  /** A line that parses into the same image URL twice saves that image
      once, into the default directory under its derived name, and reports
      the second fetch as a duplicate. */
  lemma SessionOfSameUrlTwice(hash: seq<byte> -> string, pathOf: string -> string, url: string, line: string,
                              contentType: string, body: seq<byte>, files: Files)
    requires ParseUrls(line) == [url, url]
    requires IsImage(contentType)
    requires Openable(Filename(pathOf(url)))
    ensures var ok := Attempt(Ok(contentType, body), Disk(true, true));
            var r := Session(hash, pathOf, line, _ => ok, files);
            && r.outcomes == [Saved(TargetPath(DefaultDir, pathOf(url))), Duplicate]
            && r.seen == {hash(body)}
            && r.files == files[TargetPath(DefaultDir, pathOf(url)) := body]
  {
    var ok := Attempt(Ok(contentType, body), Disk(true, true));
    assert Attempts(_ => ok, 2) == [ok, ok];
    DefaultDirIsValid();
    RunSameUrlTwice(hash, DefaultDir, pathOf, url, contentType, body, files);
  }

  /** A line holding the same image URL twice, as in
      `"https://example.com/a.png, https://example.com/a.png"`: the image
      is saved once and reported as a duplicate the second time, leaving
      exactly one hash in the seen-set and one new file. */
  lemma SameUrlTwice(hash: seq<byte> -> string, pathOf: string -> string, url: string,
                     contentType: string, body: seq<byte>, files: Files)
    requires url != "" && Trimmed(url) && ',' !in url
    requires IsImage(contentType)
    requires Openable(Filename(pathOf(url)))
    ensures var ok := Attempt(Ok(contentType, body), Disk(true, true));
            var r := Session(hash, pathOf, url + ", " + url, _ => ok, files);
            && r.outcomes == [Saved(TargetPath(DefaultDir, pathOf(url))), Duplicate]
            && r.seen == {hash(body)}
            && r.files == files[TargetPath(DefaultDir, pathOf(url)) := body]
  {
    ParseSameUrlTwice(url);
    SessionOfSameUrlTwice(hash, pathOf, url, url + ", " + url, contentType, body, files);
  }
}
