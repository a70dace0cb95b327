/** The fragment of Python's built-in `str` that the fetcher relies on:
    `split` on a one-character separator, argument-less `strip()`, and
    `startswith`. Strings are sequences of Unicode scalar values. A Python
    `str` may also hold lone surrogates (from `input()` under
    `surrogateescape`, say); no result here depends on them, because a
    surrogate is never whitespace, `,` or `/`. */
module PyStr {

  /** Python's `str.isspace()` for one character: exactly the characters a
      bare `strip()` removes. */
  predicate IsSpace(c: char) {
    || ('\t' <= c <= '\r')
    || ('\U{1C}' <= c <= ' ')
    || c == '\U{85}' || c == '\U{A0}' || c == '\U{1680}'
    || ('\U{2000}' <= c <= '\U{200A}')
    || c == '\U{2028}' || c == '\U{2029}' || c == '\U{202F}'
    || c == '\U{205F}' || c == '\U{3000}'
  }

  predicate AllSpace(s: string) {
    forall k :: 0 <= k < |s| ==> IsSpace(s[k])
  }

  /** True when `s` neither starts nor ends with whitespace (the empty string
      included): the shape of everything `strip()` returns. */
  predicate Trimmed(s: string) {
    s == "" || (!IsSpace(s[0]) && !IsSpace(s[|s| - 1]))
  }

  /** `s.startswith(prefix)`, which compares characters exactly. */
  predicate StartsWith(s: string, prefix: string) {
    |prefix| <= |s| && s[..|prefix|] == prefix
  }

  /** The number of whitespace characters `s` starts with: where the
      left-hand scan of `strip()` stops. */
  function Lead(s: string): (n: nat)
    ensures n <= |s|
    ensures forall k :: 0 <= k < n ==> IsSpace(s[k])
    ensures n < |s| ==> !IsSpace(s[n])
  {
    if |s| > 0 && IsSpace(s[0]) then
      var t := s[1..];
      var n := 1 + Lead(t);
      assert forall k :: 1 <= k < n ==> s[k] == t[k - 1];
      n
    else 0
  }

  /** The number of whitespace characters `s` ends with: where the
      right-hand scan of `strip()` stops. */
  function Trail(s: string): (n: nat)
    ensures n <= |s|
    ensures forall k :: |s| - n <= k < |s| ==> IsSpace(s[k])
    ensures n < |s| ==> !IsSpace(s[|s| - n - 1])
  {
    if |s| > 0 && IsSpace(s[|s| - 1]) then
      var t := s[..|s| - 1];
      var n := 1 + Trail(t);
      assert forall k :: |s| - n <= k < |s| - 1 ==> s[k] == t[k];
      n
    else 0
  }

  /** Where the slice `strip()` keeps ends: after the leading whitespace,
      scan back from the end over trailing whitespace. Everything from here
      on is whitespace, and the character just before is not (unless the
      kept slice is empty). */
  function StripEnd(s: string): (j: nat)
    ensures Lead(s) <= j <= |s|
    ensures forall k :: j <= k < |s| ==> IsSpace(s[k])
    ensures Lead(s) < j ==> !IsSpace(s[j - 1])
  {
    var i := Lead(s);
    var t := s[i..];
    var j := i + |t| - Trail(t);
    assert forall k :: j <= k < |s| ==> s[k] == t[k - i];
    assert i < j ==> s[j - 1] == t[|t| - Trail(t) - 1];
    j
  }

  /** `s.strip()`: `s` with its leading and trailing whitespace removed. The
      result neither starts nor ends with whitespace. */
  function Strip(s: string): (r: string)
    ensures Trimmed(r)
  {
    var r := s[Lead(s)..StripEnd(s)];
    assert r != "" ==> r[0] == s[Lead(s)] && r[|r| - 1] == s[StripEnd(s) - 1];
    r
  }

  /** Number of occurrences of `c` in `s`. */
  function Count(s: string, c: char): nat {
    if |s| == 0 then 0 else (if s[0] == c then 1 else 0) + Count(s[1..], c)
  }

  /** `sep.join(pieces)`. */
  function Join(pieces: seq<string>, sep: char): string {
    if |pieces| == 0 then ""
    else if |pieces| == 1 then pieces[0]
    else pieces[0] + [sep] + Join(pieces[1..], sep)
  }

  /** `s.split(sep)` for a one-character separator: the maximal separator-free
      pieces between occurrences of `sep`, one more piece than there are
      separators (so `"".split(",")` is `[""]`), joining back to `s`. */
  function Split(s: string, sep: char): (r: seq<string>)
    ensures |r| == Count(s, sep) + 1
    ensures forall p <- r :: sep !in p
    ensures Join(r, sep) == s
  {
    if |s| == 0 then [""]
    else
      var rest := Split(s[1..], sep);
      if s[0] == sep then
        assert s == [sep] + s[1..];
        [""] + rest
      else
        var r := [[s[0]] + rest[0]] + rest[1..];
        assert r[1..] == rest[1..];
        assert s == [s[0]] + s[1..];
        r
  }

  // ---------------------------------------------------------------------------
  // Strip is determined by its contract
  // ---------------------------------------------------------------------------

  /** The scan counts are the only counts with their defining property. */
  lemma {:induction false} LeadUnique(s: string, n: nat)
    requires n <= |s|
    requires forall k :: 0 <= k < n ==> IsSpace(s[k])
    requires n < |s| ==> !IsSpace(s[n])
    ensures Lead(s) == n
    decreases n
  {
    if n > 0 {
      var t := s[1..];
      assert forall k :: 0 <= k < n - 1 ==> t[k] == s[k + 1];
      assert n - 1 < |t| ==> t[n - 1] == s[n];
      LeadUnique(t, n - 1);
    }
  }

  lemma {:induction false} TrailUnique(s: string, n: nat)
    requires n <= |s|
    requires forall k :: |s| - n <= k < |s| ==> IsSpace(s[k])
    requires n < |s| ==> !IsSpace(s[|s| - n - 1])
    ensures Trail(s) == n
    decreases n
  {
    if n > 0 {
      var t := s[..|s| - 1];
      assert forall k :: |t| - (n - 1) <= k < |t| ==> t[k] == s[k];
      assert n - 1 < |t| ==> t[|t| - (n - 1) - 1] == s[|s| - n - 1];
      TrailUnique(t, n - 1);
    }
  }

  /** Reference characterisation of `strip()`: whatever is wrapped in
      whitespace on both sides, and neither starts nor ends with whitespace
      itself, is what `strip()` recovers. */
  lemma StripUnique(a: string, m: string, b: string)
    requires AllSpace(a) && AllSpace(b) && Trimmed(m)
    ensures Strip(a + m + b) == m
  {
    var s := a + m + b;
    assert forall k :: 0 <= k < |a| ==> s[k] == a[k];
    assert forall k :: |a| + |m| <= k < |s| ==> s[k] == b[k - |a| - |m|];
    if m == "" {
      LeadUnique(s, |s|);
    } else {
      assert s[|a|] == m[0];
      LeadUnique(s, |a|);
      var t := s[|a|..];
      assert t == m + b;
      assert forall k :: |m| <= k < |t| ==> t[k] == b[k - |m|];
      assert t[|m| - 1] == m[|m| - 1];
      TrailUnique(t, |b|);
      assert s[|a|..|a| + |m|] == m;
    }
  }

  lemma AllSpaceSlice(s: string, lo: nat, hi: nat)
    requires lo <= hi <= |s|
    requires forall k :: lo <= k < hi ==> IsSpace(s[k])
    ensures AllSpace(s[lo..hi])
  {
    forall k | 0 <= k < hi - lo ensures IsSpace(s[lo..hi][k]) {
      assert s[lo..hi][k] == s[lo + k];
    }
  }

  /** Whitespace before `i` and from `j` on, as two `AllSpace` slices. */
  lemma SpaceAround(s: string, i: nat, j: nat)
    requires i <= j <= |s|
    requires forall k :: 0 <= k < i ==> IsSpace(s[k])
    requires forall k :: j <= k < |s| ==> IsSpace(s[k])
    ensures AllSpace(s[..i]) && AllSpace(s[j..])
  {
    AllSpaceSlice(s, 0, i);
    assert s[..i] == s[0..i];
    AllSpaceSlice(s, j, |s|);
    assert s[j..] == s[j..|s|];
  }

  /** `s.strip()` is the slice of `s` that starts after the leading
      whitespace and is followed by whitespace only. */
  lemma StripIsSlice(s: string)
    ensures var i := Lead(s);
            var r := Strip(s);
            && i + |r| <= |s| && r == s[i..i + |r|]
            && forall k :: i + |r| <= k < |s| ==> IsSpace(s[k])
  {
    assert Lead(s) + |Strip(s)| == StripEnd(s);
  }

  /** Conversely, `strip()` only cuts whitespace: `s` is the result wrapped
      in whitespace on both sides. */
  lemma StripRemovesOnlySpace(s: string)
    ensures var r := Strip(s);
            var i := Lead(s);
            && i + |r| <= |s|
            && r == s[i..i + |r|]
            && AllSpace(s[..i]) && AllSpace(s[i + |r|..])
  {
    StripIsSlice(s);
    SpaceAround(s, Lead(s), Lead(s) + |Strip(s)|);
  }

  /** `s.strip()` is empty exactly when `s` is all whitespace. */
  lemma StripEmptyIffAllSpace(s: string)
    ensures Strip(s) == "" <==> AllSpace(s)
  {
    var i := Lead(s);
    if Strip(s) == "" {
      StripRemovesOnlySpace(s);
      assert i == |s|;
      forall k | 0 <= k < |s| ensures IsSpace(s[k]) {
        assert s[k] == s[..i][k];
      }
    } else {
      assert Strip(s)[0] == s[i];
    }
  }

  /** Stripping only removes characters: a character absent from `s` is
      absent from `s.strip()`. */
  lemma StripKeepsCharOut(s: string, c: char)
    requires c !in s
    ensures c !in Strip(s)
  {
    var i := Lead(s);
    var r := Strip(s);
    StripIsSlice(s);
    assert forall k :: 0 <= k < |r| ==> r[k] == s[i + k];
  }

  /** Stripping a trimmed string, or one with a single leading space,
      gives the trimmed string. */
  lemma StripTrimmed(s: string)
    requires Trimmed(s)
    ensures Strip(s) == s
    ensures Strip(" " + s) == s
  {
    assert "" + s + "" == s;
    StripUnique("", s, "");
    assert " " + s + "" == " " + s;
    StripUnique(" ", s, "");
  }

  /** `s.strip().strip() == s.strip()`. */
  lemma StripIdempotent(s: string)
    ensures Strip(Strip(s)) == Strip(s)
  {
    StripTrimmed(Strip(s));
  }

  // ---------------------------------------------------------------------------
  // Split and Join are inverse
  // ---------------------------------------------------------------------------

  lemma {:induction false} SplitSeparatorFreePrefix(p: string, t: string, sep: char)
    requires sep !in p
    ensures Split(p + t, sep) == [p + Split(t, sep)[0]] + Split(t, sep)[1..]
    decreases |p|
  {
    if |p| == 0 {
      assert p + t == t;
      assert p + Split(t, sep)[0] == Split(t, sep)[0];
      assert [Split(t, sep)[0]] + Split(t, sep)[1..] == Split(t, sep);
    } else {
      assert (p + t)[1..] == p[1..] + t;
      assert (p + t)[0] == p[0];
      SplitSeparatorFreePrefix(p[1..], t, sep);
      assert [p[0]] + (p[1..] + Split(t, sep)[0]) == p + Split(t, sep)[0];
    }
  }

  /** Splitting the separator-joined list of separator-free pieces gives the
      pieces back: together with `Split`'s own contract, `Split` and `Join`
      are mutually inverse. */
  lemma {:induction false} SplitJoin(pieces: seq<string>, sep: char)
    requires |pieces| >= 1
    requires forall p <- pieces :: sep !in p
    ensures Split(Join(pieces, sep), sep) == pieces
    decreases |pieces|
  {
    var p := pieces[0];
    if |pieces| == 1 {
      SplitSeparatorFreePrefix(p, "", sep);
      assert p + "" == p;
      assert Split("", sep) == [""];
      assert pieces == [p];
    } else {
      var rest := Join(pieces[1..], sep);
      SplitJoin(pieces[1..], sep);
      assert p + [sep] + rest == p + ([sep] + rest);
      SplitSeparatorFreePrefix(p, [sep] + rest, sep);
      assert ([sep] + rest)[1..] == rest;
      assert Split([sep] + rest, sep) == [""] + pieces[1..];
      assert p + "" == p;
      assert pieces == [p] + pieces[1..];
    }
  }
  /** Joining two non-empty lists is joining each and putting one separator
      between them. */
  lemma {:induction false} JoinAppend(xs: seq<string>, ys: seq<string>, sep: char)
    requires |xs| >= 1 && |ys| >= 1
    ensures Join(xs + ys, sep) == Join(xs, sep) + [sep] + Join(ys, sep)
    decreases |xs|
  {
    var zs := xs + ys;
    assert zs[0] == xs[0];
    if |xs| == 1 {
      assert zs[1..] == ys;
    } else {
      assert zs[1..] == xs[1..] + ys;
      JoinAppend(xs[1..], ys, sep);
    }
  }

  /** Splitting at a separator occurrence: the pieces of the text before it
      followed by the pieces of the text after it. */
  lemma SplitAppend(a: string, b: string, sep: char)
    ensures Split(a + [sep] + b, sep) == Split(a, sep) + Split(b, sep)
  {
    var xs := Split(a, sep);
    var ys := Split(b, sep);
    JoinAppend(xs, ys, sep);
    assert forall p <- xs + ys :: sep !in p;
    SplitJoin(xs + ys, sep);
  }
}
