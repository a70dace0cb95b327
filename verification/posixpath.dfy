/** The two `os.path` operations the fetcher uses, with POSIX semantics
    (`posixpath`): `basename` and two-component `join`. */
module PosixPath {

  /** The length of the longest `/`-free suffix of `p`: how far the scan
      back from the end for a `/` gets. */
  function TailLen(p: string): (n: nat)
    ensures n <= |p|
    ensures forall k :: |p| - n <= k < |p| ==> p[k] != '/'
    ensures n < |p| ==> p[|p| - n - 1] == '/'
  {
    if |p| > 0 && p[|p| - 1] != '/' then
      var q := p[..|p| - 1];
      var n := 1 + TailLen(q);
      assert forall k :: |p| - n <= k < |p| - 1 ==> p[k] == q[k];
      n
    else 0
  }

  /** `os.path.basename(p)`: the part of `p` after its last `/`, or all of
      `p` when it has no `/`. It is empty exactly when `p` is empty or ends
      with `/`. */
  function Basename(p: string): (r: string)
    ensures '/' !in r
    ensures r == "" <==> p == "" || p[|p| - 1] == '/'
  {
    var r := p[|p| - TailLen(p)..];
    assert forall k :: 0 <= k < |r| ==> r[k] == p[|p| - |r| + k];
    assert r != "" ==> r[|r| - 1] == p[|p| - 1];
    r
  }

  /** The basename is the longest `/`-free suffix: a suffix of `p` that is
      either all of `p` or preceded by a `/`. */
  lemma BasenameIsLastSegment(p: string)
    ensures var r := Basename(p);
            && |r| <= |p| && r == p[|p| - |r|..]
            && (|r| < |p| ==> p[|p| - |r| - 1] == '/')
  {
  }

  /** `os.path.join(a, b)`: an absolute `b` replaces `a`; otherwise `b` is
      appended, with a `/` in between unless `a` is empty or already ends
      with one. */
  function Join(a: string, b: string): string {
    if |b| > 0 && b[0] == '/' then b
    else if a == "" || a[|a| - 1] == '/' then a + b
    else a + "/" + b
  }

  lemma {:induction false} TailLenUnique(p: string, n: nat)
    requires n <= |p|
    requires forall k :: |p| - n <= k < |p| ==> p[k] != '/'
    requires n < |p| ==> p[|p| - n - 1] == '/'
    ensures TailLen(p) == n
    decreases n
  {
    if n > 0 {
      var q := p[..|p| - 1];
      assert forall k :: |q| - (n - 1) <= k < |q| ==> q[k] == p[k];
      assert n - 1 < |q| ==> q[|q| - (n - 1) - 1] == p[|p| - n - 1];
      TailLenUnique(q, n - 1);
    }
  }

  lemma BasenameAfterSlash(a: string, b: string)
    requires a == "" || a[|a| - 1] == '/'
    requires '/' !in b
    ensures Basename(a + b) == b
  {
    var p := a + b;
    assert forall k :: |a| <= k < |p| ==> p[k] == b[k - |a|];
    assert |b| < |p| ==> p[|p| - |b| - 1] == a[|a| - 1];
    TailLenUnique(p, |b|);
    assert p[|a|..] == b;
  }

  /** Joining a directory with a `/`-free name and taking the basename gives
      the name back, so distinct names land on distinct paths of the same
      directory. */
  lemma BasenameOfJoin(dir: string, name: string)
    requires '/' !in name
    ensures Basename(Join(dir, name)) == name
  {
    if dir == "" || dir[|dir| - 1] == '/' {
      BasenameAfterSlash(dir, name);
    } else {
      assert dir + "/" + name == (dir + "/") + name;
      BasenameAfterSlash(dir + "/", name);
    }
  }

  lemma JoinInjective(dir: string, n1: string, n2: string)
    requires '/' !in n1 && '/' !in n2
    ensures Join(dir, n1) == Join(dir, n2) <==> n1 == n2
  {
    BasenameOfJoin(dir, n1);
    BasenameOfJoin(dir, n2);
  }
}
