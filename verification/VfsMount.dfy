/** Finding the mount point of a path. */
module VfsMount {
  import opened Basics
  import opened VfsPaths

  /** a is what b begins with; stated over whole lists of components. */
  predicate Leads(a: seq<Path>, b: seq<Path>) {
    |a| <= |b| && b[..|a|] == a
  }

  lemma LeadsAppended(done: seq<Path>, a: seq<Path>, b: seq<Path>)
    ensures Leads(done + a, done + b) <==> Leads(a, b)
  {
    if Leads(a, b) {
      assert (done + b)[..|done + a|] == done + b[..|a|];
    }
    if Leads(done + a, done + b) {
      assert forall k | 0 <= k < |a| :: (done + b)[..|done + a|][|done| + k] == b[k];
    }
  }

  /** The names done have been matched; the rest of both strings is still to be compared. */
  ghost predicate Walked(mPath: Path, m: nat, path: Path, i: nat, done: seq<Path>) {
    && m <= |mPath| && i <= |path|
    && Components(mPath) == done + Components(mPath[m..])
    && Components(path) == done + Components(path[i..])
  }

  /** strncmp finds the same n characters at both places. */
  predicate SameChars(mPath: Path, m: nat, path: Path, i: nat, n: nat)
    requires m + n <= |mPath| && i <= |path|
  {
    i + n <= |path| && path[i..i + n] == mPath[m..m + n]
  }

  predicate AtBoundary(path: Path, i: nat) {
    i < |path| ==> path[i] == '/'
  }

  /** Whether the names of a mount point begin the names of the path, how many characters
      they have, and where in the path the other names begin. */
  ghost predicate Measured(mPath: Path, path: Path, r: Option<(nat, nat)>) {
    && (r.Some? <==> Leads(Components(mPath), Components(path)))
    && (r.Some? ==> r.value.0 == Total(Components(mPath)) && r.value.1 <= |path|)
    && (r.Some? ==> Components(path) == Components(mPath) + Components(path[r.value.1..]))
  }

  /** One mount point against the path: how many characters of names match and where in the
      path what is left of it begins. */
  method MatchMount(mPath: Path, path: Path) returns (r: Option<(nat, nat)>)
    ensures Measured(mPath, path, r)
  {
    assert Total([]) == 0;
    hide Components, SkipSlashes, ComponentLen, Leads, Total, Walked, AtBoundary, SameChars, Skips, Ends, Measured;
    var m: nat, i: nat, matches := 0, 0, 0;
    ghost var done: seq<Path> := [];
    StartWalk(mPath, path);
    while true
      invariant m <= |mPath| && i <= |path|
      invariant Walked(mPath, m, path, i, done)
      invariant matches == Total(done)
      decreases |mPath| - m
    {
      ghost var m0, i0 := m, i;
      m := SkipTo(mPath, m);
      i := SkipTo(path, i);
      Skipped(mPath, m0, m, path, i0, i, done);
      var t := FindSlash(mPath, m);
      if t == m {
        break;
      }
      var n := t - m;
      if !SameChars(mPath, m, path, i, n) {
        Differs(mPath, m, path, i, n, done);
        return None;
      }
      if !AtBoundary(path, i + n) {
        Differs(mPath, m, path, i, n, done);
        return None;
      }
      done := Advance(mPath, m, path, i, n, done);
      i := i + n;
      matches := matches + n;
      m := t;
      if m == |mPath| {
        break;
      }
    }
    EndWalk(mPath, m, path, i, done);
    return Some((matches, i));
  }

  lemma StartWalk(mPath: Path, path: Path)
    ensures Walked(mPath, 0, path, 0, [])
  {
    hide Components;
    assert mPath[0..] == mPath && path[0..] == path;
  }

  lemma Skipped(mPath: Path, m0: nat, m: nat, path: Path, i0: nat, i: nat, done: seq<Path>)
    requires Walked(mPath, m0, path, i0, done) && m <= |mPath| && i <= |path|
    requires Skips(mPath, m0, m) && Skips(path, i0, i)
    ensures Walked(mPath, m, path, i, done)
    ensures (m < |mPath| ==> mPath[m] != '/') && (i < |path| ==> path[i] != '/')
  {
    hide Components;
    SkippingKeepsComponents(mPath[m0..]);
    SkippingKeepsComponents(path[i0..]);
    assert m < |mPath| ==> mPath[m..][0] == mPath[m];
    assert i < |path| ==> path[i..][0] == path[i];
  }

  lemma Advance(mPath: Path, m: nat, path: Path, i: nat, n: nat, done: seq<Path>) returns (more: seq<Path>)
    requires Walked(mPath, m, path, i, done)
    requires m + n <= |mPath| && i <= |path| && m < |mPath| && mPath[m] != '/' && Ends(mPath, m, m + n)
    requires SameChars(mPath, m, path, i, n) && AtBoundary(path, i + n)
    ensures Walked(mPath, m + n, path, i + n, more)
    ensures Total(more) == Total(done) + n
  {
    hide Components, SkipSlashes, ComponentLen;
    var name := mPath[m..m + n];
    assert mPath[m..][..n] == name && path[i..][..n] == path[i..i + n];
    assert mPath[m..][n..] == mPath[m + n..] && path[i..][n..] == path[i + n..];
    Matched(mPath[m..], path[i..], n);
    Regroup(done, name, Components(mPath[m + n..]));
    Regroup(done, name, Components(path[i + n..]));
    TotalAdds(done, [name]);
    assert Total([name]) == n;
    more := done + [name];
  }

  lemma Regroup(a: seq<Path>, x: Path, b: seq<Path>)
    ensures a + ([x] + b) == a + [x] + b
  {
  }

  lemma EndWalk(mPath: Path, m: nat, path: Path, i: nat, done: seq<Path>)
    requires Walked(mPath, m, path, i, done)
    requires m == |mPath| || (mPath[m] != '/' && Ends(mPath, m, m))
    ensures Measured(mPath, path, Some((Total(done), i)))
  {
    hide Components, SkipSlashes;
    NothingLeft(mPath[m..]);
    assert done + [] == done;
  }

  lemma HeadsDecide(x: Path, a: seq<Path>, y: Path, b: seq<Path>)
    requires Leads([x] + a, [y] + b)
    ensures x == y
  {
    assert ([y] + b)[..|[x] + a|][0] == y;
  }

  lemma NoMatch(m: Path, p: Path, n: nat)
    requires m != "" && m[0] != '/' && n == ComponentLen(m)
    requires p == "" || p[0] != '/'
    requires !(n <= |p| && p[..n] == m[..n]) || (n < |p| && p[n] != '/')
    ensures !Leads(Components(m), Components(p))
  {
    hide Components, SkipSlashes, Leads;
    FirstComponent(m);
    if Leads(Components(m), Components(p)) {
      if p == "" {
        NoComponents(Components(m), p);
      } else {
        FirstComponent(p);
        var k := ComponentLen(p);
        HeadsDecide(m[..n], Components(m[n..]), p[..k], Components(p[k..]));
      }
    }
  }

  lemma Differs(mPath: Path, m: nat, path: Path, i: nat, n: nat, done: seq<Path>)
    requires Walked(mPath, m, path, i, done)
    requires m < |mPath| && mPath[m] != '/' && Ends(mPath, m, m + n)
    requires i <= |path| && (i < |path| ==> path[i] != '/')
    requires m + n <= |mPath|
    requires !SameChars(mPath, m, path, i, n) || !AtBoundary(path, i + n)
    ensures Measured(mPath, path, None)
  {
    hide Components, SkipSlashes, ComponentLen, Leads;
    var a, b := mPath[m..], path[i..];
    assert a[..n] == mPath[m..m + n] && (i + n <= |path| ==> b[..n] == path[i..i + n]);
    NoMatch(a, b, n);
    LeadsAppended(done, Components(a), Components(b));
  }

  lemma NothingLeft(s: Path)
    requires s == "" || (s[0] != '/' && ComponentLen(s) == 0)
    ensures Components(s) == []
  {
  }

  lemma NoComponents(a: seq<Path>, p: Path)
    requires p == "" && Leads(a, Components(p))
    ensures a == []
  {
  }

  lemma Matched(m: Path, p: Path, n: nat)
    requires m != "" && m[0] != '/' && n == ComponentLen(m)
    requires n <= |p| && p[..n] == m[..n] && (n < |p| ==> p[n] == '/')
    ensures Components(m) == [m[..n]] + Components(m[n..]) && Components(p) == [m[..n]] + Components(p[n..])
  {
    hide Components, SkipSlashes, Leads;
    ComponentLenIs(p, n);
    FirstComponent(m);
    assert p[0] == p[..n][0];
    FirstComponent(p);
  }

  // ---- the best of all mount points ----

  predicate Candidate(mPath: Path, path: Path) {
    Components(mPath) != [] && Leads(Components(mPath), Components(path))
  }

  /** rest is what is left of path behind the components cs, without leading slashes. */
  predicate LeftOf(path: Path, cs: seq<Path>, rest: Path) {
    && Components(path) == cs + Components(rest)
    && (rest == "" || rest[0] != '/')
    && |rest| <= |path| && rest == path[|path| - |rest|..]
  }

  /** The answer for a list of mount paths: the first of those with the most components. */
  ghost predicate Longest(mounts: seq<Path>, path: Path, r: Option<(nat, Path)>) {
    match r
    case None => forall k | 0 <= k < |mounts| :: !Candidate(mounts[k], path)
    case Some((b, rest)) =>
      && b < |mounts| && Candidate(mounts[b], path)
      && LeftOf(path, Components(mounts[b]), rest)
      && (forall k | 0 <= k < |mounts| && Candidate(mounts[k], path) ::
            |Components(mounts[k])| <= |Components(mounts[b])|)
      && (forall k | 0 <= k < b && Candidate(mounts[k], path) ::
            |Components(mounts[k])| < |Components(mounts[b])|)
  }

  /** Among lists of names that begin the same list, more characters means more names. */
  lemma {:induction false} LongerIsMore(a: seq<Path>, b: seq<Path>, c: seq<Path>)
    requires Leads(a, c) && Leads(b, c)
    requires forall k | 0 <= k < |c| :: c[k] != ""
    ensures Total(a) < Total(b) <==> |a| < |b|
  {
    if |a| < |b| {
      PrefixIsLess(a, b);
    } else if |b| < |a| {
      PrefixIsLess(b, a);
    } else {
      assert a == b;
    }
  }

  lemma PrefixIsLess(a: seq<Path>, b: seq<Path>)
    requires |a| < |b| && b[..|a|] == a && forall k | 0 <= k < |b| :: b[k] != ""
    ensures Total(a) < Total(b)
  {
    TotalAdds(a, b[|a|..]);
    assert b == a + b[|a|..];
    assert b[|a|..][0] == b[|a|] != "";
  }

  lemma NoNamesNoTotal(a: seq<Path>)
    requires forall k | 0 <= k < |a| :: a[k] != ""
    ensures Total(a) == 0 <==> a == []
  {
  }

  /** los_mp_find. */
  method MpFind(mounts: seq<Path>, path: Path) returns (r: Option<(nat, Path)>)
    ensures Longest(mounts, path, r)
  {
    hide Components, SkipSlashes, ComponentLen, Leads, Total, LeftOf;
    var bestMatches := 0;
    r := None;
    for k := 0 to |mounts|
      invariant r.Some? ==> r.value.0 < k && bestMatches == Total(Components(mounts[r.value.0]))
      invariant r.None? ==> bestMatches == 0
      invariant Longest(mounts[..k], path, r)
    {
      var found := MatchMount(mounts[k], path);
      if found.Some? {
        var (matches, i) := found.value;
        Weigh(mounts[k], path, r, mounts);
        if matches > bestMatches {
          bestMatches := matches;
          var j := SkipTo(path, i);
          Leaves(path, Components(mounts[k]), i, j);
          r := Some((k, path[j..]));
        }
      }
      assert forall q | 0 <= q < k :: mounts[..k + 1][q] == mounts[..k][q];
    }
    assert mounts[..|mounts|] == mounts;
  }

  lemma Weigh(mPath: Path, path: Path, r: Option<(nat, Path)>, mounts: seq<Path>)
    requires Leads(Components(mPath), Components(path))
    requires r.Some? ==> r.value.0 < |mounts| && Candidate(mounts[r.value.0], path)
    ensures Components(mPath) != [] <==> Total(Components(mPath)) > 0
    ensures r.Some? ==> var best := Components(mounts[r.value.0]);
                        (Total(Components(mPath)) > Total(best) <==> |Components(mPath)| > |best|)
                        && Total(best) > 0
  {
    ComponentsAreNames(path);
    ComponentsAreNames(mPath);
    hide Components;
    NoNamesNoTotal(Components(mPath));
    if r.Some? {
      ComponentsAreNames(mounts[r.value.0]);
      NoNamesNoTotal(Components(mounts[r.value.0]));
      LongerIsMore(Components(mounts[r.value.0]), Components(mPath), Components(path));
    }
  }

  lemma Leaves(path: Path, cs: seq<Path>, i: nat, j: nat)
    requires i <= j <= |path| && Skips(path, i, j) && Components(path) == cs + Components(path[i..])
    ensures LeftOf(path, cs, path[j..])
  {
    SkippingKeepsComponents(path[i..]);
  }

  /** What is left of a path behind given components is determined by them. */
  lemma RestDetermined(path: Path, cs: seq<Path>, a: Path, b: Path)
    requires LeftOf(path, cs, a) && LeftOf(path, cs, b) && |b| <= |a|
    ensures a == b
  {
    hide Components, NonSlashes;
    assert Components(a) == Components(path)[|cs|..] == Components(b);
    TotalIsNonSlashes(a);
    TotalIsNonSlashes(b);
    if |b| < |a| {
      var x := a[..|a| - |b|];
      assert a == x + b by {
        assert a[|a| - |b|..] == b;
      }
      NonSlashesAdd(x, b);
      FirstCounts(x);
      assert false;
    }
  }

  lemma FirstCounts(x: Path)
    requires x != "" && x[0] != '/'
    ensures NonSlashes(x) > 0
  {
  }

  /** No two mount points have the same names, apart from those that have none. */
  ghost predicate Distinct(mounts: seq<Path>) {
    forall j, k | 0 <= j < k < |mounts| && Components(mounts[j]) != [] :: Components(mounts[j]) != Components(mounts[k])
  }

  lemma LeadsSameLength(a: seq<Path>, b: seq<Path>, c: seq<Path>)
    requires Leads(a, c) && Leads(b, c) && |a| == |b|
    ensures a == b
  {
  }

  /** Mount points with distinct names give one answer whatever their order in the list. */
  lemma OrderPlaysNoPart(a: seq<Path>, b: seq<Path>, path: Path, ra: Option<(nat, Path)>, rb: Option<(nat, Path)>)
    requires Distinct(a) && multiset(a) == multiset(b)
    requires Longest(a, path, ra) && Longest(b, path, rb)
    ensures ra.Some? <==> rb.Some?
    ensures ra.Some? ==> a[ra.value.0] == b[rb.value.0] && ra.value.1 == rb.value.1
  {
    hide Components, LeftOf, Leads;
    if ra.Some? {
      var k := Elsewhere(a, b, ra.value.0);
    }
    if rb.Some? {
      var j := Elsewhere(b, a, rb.value.0);
      var best, other := a[ra.value.0], b[rb.value.0];
      assert Candidate(best, path) && Candidate(other, path) && a[j] == other;
      LeadsSameLength(Components(best), Components(other), Components(path));
      assert j == ra.value.0;
      if |ra.value.1| < |rb.value.1| {
        RestDetermined(path, Components(best), rb.value.1, ra.value.1);
      } else {
        RestDetermined(path, Components(best), ra.value.1, rb.value.1);
      }
    }
  }

  lemma Elsewhere(a: seq<Path>, b: seq<Path>, k: nat) returns (j: nat)
    requires multiset(a) == multiset(b) && k < |a|
    ensures j < |b| && b[j] == a[k]
  {
    assert a[k] in multiset(a);
    assert a[k] in multiset(b);
    j :| 0 <= j < |b| && b[j] == a[k];
  }
}
