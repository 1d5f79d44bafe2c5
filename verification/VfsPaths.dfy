/** Paths as lists of components, whatever the number of slashes between them. */
module VfsPaths {

  /** The characters of a C string, without the terminating NUL: the end of the sequence
      stands for it. */
  type Path = string

  function SkipSlashes(s: Path): (r: Path)
    ensures |r| <= |s|
    ensures r == "" || r[0] != '/'
  {
    if s != "" && s[0] == '/' then SkipSlashes(s[1..]) else s
  }

  /** How far it is to the next slash, or to the end. */
  function ComponentLen(s: Path): (n: nat)
    ensures n <= |s| && (forall j | 0 <= j < n :: s[j] != '/') && (n < |s| ==> s[n] == '/')
  {
    if s == "" || s[0] == '/' then 0 else 1 + ComponentLen(s[1..])
  }

  function Components(s: Path): seq<Path>
    decreases |s|
  {
    var t := SkipSlashes(s);
    if t == "" then [] else [t[..ComponentLen(t)]] + Components(t[ComponentLen(t)..])
  }

  predicate IsName(c: Path) {
    c != "" && '/' !in c
  }

  lemma {:induction false} ComponentsAreNames(s: Path)
    ensures forall k | 0 <= k < |Components(s)| :: IsName(Components(s)[k])
    decreases |s|
  {
    var t := SkipSlashes(s);
    if t != "" {
      var n := ComponentLen(t);
      FirstComponent(t);
      ComponentsAreNames(t[n..]);
      NoSlash(t, n);
    }
  }

  lemma NoSlash(s: Path, n: nat)
    requires n <= |s| && forall j | 0 <= j < n :: s[j] != '/'
    ensures '/' !in s[..n]
  {
  }

  lemma SkippingKeepsComponents(s: Path)
    ensures Components(SkipSlashes(s)) == Components(s)
  {
    SkipTwice(s);
  }

  lemma SkipTwice(s: Path)
    ensures SkipSlashes(SkipSlashes(s)) == SkipSlashes(s)
  {
  }

  /** The length of the piece up to the next slash is determined by what it is. */
  lemma {:induction false} ComponentLenIs(s: Path, n: nat)
    requires n <= |s| && (forall j | 0 <= j < n :: s[j] != '/') && (n < |s| ==> s[n] == '/')
    ensures ComponentLen(s) == n
  {
    var k := ComponentLen(s);
    assert !(k < n) && !(n < k);
  }

  /** A path of one name and something behind it. */
  lemma FirstComponent(s: Path)
    requires s != "" && s[0] != '/'
    ensures 0 < ComponentLen(s)
    ensures Components(s) == [s[..ComponentLen(s)]] + Components(s[ComponentLen(s)..])
  {
  }

  /** A name behind any number of slashes, in front of a slash or the end, is the next
      component. */
  lemma {:induction false} NameRead(slashes: nat, name: Path, rest: Path)
    requires IsName(name) && (rest == "" || rest[0] == '/')
    ensures Components(seq(slashes, _ => '/') + name + rest) == [name] + Components(rest)
    decreases slashes
  {
    var s := seq(slashes, _ => '/') + name + rest;
    if slashes > 0 {
      assert s[1..] == seq(slashes - 1, _ => '/') + name + rest;
      NameRead(slashes - 1, name, rest);
      SkippingKeepsComponents(s);
      SkippingKeepsComponents(s[1..]);
    } else {
      assert s == name + rest;
      ComponentLenIs(s, |name|);
      FirstComponent(s);
      assert s[..|name|] == name && s[|name|..] == rest;
    }
  }

  function Joined(cs: seq<Path>): Path {
    if cs == [] then "" else "/" + cs[0] + Joined(cs[1..])
  }

  /** Names joined by slashes are read back, in order. */
  lemma {:induction false} JoinedRead(cs: seq<Path>)
    requires forall c | c in cs :: IsName(c)
    ensures Components(Joined(cs)) == cs
  {
    if cs != [] {
      assert forall c | c in cs[1..] :: c in cs;
      JoinedRead(cs[1..]);
      assert seq(1, _ => '/') == "/";
      assert Joined(cs[1..]) == "" || Joined(cs[1..])[0] == '/';
      NameRead(1, cs[0], Joined(cs[1..]));
    }
  }

  function Total(cs: seq<Path>): nat {
    if cs == [] then 0 else |cs[0]| + Total(cs[1..])
  }

  lemma {:induction false} TotalAdds(a: seq<Path>, b: seq<Path>)
    ensures Total(a + b) == Total(a) + Total(b)
  {
    if a == [] {
      assert a + b == b;
    } else {
      assert (a + b)[1..] == a[1..] + b;
      TotalAdds(a[1..], b);
    }
  }

  function NonSlashes(s: Path): nat {
    if s == "" then 0 else (if s[0] == '/' then 0 else 1) + NonSlashes(s[1..])
  }

  lemma {:induction false} NonSlashesAdd(a: Path, b: Path)
    ensures NonSlashes(a + b) == NonSlashes(a) + NonSlashes(b)
  {
    if a == "" {
      assert a + b == b;
    } else {
      assert (a + b)[1..] == a[1..] + b;
      NonSlashesAdd(a[1..], b);
    }
  }

  lemma {:induction false} AllNonSlashes(s: Path)
    requires forall j | 0 <= j < |s| :: s[j] != '/'
    ensures NonSlashes(s) == |s|
  {
    if s != "" {
      AllNonSlashes(s[1..]);
    }
  }

  lemma {:induction false} SkippedNonSlashes(s: Path)
    ensures NonSlashes(SkipSlashes(s)) == NonSlashes(s)
  {
    if s != "" && s[0] == '/' {
      SkippedNonSlashes(s[1..]);
    }
  }

  /** The components hold every character that is not a slash. */
  lemma {:induction false} TotalIsNonSlashes(s: Path)
    ensures Total(Components(s)) == NonSlashes(s)
    decreases |s|
  {
    hide NonSlashes;
    var t := SkipSlashes(s);
    SkippedNonSlashes(s);
    if t != "" {
      var n := ComponentLen(t);
      var name, more := t[..n], t[n..];
      TotalIsNonSlashes(more);
      AllNonSlashes(name);
      NonSlashesAdd(name, more);
      assert t == name + more;
      assert Components(s) == [name] + Components(more);
      TotalAdds([name], Components(more));
      assert Total([name]) == n;
    } else {
      AllNonSlashes(t);
    }
  }

  // ---- the loops that walk along a string ----

  predicate Skips(s: Path, from: nat, i: nat) {
    from <= i <= |s| && s[i..] == SkipSlashes(s[from..])
  }

  predicate Ends(s: Path, from: nat, t: nat) {
    from <= t <= |s| && t - from == ComponentLen(s[from..])
  }

  method SkipTo(s: Path, from: nat) returns (i: nat)
    requires from <= |s|
    ensures from <= i <= |s| && Skips(s, from, i)
  {
    i := from;
    while i < |s| && s[i] == '/'
      invariant from <= i <= |s| && SkipSlashes(s[i..]) == SkipSlashes(s[from..])
    {
      assert s[i..][1..] == s[i + 1..];
      i := i + 1;
    }
  }

  /** strchr for '/', or the end of the string. */
  method FindSlash(s: Path, from: nat) returns (t: nat)
    requires from <= |s|
    ensures from <= t <= |s| && Ends(s, from, t)
  {
    t := from;
    while t < |s| && s[t] != '/'
      invariant from <= t <= |s| && forall j | from <= j < t :: s[j] != '/'
    {
      t := t + 1;
    }
    ComponentLenIs(s[from..], t - from);
  }
}
