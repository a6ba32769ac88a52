// Relative paths of the persisted tree (`validRelativePath` in
// src/runtime_persist.zig), and which strings they are.
module Paths {
  import opened Bytes

  const SLASH: byte := 0x2F
  const DOT: byte := 0x2E

  /** Where the component starting at `i` ends. */
  function ComponentEnd(p: seq<byte>, i: nat): (e: nat)
    requires i <= |p|
    ensures i <= e <= |p|
    ensures forall k :: i <= k < e ==> p[k] != SLASH
    ensures e < |p| ==> p[e] == SLASH
    decreases |p| - i
  {
    if i == |p| || p[i] == SLASH then i else ComponentEnd(p, i + 1)
  }

  predicate ComponentsOk(p: seq<byte>, i: nat)
    requires i <= |p|
    decreases |p| - i
  {
    var e := ComponentEnd(p, i);
    && p[i..e] != [] && p[i..e] != [DOT] && p[i..e] != [DOT, DOT]
    && (e == |p| || ComponentsOk(p, e + 1))
  }

  /** `validRelativePath`. */
  predicate ValidRelativePath(p: seq<byte>) {
    |p| != 0 && p[0] != SLASH && 0 !in p && ComponentsOk(p, 0)
  }

  // ------------------------------------------------------- what they are

  /** A name as the file tree allows it: not empty, no slash, no zero byte, and
      neither "." nor "..". */
  predicate Component(c: seq<byte>) {
    c != [] && 0x2F !in c && 0 !in c && c != [0x2E] && c != [0x2E, 0x2E]
  }

  /** Names with slashes between them. */
  function Joined(cs: seq<seq<byte>>): seq<byte> {
    if cs == [] then [] else if |cs| == 1 then cs[0] else cs[0] + [0x2F] + Joined(cs[1..])
  }

  ghost predicate AllComponents(cs: seq<seq<byte>>) {
    cs != [] && forall i :: 0 <= i < |cs| ==> Component(cs[i])
  }

  /** The names a valid rest of a path is made of. */
  lemma {:induction false} ComponentsOf(p: seq<byte>, i: nat) returns (cs: seq<seq<byte>>)
    requires i <= |p| && ComponentsOk(p, i) && 0 !in p
    ensures AllComponents(cs) && p[i..] == Joined(cs)
    decreases |p| - i
  {
    var e := ComponentEnd(p, i);
    if e == |p| {
      cs := [p[i..e]];
      assert p[i..] == p[i..e];
    } else {
      var more := ComponentsOf(p, e + 1);
      cs := [p[i..e]] + more;
      assert cs[1..] == more;
      assert p[i..] == p[i..e] + [p[e]] + p[e + 1..];
    }
  }

  /** The scan accepts a path from where the rest of it is such names. */
  lemma {:induction false} ComponentsAccepted(p: seq<byte>, i: nat, cs: seq<seq<byte>>)
    requires i <= |p| && AllComponents(cs) && p[i..] == Joined(cs)
    ensures ComponentsOk(p, i)
    decreases |cs|
  {
    var e := i + |cs[0]|;
    HeadOfPath(p, i, cs);
    EndOfComponent(p, i, e);
    if |cs| > 1 {
      ComponentsAccepted(p, e + 1, cs[1..]);
    }
  }

  lemma HeadOfPath(p: seq<byte>, i: nat, cs: seq<seq<byte>>)
    requires i <= |p| && AllComponents(cs) && p[i..] == Joined(cs)
    ensures var e := i + |cs[0]|;
            && e <= |p| && p[i..e] == cs[0] && (e == |p| <==> |cs| == 1)
            && (e < |p| ==> p[e] == SLASH && p[e + 1..] == Joined(cs[1..]))
  {
    var e := i + |cs[0]|;
    assert p[i..e] == p[i..][..|cs[0]|];
    if |cs| > 1 {
      assert p[e] == p[i..][|cs[0]|];
      assert p[e + 1..] == p[i..][|cs[0]| + 1..];
    }
  }

  lemma {:induction false} EndOfComponent(p: seq<byte>, i: nat, e: nat)
    requires i <= e <= |p| && SLASH !in p[i..e] && (e < |p| ==> p[e] == SLASH)
    ensures ComponentEnd(p, i) == e
    decreases e - i
  {
    if i < e {
      assert p[i..e][0] == p[i];
      assert p[i..e][1..] == p[i + 1..e];
      EndOfComponent(p, i + 1, e);
    }
  }

  lemma {:induction false} NoZeroInJoined(cs: seq<seq<byte>>)
    requires AllComponents(cs)
    ensures 0 !in Joined(cs) && |Joined(cs)| > 0 && Joined(cs)[0] != SLASH
  {
    assert cs[0][0] in cs[0];
    if |cs| > 1 {
      NoZeroInJoined(cs[1..]);
    }
  }

  /** Exactly which strings are valid relative paths. */
  lemma PathExactly(p: seq<byte>)
    ensures ValidRelativePath(p) <==> exists cs :: AllComponents(cs) && p == Joined(cs)
  {
    if ValidRelativePath(p) {
      var cs := ComponentsOf(p, 0);
      assert p == p[0..];
    }
    if cs :| AllComponents(cs) && p == Joined(cs) {
      NoZeroInJoined(cs);
      assert p == p[0..];
      ComponentsAccepted(p, 0, cs);
    }
  }

  lemma {:induction false} JoinedMore(cs: seq<seq<byte>>, c: seq<byte>)
    requires cs != []
    ensures Joined(cs + [c]) == Joined(cs) + [0x2F] + c
  {
    assert (cs + [c])[1..] == cs[1..] + [c];
    if |cs| > 1 {
      JoinedMore(cs[1..], c);
      var a, rest := cs[0] + [0x2F], Joined(cs[1..]);
      assert a + (rest + [0x2F] + c) == a + rest + [0x2F] + c;
    } else {
      assert Joined([c]) == c;
    }
  }

  /** The paths the tree walk builds: a name under the root, and a name behind a
      path it has built before. */
  lemma ChildPath(parent: seq<byte>, name: seq<byte>)
    requires Component(name)
    ensures ValidRelativePath(name)
    ensures ValidRelativePath(parent) ==> ValidRelativePath(parent + [0x2F] + name)
  {
    hide ValidRelativePath, Component;
    PathExactly(name);
    assert Joined([name]) == name && AllComponents([name]);
    PathExactly(parent);
    if ValidRelativePath(parent) {
      var cs :| AllComponents(cs) && parent == Joined(cs);
      JoinedMore(cs, name);
      PathExactly(parent + [0x2F] + name);
      assert AllComponents(cs + [name]);
    }
  }

  // ------------------------------------------------- directories and names

  /** `std.ascii.toLower`: the file tree compares names without regard to case. */
  function Lower(b: byte): byte {
    if 0x41 <= b <= 0x5A then b + 0x20 else b
  }

  function Fold(p: seq<byte>): (f: seq<byte>)
    ensures |f| == |p| && forall i :: 0 <= i < |p| ==> f[i] == Lower(p[i])
  {
    seq(|p|, i requires 0 <= i < |p| => Lower(p[i]))
  }

  /** Which paths the file tree takes for the same: equal but for the case of
      their letters. */
  lemma SameButForCase(p: seq<byte>, q: seq<byte>)
    ensures Fold(p) == Fold(q)
            <==> && |p| == |q|
                 && forall i :: 0 <= i < |p| ==>
                      || p[i] == q[i]
                      || (0x41 <= p[i] <= 0x5A && q[i] == p[i] + 0x20)
                      || (0x41 <= q[i] <= 0x5A && p[i] == q[i] + 0x20)
  {
    if Fold(p) == Fold(q) {
      forall i | 0 <= i < |p|
        ensures || p[i] == q[i] || (0x41 <= p[i] <= 0x5A && q[i] == p[i] + 0x20)
                || (0x41 <= q[i] <= 0x5A && p[i] == q[i] + 0x20)
      {
        assert Fold(p)[i] == Fold(q)[i];
      }
    }
  }

  /** Where the last component begins: behind the last slash. */
  function NameStart(p: seq<byte>): (n: nat)
    ensures n <= |p|
    ensures forall k :: n <= k < |p| ==> p[k] != SLASH
    ensures n > 0 ==> p[n - 1] == SLASH
  {
    if p == [] then 0 else if p[|p| - 1] == SLASH then |p| else NameStart(p[..|p| - 1])
  }

  function NameOf(p: seq<byte>): seq<byte> {
    p[NameStart(p)..]
  }

  function ParentOf(p: seq<byte>): (q: seq<byte>)
    ensures p != [] ==> |q| < |p|
  {
    if NameStart(p) == 0 then [] else p[..NameStart(p) - 1]
  }

  /** `buildChildPath`, relative to the mount: the root is the empty path. */
  function ChildOf(parent: seq<byte>, name: seq<byte>): seq<byte> {
    if parent == [] then name else parent + [SLASH] + name
  }

  /** Taking a child's path apart gives back directory and name. */
  lemma ChildParts(parent: seq<byte>, name: seq<byte>)
    requires SLASH !in name
    ensures ParentOf(ChildOf(parent, name)) == parent && NameOf(ChildOf(parent, name)) == name
  {
    var p := ChildOf(parent, name);
    var n := if parent == [] then 0 else |parent| + 1;
    assert p[n..] == name;
    assert forall k :: n <= k < |p| ==> p[k] == name[k - n];
    assert forall k :: n <= k < |p| ==> p[k] != SLASH by { assert forall k :: 0 <= k < |name| ==> name[k] in name; }
    var m := NameStart(p);
    assert n == 0 || p[n - 1] == SLASH;
    assert m == 0 || p[m - 1] == SLASH;
  }

  lemma FoldParts(p: seq<byte>)
    ensures ParentOf(Fold(p)) == Fold(ParentOf(p)) && NameOf(Fold(p)) == Fold(NameOf(p))
  {
    assert NameStart(Fold(p)) == NameStart(p);
  }

  lemma FoldChild(parent: seq<byte>, name: seq<byte>)
    ensures Fold(ChildOf(parent, name)) == ChildOf(Fold(parent), Fold(name))
  {
  }

  /** A slash among the 32 bytes from `i` on. */
  predicate SlashFrom(p: seq<byte>, i: nat)
    requires i + 32 <= |p|
  {
    exists k :: i <= k < i + 32 && p[k] == SLASH
  }

  /** `validatePathBounds`' limit on every component: no 32 bytes in a row are
      free of slashes. */
  predicate NamesFit(p: seq<byte>) {
    forall i :: 0 <= i <= |p| - 32 ==> SlashFrom(p, i)
  }

  /** Its scan over the components. */
  method ScanNames(p: seq<byte>) returns (ok: bool)
    ensures ok <==> NamesFit(p)
  {
    var position := 0;
    while position < |p|
      invariant 0 <= position <= |p|
      invariant 0 < position < |p| ==> p[position] == SLASH
      invariant forall i :: 0 <= i <= position - 32 ==> SlashFrom(p, i)
    {
      ghost var before := position;
      while position < |p| && p[position] == SLASH
        invariant before <= position <= |p|
        invariant before < |p| && (0 < before ==> before < position || p[before] == SLASH)
        invariant forall k :: before <= k < position ==> p[k] == SLASH
      {
        position := position + 1;
      }
      var start := position;
      while position < |p| && p[position] != SLASH
        invariant start <= position <= |p|
        invariant forall k :: start <= k < position ==> p[k] != SLASH
      {
        position := position + 1;
      }
      if position - start > 31 {
        assert !SlashFrom(p, start);
        return false;
      }
      forall i | 0 <= i <= position - 32
        ensures SlashFrom(p, i)
      {
        if i > before - 32 {
          var k := if i < before then before else i;
          assert p[k] == SLASH;
        }
      }
    }
    return true;
  }

  /** The paths within the limit: those whose names have at most 31 bytes. */
  lemma {:induction false} NamesFitExactly(cs: seq<seq<byte>>)
    requires AllComponents(cs)
    ensures NamesFit(Joined(cs)) <==> forall i :: 0 <= i < |cs| ==> |cs[i]| <= 31
    decreases |cs|
  {
    var p, c := Joined(cs), cs[0];
    assert forall k :: 0 <= k < |c| ==> p[k] == c[k] && c[k] in c;
    if |c| > 31 {
      assert !SlashFrom(p, 0);
    } else if |cs| > 1 {
      NamesFitExactly(cs[1..]);
      var prefix := c + [SLASH];
      assert p == prefix + Joined(cs[1..]);
      NamesFitBehind(prefix, Joined(cs[1..]));
      assert forall i :: 1 <= i < |cs| ==> cs[i] == cs[1..][i - 1];
    }
  }

  lemma NamesFitChild(parent: seq<byte>, name: seq<byte>)
    requires NamesFit(parent) && |name| <= 31
    ensures NamesFit(ChildOf(parent, name))
  {
    var p := ChildOf(parent, name);
    forall i | 0 <= i <= |p| - 32
      ensures SlashFrom(p, i)
    {
      if i + 32 <= |parent| {
        var k :| i <= k < i + 32 && parent[k] == SLASH by { assert SlashFrom(parent, i); }
        assert p[k] == SLASH;
      } else {
        assert p[|parent|] == SLASH;
      }
    }
  }

  /** The limit on a path is the limit on what is behind a short name and its
      slash; so the absolute path is within it when the relative one is. */
  lemma NamesFitBehind(prefix: seq<byte>, p: seq<byte>)
    requires 0 < |prefix| <= 32 && prefix[|prefix| - 1] == SLASH
    ensures NamesFit(prefix + p) <==> NamesFit(p)
  {
    var q := prefix + p;
    if NamesFit(p) {
      forall i | 0 <= i <= |q| - 32
        ensures SlashFrom(q, i)
      {
        if i < |prefix| {
          assert q[|prefix| - 1] == SLASH;
        } else {
          var k :| i - |prefix| <= k < i - |prefix| + 32 && p[k] == SLASH by { assert SlashFrom(p, i - |prefix|); }
          assert q[k + |prefix|] == SLASH;
        }
      }
    }
    if NamesFit(q) {
      forall i | 0 <= i <= |p| - 32
        ensures SlashFrom(p, i)
      {
        var k :| i + |prefix| <= k < i + |prefix| + 32 && q[k] == SLASH by { assert SlashFrom(q, i + |prefix|); }
        assert p[k - |prefix|] == SLASH;
      }
    }
  }
}
