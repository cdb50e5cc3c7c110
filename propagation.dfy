/** `UpdateChildren`: after one bone's local transform has been edited, every
    bone below it is recomputed by calling the original model-space
    calculator, found by scanning the flat parent-index array at each level.

    The parent array encodes a forest only if it is acyclic; the code has no
    cycle guard, so acyclicity is stated as a ranking `depth` (a bone's rank
    exceeds its in-range parent's). An acyclic array of n bones always has one
    with every rank below n, for instance the true depth. */
module Propagation {
  import opened Havok
  import opened Hooking

  /** The filter of the scan loop: entry `i` names `boneId` as its parent and
      passes the range check, whose upper bound `Count` is inclusive. */
  predicate IsChild(parents: seq<int>, i: int, boneId: int)
    requires 0 <= i < |parents|
  {
    !(parents[i] < 0 || parents[i] > |parents|) && parents[i] == boneId
  }

  predicate Increasing(s: seq<int>)
  {
    forall i, j :: 0 <= i < j < |s| ==> s[i] < s[j]
  }

  ghost predicate NoDuplicates(s: seq<int>)
  {
    forall i, j :: 0 <= i < j < |s| ==> s[i] != s[j]
  }

  /** The children the scan collects among the first `k` entries, in the
      order it appends them. */
  function ChildrenBelow(parents: seq<int>, boneId: int, k: nat): (r: seq<int>)
    requires k <= |parents|
    ensures Increasing(r)
    ensures forall x :: x in r <==> 0 <= x < k && parents[x] == boneId && 0 <= boneId <= |parents|
    decreases k
  {
    if k == 0 then []
    else
      var rest := ChildrenBelow(parents, boneId, k - 1);
      if IsChild(parents, k - 1, boneId) then
        assert forall i :: 0 <= i < |rest| ==> rest[i] in rest;
        rest + [k - 1]
      else rest
  }

  /** The complete list of children the scan collects. */
  function Children(parents: seq<int>, boneId: int): (r: seq<int>)
    ensures Increasing(r)
    ensures forall x :: x in r <==> 0 <= x < |parents| && IsChild(parents, x, boneId)
    ensures ChildList(parents, boneId, r)
  {
    var r := ChildrenBelow(parents, boneId, |parents|);
    assert forall i :: 0 <= i < |r| ==> r[i] in r;
    r
  }

  /** A negative id (a root's parent sentinel) has no children, and neither
      does any id above `Count`. */
  lemma {:induction false} NoChildrenOutOfRange(parents: seq<int>, boneId: int)
    requires boneId < 0 || boneId > |parents|
    ensures Children(parents, boneId) == []
  {
    ChildrenBelowEmpty(parents, boneId, |parents|);
  }

  lemma {:induction false} ChildrenBelowEmpty(parents: seq<int>, boneId: int, k: nat)
    requires boneId < 0 || boneId > |parents|
    requires k <= |parents|
    ensures ChildrenBelow(parents, boneId, k) == []
  {
    if k > 0 {
      ChildrenBelowEmpty(parents, boneId, k - 1);
    }
  }

  /** The acyclicity witness: ranks below `|parents|`, strictly increasing
      from each in-range parent to its child. */
  ghost predicate Ranked(parents: seq<int>, depth: seq<nat>)
  {
    && |depth| == |parents|
    && (forall i :: 0 <= i < |parents| ==> depth[i] < |parents|)
    && (forall i :: 0 <= i < |parents| && 0 <= parents[i] < |parents| ==> depth[parents[i]] < depth[i])
  }

  /** Termination measure of the recursion: smaller for a child than for its parent. */
  ghost function Measure(parents: seq<int>, depth: seq<nat>, b: int): nat
    requires Ranked(parents, depth)
  {
    if 0 <= b < |parents| then |parents| - depth[b] else |parents| + 1
  }

  /** `d` lies strictly below `b`: some ancestor-or-self of `d`, reached
      through in-range parent links, passes the child test for `b`. */
  ghost predicate Below(parents: seq<int>, depth: seq<nat>, d: int, b: int)
    requires Ranked(parents, depth)
    decreases if 0 <= d < |parents| then depth[d] else 0
  {
    && 0 <= d < |parents|
    && (IsChild(parents, d, b) || (0 <= parents[d] < |parents| && Below(parents, depth, parents[d], b)))
  }

  /** The recomputation order: for each child in ascending order, the child
      itself and then everything below it. */
  ghost function Walk(parents: seq<int>, depth: seq<nat>, b: int): seq<int>
    requires Ranked(parents, depth)
    decreases Measure(parents, depth, b), 1, 0
  {
    WalkList(parents, depth, b, Children(parents, b))
  }

  /** Every entry of `cs` is a child of `b`. */
  predicate ChildList(parents: seq<int>, b: int, cs: seq<int>)
  {
    forall i :: 0 <= i < |cs| ==> 0 <= cs[i] < |parents| && IsChild(parents, cs[i], b)
  }

  ghost function WalkList(parents: seq<int>, depth: seq<nat>, b: int, cs: seq<int>): seq<int>
    requires Ranked(parents, depth)
    requires ChildList(parents, b, cs)
    decreases Measure(parents, depth, b), 0, |cs|
  {
    if cs == [] then []
    else
      var c := cs[|cs| - 1];
      assert IsChild(parents, c, b);
      WalkList(parents, depth, b, cs[..|cs| - 1]) + [c] + Walk(parents, depth, c)
  }

  /** The calls `UpdateChildren` forwards for a recomputation order. */
  function AsCalls(bones: seq<int>): (r: seq<Call>)
    ensures |r| == |bones|
    ensures forall i :: 0 <= i < |bones| ==> r[i] == CalculateBoneModelSpace(bones[i])
  {
    seq(|bones|, i requires 0 <= i < |bones| => CalculateBoneModelSpace(bones[i]))
  }

  lemma AsCallsAppend(a: seq<int>, b: seq<int>)
    ensures AsCalls(a + b) == AsCalls(a) + AsCalls(b)
  {
    assert forall i :: 0 <= i < |a + b| ==> AsCalls(a + b)[i] == (AsCalls(a) + AsCalls(b))[i];
  }

  // ---------------------------------------------------------------------
  // Facts about the hierarchy

  /** Ranks grow downwards along `Below`: a bone is never below itself. */
  lemma {:induction false} BelowDeeper(parents: seq<int>, depth: seq<nat>, d: int, a: int)
    requires Ranked(parents, depth)
    requires 0 <= a < |parents| && Below(parents, depth, d, a)
    ensures depth[a] < depth[d]
    decreases depth[d]
  {
    if !IsChild(parents, d, a) {
      BelowDeeper(parents, depth, parents[d], a);
    }
  }

  /** No bone lies below itself. */
  lemma BelowIrreflexive(parents: seq<int>, depth: seq<nat>)
    requires Ranked(parents, depth)
    ensures forall d :: !Below(parents, depth, d, d)
  {
    forall d | Below(parents, depth, d, d)
      ensures false
    {
      BelowDeeper(parents, depth, d, d);
    }
  }

  /** `Below` is transitive. */
  lemma {:induction false} BelowTransitive(parents: seq<int>, depth: seq<nat>, x: int, y: int, z: int)
    requires Ranked(parents, depth)
    requires Below(parents, depth, x, y) && Below(parents, depth, y, z)
    ensures Below(parents, depth, x, z)
    decreases depth[x]
  {
    if !IsChild(parents, x, y) {
      BelowTransitive(parents, depth, parents[x], y, z);
    }
  }

  /** The child of `b` on the parent chain of a bone below `b`. */
  ghost function TopChild(parents: seq<int>, depth: seq<nat>, d: int, b: int): (c: int)
    requires Ranked(parents, depth) && Below(parents, depth, d, b)
    ensures 0 <= c < |parents| && IsChild(parents, c, b)
    decreases depth[d]
  {
    if IsChild(parents, d, b) then d else TopChild(parents, depth, parents[d], b)
  }

  /** For a child `c` of `b`, the bones below `b` whose top child is `c` are
      exactly `c` and the bones below `c`. */
  lemma {:induction false} TopChildIs(parents: seq<int>, depth: seq<nat>, d: int, b: int, c: int)
    requires Ranked(parents, depth)
    requires 0 <= c < |parents| && IsChild(parents, c, b) && Below(parents, depth, d, b)
    ensures TopChild(parents, depth, d, b) == c <==> d == c || Below(parents, depth, d, c)
    decreases depth[d]
  {
    if IsChild(parents, d, b) {
      if Below(parents, depth, d, c) {
        if IsChild(parents, d, c) {
          assert false;
        } else {
          BelowDeeper(parents, depth, b, c);
        }
      }
    } else {
      var p := parents[d];
      TopChildIs(parents, depth, p, b, c);
      if Below(parents, depth, d, c) && !IsChild(parents, d, c) {
        assert Below(parents, depth, p, c);
      }
      if IsChild(parents, d, c) && p == b {
        assert false;
      }
    }
  }

  /** A bone strictly below `b` never lies below a sibling of its top child. */
  lemma {:induction false} TopChildOfDescendant(parents: seq<int>, depth: seq<nat>, y: int, x: int, b: int)
    requires Ranked(parents, depth)
    requires Below(parents, depth, x, b) && Below(parents, depth, y, x)
    ensures Below(parents, depth, y, b)
    ensures TopChild(parents, depth, y, b) == TopChild(parents, depth, x, b)
  {
    BelowTransitive(parents, depth, y, x, b);
    var c := TopChild(parents, depth, x, b);
    TopChildIs(parents, depth, x, b, c);
    if x != c {
      BelowTransitive(parents, depth, y, x, c);
    }
    TopChildIs(parents, depth, y, b, c);
  }

  // ---------------------------------------------------------------------
  // Exact coverage

  /** A prefix of the child list covers exactly the bones below `b` whose
      top child is in the prefix, each once. */
  lemma {:induction false} WalkListCovers(parents: seq<int>, depth: seq<nat>, b: int, cs: seq<int>)
    requires Ranked(parents, depth)
    requires ChildList(parents, b, cs)
    requires Increasing(cs)
    ensures forall x :: x in WalkList(parents, depth, b, cs) <==>
              Below(parents, depth, x, b) && TopChild(parents, depth, x, b) in cs
    ensures NoDuplicates(WalkList(parents, depth, b, cs))
    decreases Measure(parents, depth, b), 0, |cs|
  {
    if cs != [] {
      var init, c := cs[..|cs| - 1], cs[|cs| - 1];
      assert IsChild(parents, c, b);
      WalkListCovers(parents, depth, b, init);
      WalkCovers(parents, depth, c);
      var left, sub := WalkList(parents, depth, b, init), Walk(parents, depth, c);
      forall x | x in sub
        ensures Below(parents, depth, x, b)
      {
        BelowTransitive(parents, depth, x, c, b);
      }
      forall x
        ensures x in left + [c] + sub <==> Below(parents, depth, x, b) && TopChild(parents, depth, x, b) in cs
      {
        if x == c || x in sub {
          TopChildIs(parents, depth, x, b, c);
        }
        if Below(parents, depth, x, b) && TopChild(parents, depth, x, b) in cs {
          var t := TopChild(parents, depth, x, b);
          InitOrLast(cs, t);
          if t == c {
            TopChildIs(parents, depth, x, b, c);
          }
        }
      }
      LastNotInInit(cs);
      if c in sub {
        BelowDeeper(parents, depth, c, c);
      }
      NoDuplicatesAppend([c], sub);
      forall x | x in left && x in [c] + sub
        ensures false
      {
        TopChildIs(parents, depth, x, b, c);
      }
      NoDuplicatesAppend(left, [c] + sub);
      assert left + [c] + sub == left + ([c] + sub);
    }
  }

  /** `Walk` lists exactly the bones strictly below `b`, each exactly once. */
  lemma {:induction false} WalkCovers(parents: seq<int>, depth: seq<nat>, b: int)
    requires Ranked(parents, depth)
    ensures forall x :: x in Walk(parents, depth, b) <==> Below(parents, depth, x, b)
    ensures NoDuplicates(Walk(parents, depth, b))
    decreases Measure(parents, depth, b), 1, 0
  {
    var cs := Children(parents, b);
    WalkListCovers(parents, depth, b, cs);
    forall x | Below(parents, depth, x, b)
      ensures TopChild(parents, depth, x, b) in cs
    {
    }
  }

  /** An element of a list is the last one or lies in the rest. */
  lemma InitOrLast(cs: seq<int>, t: int)
    requires t in cs
    ensures t == cs[|cs| - 1] || t in cs[..|cs| - 1]
  {
    var k :| 0 <= k < |cs| && cs[k] == t;
    if k < |cs| - 1 {
      assert cs[..|cs| - 1][k] == t;
    }
  }

  /** In an increasing list the last element does not occur earlier. */
  lemma LastNotInInit(cs: seq<int>)
    requires cs != [] && Increasing(cs)
    ensures cs[|cs| - 1] !in cs[..|cs| - 1]
  {
    var init := cs[..|cs| - 1];
    forall k | 0 <= k < |init|
      ensures init[k] != cs[|cs| - 1]
    {
      assert init[k] == cs[k];
    }
  }

  lemma NoDuplicatesAppend(a: seq<int>, b: seq<int>)
    requires NoDuplicates(a) && NoDuplicates(b)
    requires forall x :: x in a ==> x !in b
    ensures NoDuplicates(a + b)
  {
    forall i, j | 0 <= i < j < |a + b|
      ensures (a + b)[i] != (a + b)[j]
    {
      if i < |a| && j >= |a| {
        assert (a + b)[i] in a && (a + b)[j] == b[j - |a|];
      }
    }
  }

  /** The edited bone itself is never recomputed. */
  lemma WalkExcludesStart(parents: seq<int>, depth: seq<nat>, b: int)
    requires Ranked(parents, depth)
    ensures b !in Walk(parents, depth, b)
  {
    WalkCovers(parents, depth, b);
    if b in Walk(parents, depth, b) {
      BelowDeeper(parents, depth, b, b);
    }
  }

  /** A bone that names itself as its parent passes the scan's filter for
      itself, so the unguarded recursion calls itself with the same id
      forever; no rank exists for such an array, which is what keeps it out
      of `UpdateChildren`'s domain. */
  lemma SelfParentAsWritten(parents: seq<int>, b: int)
    requires 0 <= b < |parents| && parents[b] == b
    ensures b in Children(parents, b)
    ensures forall depth: seq<nat> :: !Ranked(parents, depth)
  {
    assert IsChild(parents, b, b);
  }

  // ---------------------------------------------------------------------
  // A guarded walk, defined on every parent array

  /** The in-range bone ids (the filter admits `0..Count`) among `path`. */
  function OnPath(parents: seq<int>, path: set<int>): set<int>
  {
    set x | x in path && 0 <= x <= |parents|
  }

  /** A set of ids in `0..n` has at most `n + 1` elements. */
  lemma {:induction false} BoundedSetSize(s: set<int>, n: int)
    requires n >= -1 && forall x :: x in s ==> 0 <= x <= n
    ensures |s| <= n + 1
    decreases n + 1
  {
    if n >= 0 {
      var rest := s - {n};
      BoundedSetSize(rest, n - 1);
      assert s <= rest + {n};
    } else {
      assert forall x :: x in s <==> x in {};
    }
  }

  /** Ids the guarded walk may still enter: shrinks each time it descends. */
  ghost function Unvisited(parents: seq<int>, path: set<int>): nat
  {
    BoundedSetSize(OnPath(parents, path), |parents|);
    |parents| + 1 - |OnPath(parents, path)|
  }

  /** The propagation with a guard: a child already on the path from the
      start bone (the start bone included) is skipped together with its
      subtree, so a self-parent or a cycle ends the descent instead of
      repeating it. No bone of `path` is ever recomputed. */
  function GuardedWalk(parents: seq<int>, b: int, path: set<int>): (r: seq<int>)
    ensures forall x :: x in path ==> x !in r
    decreases Unvisited(parents, path), 1, 0
  {
    GuardedWalkList(parents, b, path, Children(parents, b))
  }

  function GuardedWalkList(parents: seq<int>, b: int, path: set<int>, cs: seq<int>): (r: seq<int>)
    requires ChildList(parents, b, cs)
    ensures forall x :: x in path ==> x !in r
    decreases Unvisited(parents, path), 0, |cs|
  {
    if cs == [] then []
    else
      var c := cs[|cs| - 1];
      var rest := GuardedWalkList(parents, b, path, cs[..|cs| - 1]);
      if c in path then rest
      else
        assert OnPath(parents, path + {c}) == OnPath(parents, path) + {c};
        rest + [c] + GuardedWalk(parents, c, path + {c})
  }

  /** The guarded walk from a self-parent stops at once: `[0]` edited at
      bone 0 recomputes nothing. */
  lemma SelfParentGuarded()
    ensures GuardedWalk([0], 0, {0}) == []
  {
    assert IsChild([0], 0, 0);
    assert ChildrenBelow([0], 0, 0) == [];
    assert Children([0], 0) == [0];
  }

  /** Every id on the path that is a bone has a rank no greater than the
      current bone's. */
  ghost predicate PathAbove(parents: seq<int>, depth: seq<nat>, b: int, path: set<int>)
    requires Ranked(parents, depth)
  {
    forall x :: x in path && 0 <= x < |parents| ==> 0 <= b < |parents| && depth[x] <= depth[b]
  }

  /** On an acyclic array the guard never fires: the guarded walk from `b`
      with `{b}` as its path is exactly `Walk`. */
  lemma GuardedWalkAgrees(parents: seq<int>, depth: seq<nat>, b: int)
    requires Ranked(parents, depth)
    ensures GuardedWalk(parents, b, {b}) == Walk(parents, depth, b)
  {
    GuardedWalkAgreesOn(parents, depth, b, {b});
  }

  lemma {:induction false} GuardedWalkAgreesOn(parents: seq<int>, depth: seq<nat>, b: int, path: set<int>)
    requires Ranked(parents, depth) && PathAbove(parents, depth, b, path)
    ensures GuardedWalk(parents, b, path) == Walk(parents, depth, b)
    decreases Measure(parents, depth, b), 1, 0
  {
    GuardedWalkListAgreesOn(parents, depth, b, path, Children(parents, b));
  }

  lemma {:induction false} GuardedWalkListAgreesOn(parents: seq<int>, depth: seq<nat>, b: int, path: set<int>, cs: seq<int>)
    requires Ranked(parents, depth) && PathAbove(parents, depth, b, path) && ChildList(parents, b, cs)
    ensures GuardedWalkList(parents, b, path, cs) == WalkList(parents, depth, b, cs)
    decreases Measure(parents, depth, b), 0, |cs|
  {
    if cs != [] {
      var c := cs[|cs| - 1];
      assert IsChild(parents, c, b);
      GuardedWalkListAgreesOn(parents, depth, b, path, cs[..|cs| - 1]);
      if c in path {
        assert false;
      }
      ChildCloser(parents, depth, b, c);
      GuardedWalkAgreesOn(parents, depth, c, path + {c});
    }
  }

  // ---------------------------------------------------------------------
  // Order

  /** Every bone is recomputed after all of its ancestors that are recomputed. */
  ghost predicate TopDown(parents: seq<int>, depth: seq<nat>, w: seq<int>)
    requires Ranked(parents, depth)
  {
    forall i, j :: 0 <= i < |w| && 0 <= j < |w| && Below(parents, depth, w[j], w[i]) ==> i < j
  }

  lemma {:induction false} WalkListTopDown(parents: seq<int>, depth: seq<nat>, b: int, cs: seq<int>)
    requires Ranked(parents, depth)
    requires ChildList(parents, b, cs)
    requires Increasing(cs)
    ensures TopDown(parents, depth, WalkList(parents, depth, b, cs))
    decreases Measure(parents, depth, b), 0, |cs|
  {
    if cs != [] {
      var init, c := cs[..|cs| - 1], cs[|cs| - 1];
      assert IsChild(parents, c, b);
      WalkListTopDown(parents, depth, b, init);
      WalkTopDown(parents, depth, c);
      WalkListCovers(parents, depth, b, init);
      WalkCovers(parents, depth, c);
      var left, sub := WalkList(parents, depth, b, init), Walk(parents, depth, c);
      var w := left + [c] + sub;
      LastNotInInit(cs);
      BelowIrreflexive(parents, depth);
      var n := |left|;
      forall i, j | 0 <= j <= i < |w|
        ensures !Below(parents, depth, w[j], w[i])
      {
        if Below(parents, depth, w[j], w[i]) {
          if i == j {
          } else if j < n && i >= n {
            // w[i] is c or below c, w[j] is below another child of b
            var x, y := w[i], w[j];
            assert y in left;
            if x != c {
              assert x == sub[i - n - 1];
              BelowTransitive(parents, depth, x, c, b);
            }
            TopChildIs(parents, depth, x, b, c);
            TopChildOfDescendant(parents, depth, y, x, b);
          } else if j == n {
            assert w[i] == sub[i - n - 1];
            BelowTransitive(parents, depth, c, w[i], c);
            BelowDeeper(parents, depth, c, c);
          }
        }
      }
    }
  }

  /** The recomputation order is top-down: each bone after its recomputed
      ancestors, so a child's call precedes its own subtree. */
  lemma {:induction false} WalkTopDown(parents: seq<int>, depth: seq<nat>, b: int)
    requires Ranked(parents, depth)
    ensures TopDown(parents, depth, Walk(parents, depth, b))
    decreases Measure(parents, depth, b), 1, 0
  {
    WalkListTopDown(parents, depth, b, Children(parents, b));
  }

  // ---------------------------------------------------------------------
  // The code

  /** The scan loop of `UpdateChildren`: one pass over the copied parent
      list, appending every index that passes the child test. The `short`
      counter overflows past 32767, so longer lists are outside its range. */
  method CollectChildren(parents: seq<int>, boneId: int) returns (children: seq<int>)
    requires |parents| <= ShortMax
    ensures children == Children(parents, boneId)
  {
    children := [];
    var i := 0;
    while i < |parents|
      invariant 0 <= i <= |parents|
      invariant children == ChildrenBelow(parents, boneId, i)
    {
      if parents[i] < 0 || parents[i] > |parents| {
        i := i + 1;
        continue;
      }
      if parents[i] == boneId {
        children := children + [i];
      }
      i := i + 1;
    }
  }

  /** `UpdateChildren(pose, boneId)`: copies the skeleton's parent indices,
      collects the children of `boneId`, and for each in turn forwards the
      model-space calculation to the original function and recurses. The
      forwarded calls are exactly the recomputation order `Walk`. */
  method UpdateChildren(hook: Hook, parentIndices: HkaArray<int>, boneId: int, ghost depth: seq<nat>)
    requires parentIndices.Valid() && parentIndices.length <= ShortMax
    requires Ranked(parentIndices.Contents(), depth)
    modifies hook
    ensures hook.originalCalls == old(hook.originalCalls) + AsCalls(Walk(parentIndices.Contents(), depth, boneId))
    ensures hook.enabled == old(hook.enabled)
    decreases Measure(parentIndices.Contents(), depth, boneId), 1
  {
    ghost var ps := parentIndices.Contents();
    var parents := parentIndices.CopyToList();
    assert parents == ps;
    var children := CollectChildren(parents, boneId);
    ghost var before := hook.originalCalls;
    var k := 0;
    while k < |children|
      invariant 0 <= k <= |children|
      invariant parentIndices.Contents() == ps
      invariant hook.originalCalls == before + AsCalls(WalkList(parents, depth, boneId, children[..k]))
      invariant hook.enabled == old(hook.enabled)
    {
      var child := children[k];
      ChildCloser(parents, depth, boneId, child);
      var _ := hook.Original(CalculateBoneModelSpace(child));
      UpdateChildren(hook, parentIndices, child, depth);
      WalkListStep(parents, depth, boneId, children, k, before);
      k := k + 1;
    }
    assert children[..k] == children;
    assert WalkList(parents, depth, boneId, children) == Walk(parents, depth, boneId);
  }

  /** A child is strictly closer to the leaves than its parent. */
  lemma ChildCloser(parents: seq<int>, depth: seq<nat>, b: int, c: int)
    requires Ranked(parents, depth) && 0 <= c < |parents| && IsChild(parents, c, b)
    ensures Measure(parents, depth, c) < Measure(parents, depth, b)
  {
  }

  /** One more child in the list adds that child's call and then its subtree's. */
  lemma WalkListStep(parents: seq<int>, depth: seq<nat>, b: int, cs: seq<int>, k: int, pre: seq<Call>)
    requires Ranked(parents, depth) && ChildList(parents, b, cs) && 0 <= k < |cs|
    ensures pre + AsCalls(WalkList(parents, depth, b, cs[..k + 1])) ==
            pre + AsCalls(WalkList(parents, depth, b, cs[..k])) + [CalculateBoneModelSpace(cs[k])] + AsCalls(Walk(parents, depth, cs[k]))
  {
    assert cs[..k + 1][..k] == cs[..k];
    var left := WalkList(parents, depth, b, cs[..k]);
    AsCallsAppend(left, [cs[k]]);
    AsCallsAppend(left + [cs[k]], Walk(parents, depth, cs[k]));
  }
}
