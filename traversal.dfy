/** The traversals of the tree: walking a run of siblings left to right
    (`eachNode`, `foldNodes`), walking up the parent chain (`bubble`) and
    walking a subtree children first (`postOrder`). Callbacks are pure
    function values; a visiting callback answers `false` exactly when the
    source's callback returns `false` to stop the walk. */
module Traversal {
  import opened Nodes
  import opened Splice

  /** The part of `s` a walk visits when it stops right after the first
      element for which `visit` answers `false`: every element before the
      last visited one answered `true`, and the walk ends early only at an
      element that answered `false`. */
  function UntilStop(s: seq<Id>, visit: Id -> bool): (r: seq<Id>)
    ensures |r| <= |s| && r == s[..|r|]
    ensures forall i | 0 <= i < |r| - 1 :: visit(r[i])
    ensures |r| < |s| ==> r != [] && !visit(r[|r| - 1])
  {
    if s == [] then []
    else if !visit(s[0]) then [s[0]]
    else [s[0]] + UntilStop(s[1..], visit)
  }

  /** The three facts above pin the visited prefix down: it ends at the
      first element that answers `false`, or is all of `s`. */
  lemma UntilStopAt(s: seq<Id>, visit: Id -> bool, j: nat)
    requires j <= |s| && forall i | 0 <= i < j - 1 :: visit(s[i])
    requires j < |s| ==> j > 0 && !visit(s[j - 1])
    requires j == |s| && j > 0 ==> forall i | 0 <= i < j - 1 :: visit(s[i])
    ensures UntilStop(s, visit) == s[..j]
  {
  }

  /** A walk whose callback never answers `false` visits everything. */
  lemma UntilStopAll(s: seq<Id>, visit: Id -> bool)
    requires forall i | 0 <= i < |s| :: visit(s[i])
    ensures UntilStop(s, visit) == s
  {
    UntilStopAt(s, visit, |s|);
  }

  /** `f` applied to every element of `s` in turn, left to right, starting
      from `acc`. */
  function FoldLeft<A>(acc: A, s: seq<Id>, f: (A, Id) -> A): A
  {
    if s == [] then acc else f(FoldLeft(acc, s[..|s| - 1], f), s[|s| - 1])
  }

  /** Folding a concatenation folds the first part and continues from its
      result. */
  lemma {:induction false} FoldLeftAppend<A>(acc: A, a: seq<Id>, b: seq<Id>, f: (A, Id) -> A)
    ensures FoldLeft(acc, a + b, f) == FoldLeft(FoldLeft(acc, a, f), b, f)
  {
    if b != [] {
      assert (a + b)[..|a + b| - 1] == a + b[..|b| - 1];
      FoldLeftAppend(acc, a, b[..|b| - 1], f);
    } else {
      assert a + b == a;
    }
  }

  /** `run` is the run of siblings from `endL` to `endR`: following `right`
      from `endL` walks it, and the node right of `endR` is not in it, so a
      walk that stops there stops after `endR`. */
  ghost predicate Walkable(m: Store, run: seq<Id>, endL: Id, endR: Id)
  {
    && |run| > 0 && run[0] == endL && run[|run| - 1] == endR
    && Linked(m, run) && m[endR].right !in run
  }

  /** `eachNode`: visit the run from `endL` to `endR` left to right, and
      stop right after a visit answers `false`. Nothing is visited when
      `endL` is absent. */
  method EachNode(m: Store, endL: Id, endR: Id, visit: Id -> bool, ghost run: seq<Id>) returns (visited: seq<Id>)
    requires endL != 0 ==> Walkable(m, run, endL, endR)
    ensures visited == if endL == 0 then [] else UntilStop(run, visit)
  {
    visited := [];
    var el := endL;
    if el == 0 {
      return;
    }
    ghost var i := 0;
    while el != m[endR].right
      invariant 0 <= i <= |run|
      invariant el == if i < |run| then run[i] else m[endR].right
      invariant visited == run[..i]
      invariant forall k | 0 <= k < i :: visit(run[k])
      decreases |run| - i
    {
      visited := visited + [el];
      if !visit(el) {
        UntilStopAt(run, visit, i + 1);
        return;
      }
      el := m[el].right;
      i := i + 1;
    }
    UntilStopAll(run, visit);
  }

  /** `foldNodes`: thread `acc` through `f` over the run from `endL` to
      `endR`, left to right; the seed comes back unchanged when `endL` is
      absent. */
  method FoldNodes<A>(m: Store, endL: Id, endR: Id, acc: A, f: (A, Id) -> A, ghost run: seq<Id>) returns (r: A)
    requires endL != 0 ==> Walkable(m, run, endL, endR)
    ensures r == if endL == 0 then acc else FoldLeft(acc, run, f)
  {
    r := acc;
    var el := endL;
    if el == 0 {
      return;
    }
    ghost var i := 0;
    while el != m[endR].right
      invariant 0 <= i <= |run|
      invariant el == if i < |run| then run[i] else m[endR].right
      invariant r == FoldLeft(acc, run[..i], f)
      decreases |run| - i
    {
      assert run[..i + 1][..i] == run[..i];
      r := f(r, el);
      el := m[el].right;
      i := i + 1;
    }
    assert run[..i] == run;
  }

  /** Following `parent` from `n` reaches the absent node 0 within `k`
      steps. */
  ghost predicate Rooted(m: Store, n: Id, k: nat)
    decreases k
  {
    n == 0 || (n in m && k > 0 && Rooted(m, m[n].parent, k - 1))
  }

  /** `n` and its ancestors, nearest first: each element is the parent of
      the one before it, and the last one has no parent. */
  ghost function Ancestry(m: Store, n: Id, k: nat): (a: seq<Id>)
    requires Rooted(m, n, k)
    ensures n == 0 <==> a == []
    ensures forall i | 0 <= i < |a| :: a[i] in m && a[i] != 0
    ensures a != [] ==> a[0] == n && m[a[|a| - 1]].parent == 0
    ensures forall i | 0 <= i < |a| - 1 :: a[i + 1] == m[a[i]].parent
    decreases k
  {
    if n == 0 then [] else [n] + Ancestry(m, m[n].parent, k - 1)
  }

  /** The ancestry does not depend on the bound used to show the chain
      ends. */
  lemma {:induction false} AncestryBound(m: Store, n: Id, k1: nat, k2: nat)
    requires Rooted(m, n, k1) && Rooted(m, n, k2)
    ensures Ancestry(m, n, k1) == Ancestry(m, n, k2)
    decreases k1
  {
    if n != 0 {
      AncestryBound(m, m[n].parent, k1 - 1, k2 - 1);
    }
  }

  /** `rank` is closed under taking listed children and strictly decreases
      from every ranked parent to each of them, so the subtrees of ranked
      nodes hold no cycle. Nodes outside those subtrees need no rank. */
  ghost predicate Ranked(kids: map<Id, seq<Id>>, rank: map<Id, nat>)
  {
    && (forall p | p in rank :: p in kids)
    && (forall p, i | p in rank && 0 <= i < |kids[p]| ::
          kids[p][i] in rank && rank[kids[p][i]] < rank[p])
  }

  /** A childless node can always be ranked on its own, whatever cycles
      the rest of the store holds. */
  lemma LeafRanked(kids: map<Id, seq<Id>>, n: Id)
    requires n in kids && kids[n] == []
    ensures Ranked(kids, map[n := 0])
  {
  }

  /** The order in which `postOrder` visits the subtree of `n`: each
      child's subtree in list order, then `n`. */
  ghost function PostOrderSeq(kids: map<Id, seq<Id>>, rank: map<Id, nat>, n: Id): (t: seq<Id>)
    requires Ranked(kids, rank) && n in rank
    decreases rank[n], 1
  {
    PostOrderList(kids, rank, kids[n], rank[n]) + [n]
  }

  /** The subtrees of `cs`, in order. */
  ghost function PostOrderList(kids: map<Id, seq<Id>>, rank: map<Id, nat>, cs: seq<Id>, bound: nat): (t: seq<Id>)
    requires Ranked(kids, rank)
    requires forall i | 0 <= i < |cs| :: cs[i] in rank && rank[cs[i]] < bound
    decreases bound, 0, |cs|
  {
    if cs == [] then []
    else PostOrderList(kids, rank, cs[..|cs| - 1], bound) + PostOrderSeq(kids, rank, cs[|cs| - 1])
  }

  /** Walking one more child of a list extends the walk by that child's
      subtree. */
  lemma PostOrderListStep(kids: map<Id, seq<Id>>, rank: map<Id, nat>, cs: seq<Id>, i: nat, bound: nat)
    requires Ranked(kids, rank) && i < |cs|
    requires forall k | 0 <= k < |cs| :: cs[k] in rank && rank[cs[k]] < bound
    ensures PostOrderList(kids, rank, cs[..i + 1], bound)
      == PostOrderList(kids, rank, cs[..i], bound) + PostOrderSeq(kids, rank, cs[i])
  {
    assert cs[..i + 1][..i] == cs[..i];
  }

  /** The walk of `n` is the walk of all of its children, then `n`. */
  lemma PostOrderSeqWhole(kids: map<Id, seq<Id>>, rank: map<Id, nat>, n: Id)
    requires Ranked(kids, rank) && n in rank
    ensures PostOrderSeq(kids, rank, n) == PostOrderList(kids, rank, kids[n][..|kids[n]|], rank[n]) + [n]
  {
    assert kids[n][..|kids[n]|] == kids[n];
  }

  /** Every node in `t` comes after all of its listed children. */
  ghost predicate ChildrenFirst(kids: map<Id, seq<Id>>, t: seq<Id>)
  {
    forall i, j | 0 <= i < |t| && t[i] in kids && 0 <= j < |kids[t[i]]| :: kids[t[i]][j] in t[..i]
  }

  lemma ChildrenFirstAppend(kids: map<Id, seq<Id>>, a: seq<Id>, b: seq<Id>)
    requires ChildrenFirst(kids, a) && ChildrenFirst(kids, b)
    ensures ChildrenFirst(kids, a + b)
  {
    var t := a + b;
    forall i, j | 0 <= i < |t| && t[i] in kids && 0 <= j < |kids[t[i]]|
      ensures kids[t[i]][j] in t[..i]
    {
      if i < |a| {
        assert t[i] == a[i] && t[..i] == a[..i];
      } else {
        assert t[i] == b[i - |a|];
        var c := kids[t[i]][j];
        assert c in b[..i - |a|];
        var x :| 0 <= x < i - |a| && b[x] == c;
        assert t[|a| + x] == c;
      }
    }
  }

  /** `postOrder` visits every child subtree before the node itself: in
      its visiting order every node comes after all of its children, and
      the node is visited last. */
  lemma {:induction false} PostOrderChildrenFirst(kids: map<Id, seq<Id>>, rank: map<Id, nat>, n: Id)
    requires Ranked(kids, rank) && n in rank
    ensures var t := PostOrderSeq(kids, rank, n);
      && ChildrenFirst(kids, t) && t[|t| - 1] == n
    decreases rank[n], 1
  {
    var l := PostOrderList(kids, rank, kids[n], rank[n]);
    PostOrderListChildrenFirst(kids, rank, kids[n], rank[n]);
    var t := l + [n];
    forall i, j | 0 <= i < |t| && t[i] in kids && 0 <= j < |kids[t[i]]|
      ensures kids[t[i]][j] in t[..i]
    {
      assert t[..|l|] == l;
      if i < |l| {
        assert t[i] == l[i] && t[..i] == l[..i];
      }
    }
  }

  lemma {:induction false} PostOrderListChildrenFirst(kids: map<Id, seq<Id>>, rank: map<Id, nat>, cs: seq<Id>, bound: nat)
    requires Ranked(kids, rank)
    requires forall i | 0 <= i < |cs| :: cs[i] in rank && rank[cs[i]] < bound
    ensures var t := PostOrderList(kids, rank, cs, bound);
      && ChildrenFirst(kids, t) && forall i | 0 <= i < |cs| :: cs[i] in t
    decreases bound, 0, |cs|
  {
    if cs != [] {
      var front, c := cs[..|cs| - 1], cs[|cs| - 1];
      PostOrderListChildrenFirst(kids, rank, front, bound);
      PostOrderChildrenFirst(kids, rank, c);
      var a, b := PostOrderList(kids, rank, front, bound), PostOrderSeq(kids, rank, c);
      ChildrenFirstAppend(kids, a, b);
      forall i | 0 <= i < |cs| ensures cs[i] in a + b {
        if i < |cs| - 1 {
          assert cs[i] == front[i];
        } else {
          assert (a + b)[|a + b| - 1] == b[|b| - 1] == c;
        }
      }
    }
  }
}
