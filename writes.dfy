/** The pointer writes of `Fragment.adopt` and `Fragment.disown`, made on
    a store value: the prelude of adopt that sets the gap's side of the
    splice, then its walk over the run, one visited node at a time, and
    why together they build the store `AdoptLinks` describes; and the two
    writes of disown, which build the store `DisownLinks` describes. */
module SpliceWrites {
  import opened Nodes
  import opened Splice

  /** The writes adopt makes before its walk: the parent's left end when
      the gap has no left neighbour, the right neighbour's `left` (or the
      parent's right end), and the run's right end's `right`. */
  ghost function Prelude(m: Store, p: Id, lw: Id, rw: Id, leftEnd: Id, rightEnd: Id): (r: Store)
    requires p in m && rightEnd in m && (rw == 0 || rw in m)
    ensures r.Keys == m.Keys
  {
    var m1 := if lw == 0 then m[p := m[p].(endL := leftEnd)] else m;
    var m2 := if rw != 0 then m1[rw := m1[rw].(left := rightEnd)] else m1[p := m1[p].(endR := rightEnd)];
    m2[rightEnd := m2[rightEnd].(right := rw)]
  }

  /** The writes of one visit of the walk: the node's `left` and `parent`,
      and its predecessor's `right`. */
  ghost function Visit(r: Store, el: Id, leftward: Id, p: Id): (v: Store)
    requires el in r && (leftward == 0 || leftward in r)
    ensures v.Keys == r.Keys
  {
    var r1 := r[el := r[el].(left := leftward, parent := p)];
    if leftward != 0 then r1[leftward := r1[leftward].(right := el)] else r1
  }

  /** The node left of the `k`-th run node once the walk reaches it. */
  function Prev(run: seq<Id>, lw: Id, k: nat): (q: Id)
    requires k <= |run|
  {
    if k == 0 then lw else run[k - 1]
  }

  /** The run's nodes are all in `m`, and so is `lw` unless it is 0. */
  ghost predicate Visitable(m: Store, run: seq<Id>, lw: Id)
  {
    (forall k | 0 <= k < |run| :: run[k] in m) && (lw == 0 || lw in m)
  }

  /** What the walk needs of the store it starts on: a non-empty run of
      distinct nodes, linked left to right, and `lw` outside it. */
  ghost predicate WalkPre(pre: Store, run: seq<Id>, lw: Id)
  {
    && |run| > 0 && Distinct(run) && lw !in run && Visitable(pre, run, lw)
    && (forall k | 0 <= k < |run| - 1 :: pre[run[k]].right == run[k + 1])
  }

  /** The store after the walk, started on `pre`, has made its first `i`
      visits, in order. */
  ghost function Walk(pre: Store, run: seq<Id>, p: Id, lw: Id, i: nat): (r: Store)
    requires i <= |run| && Visitable(pre, run, lw)
    ensures r.Keys == pre.Keys
  {
    if i == 0 then pre
    else Visit(Walk(pre, run, p, lw, i - 1), run[i - 1], Prev(run, lw, i - 1), p)
  }

  /** Node `x` once the first `i` visits are made: each visited node hangs
      under `p` and points left at its predecessor, and `lw` points right
      at the run once the first node is visited. */
  ghost function Walked(pre: Store, run: seq<Id>, p: Id, lw: Id, i: nat, x: Id): (w: Node)
    requires i <= |run| && x in pre
  {
    if x in run && IndexOf(run, x) < i then pre[x].(left := Prev(run, lw, IndexOf(run, x)), parent := p)
    else if lw != 0 && x == lw && i > 0 then pre[x].(right := run[0])
    else pre[x]
  }

  /** A visit writes the visited node ... */
  lemma VisitVisited(r: Store, el: Id, prev: Id, p: Id)
    requires el in r && (prev == 0 || prev in r) && prev != el
    ensures Visit(r, el, prev, p)[el] == r[el].(left := prev, parent := p)
  {
  }

  /** ... its predecessor ... */
  lemma VisitPrev(r: Store, el: Id, prev: Id, p: Id)
    requires el in r && prev in r && prev != el && prev != 0
    ensures Visit(r, el, prev, p)[prev] == r[prev].(right := el)
  {
  }

  /** ... and no other node. */
  lemma VisitOther(r: Store, el: Id, prev: Id, p: Id, x: Id)
    requires el in r && (prev == 0 || prev in r) && x in r && x != el && (x != prev || prev == 0)
    ensures Visit(r, el, prev, p)[x] == r[x]
  {
  }

  /** In the description, the `i`-th visit changes neither the nodes it
      does not write ... */
  lemma WalkedSame(pre: Store, run: seq<Id>, p: Id, lw: Id, i: nat, x: Id)
    requires i < |run| && x in pre && x != run[i] && (i > 0 || x != lw || lw == 0)
    ensures Walked(pre, run, p, lw, i + 1, x) == Walked(pre, run, p, lw, i, x)
  {
  }

  /** ... nor the `right` of any run node ... */
  lemma WalkedRight(pre: Store, run: seq<Id>, p: Id, lw: Id, i: nat, k: nat)
    requires i <= |run| && k < |run| && run[k] in pre && lw !in run
    ensures Walked(pre, run, p, lw, i, run[k]).right == pre[run[k]].right
  {
  }

  /** ... and it hangs the `i`-th node under `p`, pointing at its
      predecessor ... */
  lemma WalkedVisits(pre: Store, run: seq<Id>, p: Id, lw: Id, i: nat)
    requires i < |run| && run[i] in pre && Distinct(run) && lw !in run
    ensures Walked(pre, run, p, lw, i, run[i]) == pre[run[i]]
    ensures Walked(pre, run, p, lw, i + 1, run[i]) == pre[run[i]].(left := Prev(run, lw, i), parent := p)
  {
    IndexOfDistinct(run, i);
  }

  /** ... and, on the first visit, points `lw` right at the run. */
  lemma WalkedLeftNeighbour(pre: Store, run: seq<Id>, p: Id, lw: Id)
    requires |run| > 0 && lw in pre && lw != 0 && lw !in run
    ensures Walked(pre, run, p, lw, 0, lw) == pre[lw]
    ensures Walked(pre, run, p, lw, 1, lw) == pre[lw].(right := run[0])
  {
  }

  /** The walk is the description: after `i` visits of a run that `pre`
      links left to right, every node is as `Walked` says. */
  lemma {:induction false} WalkIsWalked(pre: Store, run: seq<Id>, p: Id, lw: Id, i: nat, x: Id)
    requires i <= |run| && WalkPre(pre, run, lw) && x in pre
    ensures Walk(pre, run, p, lw, i)[x] == Walked(pre, run, p, lw, i, x)
  {
    if i > 0 {
      var j := i - 1;
      var r := Walk(pre, run, p, lw, j);
      var el, prev := run[j], Prev(run, lw, j);
      WalkIsWalked(pre, run, p, lw, j, x);
      if j > 0 {
        assert run[j - 1] != el;
      }
      if x == el {
        VisitVisited(r, el, prev, p);
        WalkedVisits(pre, run, p, lw, j);
      } else if x == prev && prev != 0 {
        VisitPrev(r, el, prev, p);
        if j == 0 {
          WalkedLeftNeighbour(pre, run, p, lw);
        } else {
          assert pre[run[j - 1]].right == el;
          WalkedRight(pre, run, p, lw, j, j - 1);
          WalkedSame(pre, run, p, lw, j, x);
        }
      } else {
        VisitOther(r, el, prev, p, x);
        WalkedSame(pre, run, p, lw, j, x);
      }
    }
  }

  /** The fields the prelude leaves on node `x`. */
  lemma PreludeNode(m: Store, p: Id, lw: Id, rw: Id, leftEnd: Id, rightEnd: Id, x: Id)
    requires p in m && rightEnd in m && Ref(m, rw) && x in m
    ensures var n := Prelude(m, p, lw, rw, leftEnd, rightEnd)[x];
      && n.parent == m[x].parent
      && n.left == (if rw != 0 && x == rw then rightEnd else m[x].left)
      && n.right == (if x == rightEnd then rw else m[x].right)
      && n.endL == (if x == p && lw == 0 then leftEnd else m[x].endL)
      && n.endR == (if x == p && rw == 0 then rightEnd else m[x].endR)
  {
  }

  /** The prelude and the finished walk together give a run node the
      fields `AdoptLinks` describes ... */
  lemma PreludeWalkedRunNode(m: Store, run: seq<Id>, p: Id, lw: Id, rw: Id, k: nat)
    requires p in m && k < |run| && Distinct(run) && Linked(m, run)
    requires lw !in run && rw !in run && Ref(m, rw)
    ensures Walked(Prelude(m, p, lw, rw, run[0], run[|run| - 1]), run, p, lw, |run|, run[k])
      == AdoptLinks(m, run, p, lw, rw)[run[k]]
  {
    var pre := Prelude(m, p, lw, rw, run[0], run[|run| - 1]);
    var x := run[k];
    PreludeNode(m, p, lw, rw, run[0], run[|run| - 1], x);
    IndexOfDistinct(run, k);
    assert Walked(pre, run, p, lw, |run|, x) == pre[x].(left := Prev(run, lw, k), parent := p);
    if k < |run| - 1 {
      assert run[k] != run[|run| - 1];
      assert pre[x].right == run[k + 1];
    }
  }

  /** ... and every other node too. */
  lemma PreludeWalkedOtherNode(m: Store, run: seq<Id>, p: Id, lw: Id, rw: Id, x: Id)
    requires p in m && |run| > 0 && Linked(m, run) && Ref(m, rw) && x in m && x !in run
    ensures Walked(Prelude(m, p, lw, rw, run[0], run[|run| - 1]), run, p, lw, |run|, x)
      == AdoptLinks(m, run, p, lw, rw)[x]
  {
    PreludeNode(m, p, lw, rw, run[0], run[|run| - 1], x);
  }

  /** The prelude leaves the run linked left to right and points its right
      end at `rw`. */
  lemma PreludeKeepsRun(m: Store, run: seq<Id>, p: Id, lw: Id, rw: Id)
    requires p in m && |run| > 0 && Distinct(run) && Linked(m, run) && lw !in run && Ref(m, lw) && Ref(m, rw)
    ensures var pre := Prelude(m, p, lw, rw, run[0], run[|run| - 1]);
      WalkPre(pre, run, lw) && pre[run[|run| - 1]].right == rw
  {
    var pre := Prelude(m, p, lw, rw, run[0], run[|run| - 1]);
    forall k | 0 <= k < |run| - 1 ensures pre[run[k]].right == run[k + 1] {
      assert run[k] != run[|run| - 1];
    }
  }

  /** Every visit leaves the `right` of the run's nodes as the walk found
      them. */
  lemma WalkKeepsRights(pre: Store, run: seq<Id>, p: Id, lw: Id, i: nat, k: nat)
    requires i <= |run| && k < |run| && WalkPre(pre, run, lw)
    ensures Walk(pre, run, p, lw, i)[run[k]].right == pre[run[k]].right
  {
    WalkIsWalked(pre, run, p, lw, i, run[k]);
    WalkedRight(pre, run, p, lw, i, k);
  }

  /** The prelude followed by the whole walk builds the store
      `AdoptLinks` describes. */
  lemma PreludeThenWalk(m: Store, run: seq<Id>, p: Id, lw: Id, rw: Id)
    requires p in m && |run| > 0 && Distinct(run) && Linked(m, run)
    requires lw !in run && rw !in run && Ref(m, lw) && Ref(m, rw)
    ensures var pre := Prelude(m, p, lw, rw, run[0], run[|run| - 1]);
      && WalkPre(pre, run, lw) && pre[run[|run| - 1]].right == rw
      && Walk(pre, run, p, lw, |run|) == AdoptLinks(m, run, p, lw, rw)
  {
    var pre := Prelude(m, p, lw, rw, run[0], run[|run| - 1]);
    PreludeKeepsRun(m, run, p, lw, rw);
    var w := Walk(pre, run, p, lw, |run|);
    var a := AdoptLinks(m, run, p, lw, rw);
    forall x | x in w ensures w[x] == a[x] {
      WalkIsWalked(pre, run, p, lw, |run|, x);
      if x in run {
        PreludeWalkedRunNode(m, run, p, lw, rw, IndexOf(run, x));
      } else {
        PreludeWalkedOtherNode(m, run, p, lw, rw, x);
      }
    }
    StoreExt(w, a);
  }

  /** The prelude of `adopt`, written field by field. */
  method WritePrelude(m: Store, p: Id, lw: Id, rw: Id, leftEnd: Id, rightEnd: Id) returns (links: Store)
    requires p in m && rightEnd in m && Ref(m, rw)
    ensures links == Prelude(m, p, lw, rw, leftEnd, rightEnd)
  {
    links := m;
    if lw == 0 {
      links := links[p := links[p].(endL := leftEnd)];
    }
    if rw != 0 {
      links := links[rw := links[rw].(left := rightEnd)];
    } else {
      links := links[p := links[p].(endR := rightEnd)];
    }
    links := links[rightEnd := links[rightEnd].(right := rw)];
  }

  /** One visit of adopt's walk, written field by field. */
  method WriteVisit(links: Store, el: Id, leftward: Id, p: Id) returns (r: Store)
    requires el in links && Ref(links, leftward)
    ensures r == Visit(links, el, leftward, p)
  {
    r := links[el := links[el].(left := leftward, parent := p)];
    if leftward != 0 {
      r := r[leftward := r[leftward].(right := el)];
    }
  }

  /** The walk of `adopt` (`self.each`): from the run's left end, follow
      `right` until the node right of the run's right end, visiting each
      node, and remembering it as the next node's predecessor. */
  method WalkRun(pre: Store, p: Id, lw: Id, rw: Id, leftEnd: Id, rightEnd: Id, ghost run: seq<Id>) returns (links: Store)
    requires WalkPre(pre, run, lw) && run[0] == leftEnd && run[|run| - 1] == rightEnd
    requires pre[rightEnd].right == rw && rw !in run
    ensures links == Walk(pre, run, p, lw, |run|)
  {
    links := pre;
    var leftward := lw;
    var el := leftEnd;
    ghost var i := 0;
    while el != links[rightEnd].right
      invariant 0 <= i <= |run| && links == Walk(pre, run, p, lw, i)
      invariant rightEnd in links && links[rightEnd].right == rw
      invariant el == if i < |run| then run[i] else rw
      invariant leftward == Prev(run, lw, i)
      decreases |run| - i
    {
      links := WriteVisit(links, el, leftward, p);
      WalkKeepsRights(pre, run, p, lw, i + 1, i);
      leftward := el;
      el := links[el].right;
      i := i + 1;
      WalkKeepsRights(pre, run, p, lw, i, |run| - 1);
    }
  }

  /** The two writes of `disown`, field by field: the node left of the run
      (or the parent's left end) is pointed at the node right of it, then
      that node (or the parent's right end) back at the node left of it. */
  method DisownWrites(m: Store, p: Id, leftEnd: Id, rightEnd: Id) returns (links: Store)
    requires leftEnd in m && rightEnd in m && p in m
    requires Ref(m, m[leftEnd].left) && Ref(m, m[rightEnd].right) && m[leftEnd].left != rightEnd
    ensures links == DisownLinks(m, p, leftEnd, rightEnd)
  {
    links := m;
    if links[leftEnd].left != 0 {
      links := links[links[leftEnd].left := links[links[leftEnd].left].(right := links[rightEnd].right)];
    } else {
      links := links[p := links[p].(endL := links[rightEnd].right)];
    }
    if links[rightEnd].right != 0 {
      links := links[links[rightEnd].right := links[links[rightEnd].right].(left := links[leftEnd].left)];
    } else {
      links := links[p := links[p].(endR := links[leftEnd].left)];
    }
  }
}
