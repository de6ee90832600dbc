/** The pointer surgery of `Fragment.adopt` and `Fragment.disown`, stated as
    functions from the store before the splice to the store after it
    (`AdoptLinks`, `DisownLinks`), and again as relations that say field by
    field what a splice changes and what it leaves alone (`AdoptSpec`,
    `DisownSpec`); each function is the one store its relation allows. */
module Splice {
  import opened Nodes

  /** Every element of `run` exists and is listed under no parent: the run
      may be adopted without first being disowned. */
  ghost predicate Detached(m: Store, kids: map<Id, seq<Id>>, run: seq<Id>)
  {
    forall i | 0 <= i < |run| :: run[i] in m && !Listed(m, kids, run[i])
  }

  /** A node of a detached run is listed under no parent. */
  lemma DetachedAt(m: Store, kids: map<Id, seq<Id>>, run: seq<Id>, k: nat)
    requires Detached(m, kids, run) && k < |run|
    ensures !Listed(m, kids, run[k])
  {
  }

  /** Following `right` from the first element of `run` walks the run. */
  ghost predicate Linked(m: Store, run: seq<Id>)
  {
    && (forall i | 0 <= i < |run| :: run[i] in m)
    && (forall i | 0 <= i < |run| - 1 :: m[run[i]].right == run[i + 1])
  }

  /** The node `x` (whose fields were `o`) after `run` was adopted into the
      gap `(p, lw, rw)`. */
  function AdoptedNode(x: Id, o: Node, run: seq<Id>, p: Id, lw: Id, rw: Id): (a: Node)
    requires |run| > 0
  {
    var endL := if x == p && lw == 0 then run[0] else o.endL;
    var endR := if x == p && rw == 0 then run[|run| - 1] else o.endR;
    if x in run then
      var i := IndexOf(run, x);
      Node(p, if i == 0 then lw else run[i - 1], if i == |run| - 1 then rw else run[i + 1], endL, endR)
    else
      Node(o.parent,
           if rw != 0 && x == rw then run[|run| - 1] else o.left,
           if lw != 0 && x == lw then run[0] else o.right,
           endL, endR)
  }

  /** The store after `Fragment(run[0], run[|run| - 1]).adopt(p, lw, rw)`. */
  ghost function AdoptLinks(m: Store, run: seq<Id>, p: Id, lw: Id, rw: Id): (r: Store)
    requires |run| > 0
    ensures r.Keys == m.Keys
  {
    map x | x in m :: AdoptedNode(x, m[x], run, p, lw, rw)
  }

  /** What adopt does to the run: every element now hangs under `p`,
      consecutive elements are linked both ways, and the run's outer links
      point at the gap's neighbours. */
  lemma AdoptLinksRun(m: Store, run: seq<Id>, p: Id, lw: Id, rw: Id)
    requires |run| > 0 && Distinct(run) && (forall i | 0 <= i < |run| :: run[i] in m)
    ensures var r := AdoptLinks(m, run, p, lw, rw);
      && (forall i | 0 <= i < |run| :: r[run[i]].parent == p)
      && (forall i | 0 <= i < |run| - 1 :: r[run[i]].right == run[i + 1] && r[run[i + 1]].left == run[i])
      && r[run[0]].left == lw && r[run[|run| - 1]].right == rw
  {
    var r := AdoptLinks(m, run, p, lw, rw);
    forall i | 0 <= i < |run|
      ensures r[run[i]].parent == p
      ensures r[run[i]].left == if i == 0 then lw else run[i - 1]
      ensures r[run[i]].right == if i == |run| - 1 then rw else run[i + 1]
    {
      IndexOfDistinct(run, i);
      assert r[run[i]] == AdoptedNode(run[i], m[run[i]], run, p, lw, rw);
    }
  }

  /** What adopt does outside the run: the gap's two neighbours (or the
      parent's ends) now point at the run's ends, and nothing else changes. */
  lemma AdoptLinksFrame(m: Store, run: seq<Id>, p: Id, lw: Id, rw: Id)
    requires |run| > 0 && Distinct(run) && (forall i | 0 <= i < |run| :: run[i] in m)
    requires lw !in run && rw !in run
    ensures var r := AdoptLinks(m, run, p, lw, rw);
      && (lw != 0 && lw in m ==> r[lw].right == run[0])
      && (rw != 0 && rw in m ==> r[rw].left == run[|run| - 1])
      && (p in m && lw == 0 ==> r[p].endL == run[0])
      && (p in m && rw == 0 ==> r[p].endR == run[|run| - 1])
      // nothing else changes
      && (forall x | x in m && x !in run :: r[x].parent == m[x].parent)
      && (forall x | x in m && x !in run && (rw == 0 || x != rw) :: r[x].left == m[x].left)
      && (forall x | x in m && x !in run && (lw == 0 || x != lw) :: r[x].right == m[x].right)
      && (forall x | x in m && (x != p || lw != 0) :: r[x].endL == m[x].endL)
      && (forall x | x in m && (x != p || rw != 0) :: r[x].endR == m[x].endR)
  {
  }

  /** The store after disowning the run from `leftEnd` to `rightEnd` whose
      current parent is `p`: the node left of the run and the node right of
      it (or the parent's ends) are pointed at each other. The run's own
      nodes are not touched. */
  ghost function DisownLinks(m: Store, p: Id, leftEnd: Id, rightEnd: Id): (r: Store)
    requires leftEnd in m && rightEnd in m
    ensures r.Keys == m.Keys
    ensures var a, b := m[leftEnd].left, m[rightEnd].right;
      && (a != 0 && a in m ==> r[a].right == b)
      && (a == 0 && p in m ==> r[p].endL == b)
      && (b != 0 && b in m ==> r[b].left == a)
      && (b == 0 && p in m ==> r[p].endR == a)
      && (forall x | x in m :: r[x].parent == m[x].parent)
      && (forall x | x in m && (b == 0 || x != b) :: r[x].left == m[x].left)
      && (forall x | x in m && (a == 0 || x != a) :: r[x].right == m[x].right)
      && (forall x | x in m && (x != p || a != 0) :: r[x].endL == m[x].endL)
      && (forall x | x in m && (x != p || b != 0) :: r[x].endR == m[x].endR)
  {
    var a, b := m[leftEnd].left, m[rightEnd].right;
    map x | x in m ::
      var o := m[x];
      Node(o.parent,
           if b != 0 && x == b then a else o.left,
           if a != 0 && x == a then b else o.right,
           if x == p && a == 0 then b else o.endL,
           if x == p && b == 0 then a else o.endR)
  }

  /** What adopt does to the run and the gap, as a relation between the
      store before (`m`) and after (`r`). */
  ghost predicate AdoptRunSpec(m: Store, r: Store, run: seq<Id>, p: Id, lw: Id, rw: Id)
  {
    && r.Keys == m.Keys && |run| > 0
    && (forall i | 0 <= i < |run| :: run[i] in m && r[run[i]].parent == p)
    && (forall i | 0 <= i < |run| - 1 :: r[run[i]].right == run[i + 1] && r[run[i + 1]].left == run[i])
    && r[run[0]].left == lw && r[run[|run| - 1]].right == rw
    && (lw != 0 && lw in m ==> r[lw].right == run[0])
    && (rw != 0 && rw in m ==> r[rw].left == run[|run| - 1])
    && (p in m && lw == 0 ==> r[p].endL == run[0])
    && (p in m && rw == 0 ==> r[p].endR == run[|run| - 1])
  }

  /** What adopt leaves alone: the links of every node outside the run and
      the gap ... */
  ghost predicate AdoptLinkFrame(m: Store, r: Store, run: seq<Id>, lw: Id, rw: Id)
  {
    && r.Keys == m.Keys
    && (forall x | x in m && x !in run :: r[x].parent == m[x].parent)
    && (forall x | x in m && x !in run && (rw == 0 || x != rw) :: r[x].left == m[x].left)
    && (forall x | x in m && x !in run && (lw == 0 || x != lw) :: r[x].right == m[x].right)
  }

  /** ... and the ends of every node but the parent's ends at an empty side
      of the gap. */
  ghost predicate AdoptEndsFrame(m: Store, r: Store, p: Id, lw: Id, rw: Id)
  {
    && r.Keys == m.Keys
    && (forall x | x in m && (x != p || lw != 0) :: r[x].endL == m[x].endL)
    && (forall x | x in m && (x != p || rw != 0) :: r[x].endR == m[x].endR)
  }

  /** Everything adopt does to the store: it fixes every field of every
      node. */
  ghost predicate AdoptSpec(m: Store, r: Store, run: seq<Id>, p: Id, lw: Id, rw: Id)
  {
    && AdoptRunSpec(m, r, run, p, lw, rw)
    && AdoptLinkFrame(m, r, run, lw, rw)
    && AdoptEndsFrame(m, r, p, lw, rw)
  }

  lemma AdoptLinksSpec(m: Store, run: seq<Id>, p: Id, lw: Id, rw: Id)
    requires |run| > 0 && Distinct(run) && (forall i | 0 <= i < |run| :: run[i] in m)
    requires lw !in run && rw !in run
    ensures AdoptSpec(m, AdoptLinks(m, run, p, lw, rw), run, p, lw, rw)
  {
    AdoptLinksRun(m, run, p, lw, rw);
    AdoptLinksFrame(m, run, p, lw, rw);
  }

  /** What disown does to the gap it leaves, as a relation between the
      store before (`m`) and after (`r`), where `a` and `b` are the nodes
      left and right of the run. */
  ghost predicate DisownGapSpec(m: Store, r: Store, p: Id, a: Id, b: Id)
  {
    && r.Keys == m.Keys
    && (a != 0 && a in m ==> r[a].right == b)
    && (a == 0 && p in m ==> r[p].endL == b)
    && (b != 0 && b in m ==> r[b].left == a)
    && (b == 0 && p in m ==> r[p].endR == a)
  }

  /** What disown leaves alone: every other link, the run's own nodes
      included ... */
  ghost predicate DisownLinkFrame(m: Store, r: Store, a: Id, b: Id)
  {
    && r.Keys == m.Keys
    && (forall x | x in m :: r[x].parent == m[x].parent)
    && (forall x | x in m && (b == 0 || x != b) :: r[x].left == m[x].left)
    && (forall x | x in m && (a == 0 || x != a) :: r[x].right == m[x].right)
  }

  /** ... and every end but the parent's ends at an empty side of the gap. */
  ghost predicate DisownEndsFrame(m: Store, r: Store, p: Id, a: Id, b: Id)
  {
    && r.Keys == m.Keys
    && (forall x | x in m && (x != p || a != 0) :: r[x].endL == m[x].endL)
    && (forall x | x in m && (x != p || b != 0) :: r[x].endR == m[x].endR)
  }

  /** Everything disown does to the store. */
  ghost predicate DisownSpec(m: Store, r: Store, p: Id, a: Id, b: Id)
  {
    && DisownGapSpec(m, r, p, a, b)
    && DisownLinkFrame(m, r, a, b)
    && DisownEndsFrame(m, r, p, a, b)
  }

  lemma DisownLinksSpec(m: Store, p: Id, leftEnd: Id, rightEnd: Id)
    requires leftEnd in m && rightEnd in m
    ensures DisownSpec(m, DisownLinks(m, p, leftEnd, rightEnd), p, m[leftEnd].left, m[rightEnd].right)
  {
  }

  /** The adopt relation fixes every field of a node in the run ... */
  lemma AdoptSpecRunNode(m: Store, r1: Store, r2: Store, run: seq<Id>, p: Id, lw: Id, rw: Id, k: nat)
    requires Distinct(run) && k < |run| && lw !in run && rw !in run
    requires AdoptRunSpec(m, r1, run, p, lw, rw) && AdoptRunSpec(m, r2, run, p, lw, rw)
    requires AdoptEndsFrame(m, r1, p, lw, rw) && AdoptEndsFrame(m, r2, p, lw, rw)
    ensures r1[run[k]] == r2[run[k]]
  {
    var x := run[k];
    assert r1[x].parent == r2[x].parent;
    if k > 0 {
      var i := k - 1;
      assert r1[run[i + 1]].left == run[i] && r2[run[i + 1]].left == run[i];
    }
    if k < |run| - 1 {
      assert r1[run[k]].right == run[k + 1] && r2[run[k]].right == run[k + 1];
    }
    assert r1[x].endL == r2[x].endL;
    assert r1[x].endR == r2[x].endR;
  }

  /** ... and of every node outside it, ... */
  lemma AdoptSpecOtherNode(m: Store, r1: Store, r2: Store, run: seq<Id>, p: Id, lw: Id, rw: Id, x: Id)
    requires |run| > 0 && x in m && x !in run
    requires AdoptSpec(m, r1, run, p, lw, rw) && AdoptSpec(m, r2, run, p, lw, rw)
    ensures r1[x] == r2[x]
  {
  }

  /** ... so two stores that satisfy it are equal, ... */
  lemma AdoptSpecEqual(m: Store, r1: Store, r2: Store, run: seq<Id>, p: Id, lw: Id, rw: Id)
    requires Distinct(run) && lw !in run && rw !in run
    requires AdoptSpec(m, r1, run, p, lw, rw) && AdoptSpec(m, r2, run, p, lw, rw)
    ensures r1 == r2
  {
    forall x | x in m ensures r1[x] == r2[x] {
      if x in run {
        var k :| 0 <= k < |run| && run[k] == x;
        AdoptSpecRunNode(m, r1, r2, run, p, lw, rw, k);
      } else {
        AdoptSpecOtherNode(m, r1, r2, run, p, lw, rw, x);
      }
    }
  }

  /** ... and a store that satisfies it is the store `AdoptLinks` builds. */
  lemma AdoptSpecUnique(m: Store, r: Store, run: seq<Id>, p: Id, lw: Id, rw: Id)
    requires |run| > 0 && Distinct(run) && (forall i | 0 <= i < |run| :: run[i] in m)
    requires lw !in run && rw !in run
    requires AdoptSpec(m, r, run, p, lw, rw)
    ensures r == AdoptLinks(m, run, p, lw, rw)
  {
    AdoptLinksSpec(m, run, p, lw, rw);
    AdoptSpecEqual(m, r, AdoptLinks(m, run, p, lw, rw), run, p, lw, rw);
  }

  /** The disown relation fixes every field of every node as well. */
  lemma DisownSpecUnique(m: Store, r: Store, p: Id, leftEnd: Id, rightEnd: Id)
    requires leftEnd in m && rightEnd in m
    requires DisownSpec(m, r, p, m[leftEnd].left, m[rightEnd].right)
    ensures r == DisownLinks(m, p, leftEnd, rightEnd)
  {
    var d := DisownLinks(m, p, leftEnd, rightEnd);
    DisownLinksSpec(m, p, leftEnd, rightEnd);
    forall x | x in m ensures r[x] == d[x] {
    }
  }
}
