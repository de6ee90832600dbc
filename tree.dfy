/** The objects of the tree: points, the node store with its id counter
    and the per-node operations, and fragments, the one-way views over a
    run of siblings through which every splice is made. Node objects are
    kept in the store by id; a field write `x.f = v` of the source is an
    update of the record stored under `x`. */
module Tree {
  import opened Direction
  import opened Nodes
  import opened Splice
  import opened Forest
  import opened Traversal
  import opened SpliceWrites

  /** A position between two siblings under a parent. */
  class Point {
    var parent: Id
    var left: Id
    var right: Id

    /** `init`: set all three fields. */
    method Init(parent: Id, leftward: Id, rightward: Id)
      modifies this
      ensures this.parent == parent && left == leftward && right == rightward
    {
      this.parent := parent;
      left := leftward;
      right := rightward;
    }

    constructor (parent: Id, leftward: Id, rightward: Id)
      ensures this.parent == parent && left == leftward && right == rightward
    {
      new;
      Init(parent, leftward, rightward);
    }

    /** `copy`: a new point at the same position. */
    static method Copy(pt: Point) returns (q: Point)
      ensures fresh(q)
      ensures q.parent == pt.parent && q.left == pt.left && q.right == pt.right
    {
      q := new Point(pt.parent, pt.left, pt.right);
    }
  }

  /** Every node object and the global id counter. `children` is the
      abstract child list of every node, which the links must spell out. */
  class NodeStore {
    var links: Store
    var idCounter: nat
    ghost var children: map<Id, seq<Id>>

    /** The links are a well-formed forest with the given child lists, and
        the nodes are exactly those numbered 1 to `idCounter`. */
    ghost predicate Valid()
      reads this
    {
      Consistent(links, children, idCounter)
    }

    constructor ()
      ensures Valid() && links == map[] && idCounter == 0
    {
      links := map[];
      idCounter := 0;
      children := map[];
    }

    /** The node constructor: take the next id from the counter and store
        a node whose five structural fields are all absent. */
    method NewNode() returns (id: Id)
      requires Valid()
      modifies this
      ensures Valid()
      ensures id == old(idCounter) + 1 && idCounter == id && id !in old(links)
      ensures Grown(old(links), old(children), old(idCounter), links, children)
      ensures !Listed(links, children, id)
    {
      ghost var m, kids, n := links, children, idCounter;
      id := idCounter + 1;
      links, children, idCounter := links[id := Fresh], children[id := []], id;
      NewNodeKeepsConsistent(m, kids, n, links, children);
    }

    /** `isEmpty`: both ends of the child list are absent exactly when the
        node has no children. */
    function IsEmpty(n: Id): (r: bool)
      reads this
      requires Valid() && n in links
      ensures r <==> children[n] == []
    {
      assert ListOf(links, n, children[n]);
      links[n].endL == 0 && links[n].endR == 0
    }

    /** The children of `n` are a run the sibling walk can follow. */
    lemma ChildrenWalkable(n: Id)
      requires Valid() && n in links
      ensures links[n].endL == 0 <==> children[n] == []
      ensures children[n] != [] ==> Walkable(links, children[n], links[n].endL, links[n].endR)
      ensures children[n] != [] ==> links[links[n].endL].parent == n && links[links[n].endR].parent == n
    {
      var s := children[n];
      assert ListOf(links, n, s);
      if s != [] {
        ListOfAt(links, n, s, 0);
        ListOfAt(links, n, s, |s| - 1);
        assert 0 !in s by {
          forall i | 0 <= i < |s| ensures s[i] != 0 { ListOfAt(links, n, s, i); }
        }
      }
    }

    /** `children`: a fragment over the child list of `n`. */
    method Children(n: Id) returns (f: Fragment)
      requires Valid() && n in links
      ensures fresh(f) && !f.disowned
      ensures f.endL == links[n].endL && f.endR == links[n].endR
    {
      ChildrenWalkable(n);
      f := new Fragment(this, links[n].endL, links[n].endR);
    }

    /** `eachChild`: visit the children of `n` left to right, stopping
        right after a visit answers `false`. */
    method EachChild(n: Id, visit: Id -> bool) returns (visited: seq<Id>)
      requires Valid() && n in links
      ensures visited == UntilStop(children[n], visit)
    {
      ChildrenWalkable(n);
      visited := EachNode(links, links[n].endL, links[n].endR, visit, children[n]);
    }

    /** `foldChildren`: thread `acc` through `f` over the children of `n`,
        left to right. */
    method FoldChildren<A>(n: Id, acc: A, f: (A, Id) -> A) returns (r: A)
      requires Valid() && n in links
      ensures r == FoldLeft(acc, children[n], f)
    {
      ChildrenWalkable(n);
      r := FoldNodes(links, links[n].endL, links[n].endR, acc, f, children[n]);
    }

    /** `bubble`: visit `n`, then each successive parent until the parent
        is absent, stopping right after a visit answers `false`. */
    method Bubble(n: Id, visit: Id -> bool, ghost k: nat) returns (visited: seq<Id>)
      requires Rooted(links, n, k)
      ensures visited == UntilStop(Ancestry(links, n, k), visit)
    {
      ghost var a := Ancestry(links, n, k);
      visited := [];
      var ancestor := n;
      ghost var i := 0;
      while ancestor != 0
        invariant 0 <= i <= |a|
        invariant ancestor == if i < |a| then a[i] else 0
        invariant visited == a[..i]
        invariant forall j | 0 <= j < i :: visit(a[j])
        decreases |a| - i
      {
        visited := visited + [ancestor];
        assert visited == a[..i + 1];
        if !visit(ancestor) {
          UntilStopAt(a, visit, i + 1);
          return;
        }
        assert ancestor == a[i];
        if i + 1 < |a| {
          assert a[i + 1] == links[a[i]].parent;
        } else {
          assert links[a[|a| - 1]].parent == 0;
        }
        ancestor := links[ancestor].parent;
        i := i + 1;
      }
      assert visited == a;
      UntilStopAll(a, visit);
    }

    /** `postOrder`: visit every child subtree of `n` in list order, then
        `n`; the callback cannot stop the walk, so the walk is the order
        of the visits. */
    method PostOrder(n: Id, ghost rank: map<Id, nat>) returns (visited: seq<Id>)
      requires Valid() && n in links && Ranked(children, rank) && n in rank
      ensures visited == PostOrderSeq(children, rank, n)
      decreases rank[n]
    {
      ChildrenWalkable(n);
      ghost var s := children[n];
      visited := [];
      var el := links[n].endL;
      if el != 0 {
        var last := links[n].endR;
        ghost var i := 0;
        while el != links[last].right
          invariant 0 <= i <= |s|
          invariant el == if i < |s| then s[i] else links[last].right
          invariant visited == PostOrderList(children, rank, s[..i], rank[n])
          decreases |s| - i
        {
          PostOrderListStep(children, rank, s, i, rank[n]);
          var sub := PostOrder(el, rank);
          visited := visited + sub;
          el := links[el].right;
          i := i + 1;
        }
      }
      PostOrderSeqWhole(children, rank, n);
      visited := visited + [n];
    }

    /** The link writes of a fragment's `adopt` on a nonempty run. */
    method SpliceIn(p: Id, lw: Id, rw: Id, leftEnd: Id, rightEnd: Id, ghost run: seq<Id>)
      requires Valid() && AdoptReady(links, children, run, p, lw, rw, leftEnd, rightEnd)
      modifies this`links, this`children
      ensures Valid()
      ensures Adopted(old(links), old(children), links, children, run, p, lw, rw)
      ensures forall i | 0 <= i < |run| :: Listed(links, children, run[i])
    {
      ghost var m, kids := links, children;
      var links';
      ghost var kids';
      links', kids' := AdoptOnStore(links, children, p, lw, rw, leftEnd, rightEnd, run);
      links, children := links', kids';
      AdoptKeepsConsistent(m, kids, idCounter, run, p, lw, rw, links, children);
    }

    /** `adopt` on a node: adopt the one-node run `[n]` into the gap. */
    method Adopt(n: Id, p: Id, lw: Id, rw: Id)
      requires Valid() && n in links
      requires AdoptPre(links, children, [n], p, lw, rw)
      modifies this`links, this`children
      ensures Valid()
      ensures Adopted(old(links), old(children), links, children, [n], p, lw, rw)
      ensures Listed(links, children, n)
    {
      var f := new Fragment(this, n, n);
      f.Adopt(this, p, lw, rw, [n]);
    }

    /** `withDirAdopt` on a node. */
    method WithDirAdopt(dir: Dir, n: Id, p: Id, withDir: Id, oppDir: Id)
      requires Valid() && n in links
      requires AdoptPre(links, children, [n], p, Gap(dir, withDir, oppDir).0, Gap(dir, withDir, oppDir).1)
      modifies this`links, this`children
      ensures Valid()
      ensures var (lw, rw) := Gap(dir, withDir, oppDir);
        Adopted(old(links), old(children), links, children, [n], p, lw, rw)
    {
      var f := new Fragment(this, n, n);
      f.WithDirAdopt(this, dir, p, withDir, oppDir, [n]);
    }

    /** `disown` on a node: a fresh fragment is built on every call, so its
        flag never guards anything and the node must be listed under its
        parent for the gap checks to pass. */
    method Disown(n: Id)
      requires Valid() && Listed(links, children, n)
      modifies this`links, this`children
      ensures Valid()
      ensures var p := old(links)[n].parent;
        var i := IndexOf(old(children)[p], n);
        Disowned(old(links), old(children), links, children, p, i, i)
      ensures !Listed(links, children, n)
    {
      var p := links[n].parent;
      ghost var s := children[p];
      ghost var i := IndexOf(s, n);
      var f := new Fragment(this, n, n);
      f.Disown(this, i, i);
      DetachedAt(links, children, s[i..i + 1], 0);
    }
  }

  /** The gap `withDirAdopt(dir, parent, withDir, oppDir)` adopts into, as
      `(leftward, rightward)`: `withDir` is the neighbour on side `dir` and
      `oppDir` the neighbour on the opposite side. */
  function Gap(dir: Dir, withDir: Id, oppDir: Id): (g: (Id, Id))
    ensures (if dir == L then g.0 else g.1) == withDir
    ensures (if Opposite(dir) == L then g.0 else g.1) == oppDir
  {
    if dir == L then (withDir, oppDir) else (oppDir, withDir)
  }

  /** The writes `adopt` makes for a nonempty run, on the store's links:
      they produce the splice `AdoptLinks`. */
  method AdoptOnStore(m: Store, ghost kids: map<Id, seq<Id>>, p: Id, lw: Id, rw: Id,
                      leftEnd: Id, rightEnd: Id, ghost run: seq<Id>) returns (links: Store, ghost kids': map<Id, seq<Id>>)
    requires AdoptReady(m, kids, run, p, lw, rw, leftEnd, rightEnd)
    ensures Adopted(m, kids, links, kids', run, p, lw, rw)
  {
    AdoptPreCase(m, kids, run, p, lw, rw);
    PreludeThenWalk(m, run, p, lw, rw);
    links := WritePrelude(m, p, lw, rw, leftEnd, rightEnd);
    links := WalkRun(links, p, lw, rw, leftEnd, rightEnd, run);
    kids' := kids[p := Insert(kids[p], lw, run)];
  }

  /** The writes `disown` makes for the slice `kids[p][i..j]` (inclusive):
      they produce `DisownLinks`. */
  method DisownOnStore(m: Store, ghost kids: map<Id, seq<Id>>, p: Id, leftEnd: Id, rightEnd: Id,
                       ghost i: nat, ghost j: nat) returns (links: Store, ghost kids': map<Id, seq<Id>>)
    requires DisownPre(m, kids, p, i, j)
    requires kids[p][i] == leftEnd && kids[p][j] == rightEnd
    ensures Disowned(m, kids, links, kids', p, i, j)
  {
    SliceBoundariesAreGaps(m, kids, p, i, j);
    links := DisownWrites(m, p, leftEnd, rightEnd);
    kids' := kids[p := Cut(kids[p], i, j)];
  }

  /** A one-way view over the run of siblings from `endL` to `endR`; both
      ends are absent for an empty fragment. */
  class Fragment {
    const endL: Id
    const endR: Id
    var disowned: bool

    /** The ends are `withDir` on side `dir` and `oppDir` on the other;
        both are absent or both are nodes with the same parent. */
    constructor (store: NodeStore, withDir: Id, oppDir: Id, dir: Dir := L)
      requires (withDir == 0) == (oppDir == 0)
      requires withDir != 0 ==>
        withDir in store.links && oppDir in store.links
        && store.links[withDir].parent == store.links[oppDir].parent
      ensures (if dir == L then endL else endR) == withDir
      ensures (if dir == L then endR else endL) == oppDir
      ensures !disowned
    {
      if dir == L {
        endL, endR := withDir, oppDir;
      } else {
        endL, endR := oppDir, withDir;
      }
      disowned := false;
    }

    /** `each`: visit the run left to right, stopping right after a visit
        answers `false`. */
    method Each(store: NodeStore, visit: Id -> bool, ghost run: seq<Id>) returns (visited: seq<Id>)
      requires endL != 0 ==> Walkable(store.links, run, endL, endR)
      ensures visited == if endL == 0 then [] else UntilStop(run, visit)
    {
      visited := EachNode(store.links, endL, endR, visit, run);
    }

    /** `fold`: thread `acc` through `f` over the run, left to right. */
    method Fold<A>(store: NodeStore, acc: A, f: (A, Id) -> A, ghost run: seq<Id>) returns (r: A)
      requires endL != 0 ==> Walkable(store.links, run, endL, endR)
      ensures r == if endL == 0 then acc else FoldLeft(acc, run, f)
    {
      r := FoldNodes(store.links, endL, endR, acc, f, run);
    }

    /** `adopt`: splice the run into the gap `(p, lw, rw)`. The gap is
        checked first; the flag is cleared; an empty fragment then stops.
        Otherwise the parent's ends at an empty side of the gap, the right
        neighbour and the run's right end are pointed at each other, and a
        walk over the run points each node's `left` at its predecessor,
        its `parent` at `p`, and its predecessor's `right` back at it. */
    method Adopt(store: NodeStore, p: Id, lw: Id, rw: Id, ghost run: seq<Id>)
      requires store.Valid() && WellFormedGap(store.links, p, lw, rw)
      requires endL != 0 ==> AdoptReady(store.links, store.children, run, p, lw, rw, endL, endR)
      modifies this`disowned, store`links, store`children
      ensures !disowned && store.Valid()
      ensures endL == 0 ==> store.links == old(store.links) && store.children == old(store.children)
      ensures endL != 0 ==>
        && Adopted(old(store.links), old(store.children), store.links, store.children, run, p, lw, rw)
        && forall i | 0 <= i < |run| :: Listed(store.links, store.children, run[i])
    {
      disowned := false;
      var leftEnd := endL;
      if leftEnd == 0 {
        return;
      }
      var rightEnd := endR;
      store.SpliceIn(p, lw, rw, leftEnd, rightEnd, run);
    }

    /** `withDirAdopt`: adopt with `withDir` as the neighbour on side `dir`
        and `oppDir` on the other side. */
    method WithDirAdopt(store: NodeStore, dir: Dir, p: Id, withDir: Id, oppDir: Id, ghost run: seq<Id>)
      requires var (lw, rw) := Gap(dir, withDir, oppDir);
        && store.Valid() && WellFormedGap(store.links, p, lw, rw)
        && (endL != 0 ==> AdoptReady(store.links, store.children, run, p, lw, rw, endL, endR))
      modifies this`disowned, store`links, store`children
      ensures !disowned && store.Valid()
      ensures var (lw, rw) := Gap(dir, withDir, oppDir);
        && (endL == 0 ==> store.links == old(store.links) && store.children == old(store.children))
        && (endL != 0 ==> Adopted(old(store.links), old(store.children), store.links, store.children, run, p, lw, rw))
    {
      if dir == L {
        Adopt(store, p, withDir, oppDir, run);
      } else {
        Adopt(store, p, oppDir, withDir, run);
      }
    }

    /** `disown`: unless the fragment is empty or already disowned, set the
        flag and point the run's two outer neighbours (or the parent's ends)
        at each other. The run's own nodes keep every link. The gap checks
        on both sides of the run hold because the run is the slice
        `children[p][i..j]` (inclusive) of its parent's list. */
    method Disown(store: NodeStore, ghost i: nat, ghost j: nat)
      requires store.Valid()
      requires endL != 0 && !disowned ==>
        && endL in store.links
        && var p := store.links[endL].parent;
          p in store.links && i <= j < |store.children[p]|
          && store.children[p][i] == endL && store.children[p][j] == endR
      modifies this`disowned, store`links, store`children
      ensures store.Valid()
      ensures endL == 0 || old(disowned) ==>
        disowned == old(disowned) && store.links == old(store.links) && store.children == old(store.children)
      ensures endL != 0 && !old(disowned) ==>
        var p := old(store.links)[endL].parent;
        && disowned
        && Disowned(old(store.links), old(store.children), store.links, store.children, p, i, j)
        && Detached(store.links, store.children, old(store.children)[p][i..j + 1])
        && Linked(store.links, old(store.children)[p][i..j + 1])
    {
      var leftEnd := endL;
      if leftEnd == 0 || disowned {
        return;
      }
      disowned := true;
      var rightEnd := endR;
      var parent := store.links[leftEnd].parent;
      ghost var m, kids := store.links, store.children;
      var links';
      ghost var kids';
      links', kids' := DisownOnStore(store.links, store.children, parent, leftEnd, rightEnd, i, j);
      store.links, store.children := links', kids';
      DisownKeepsConsistent(m, kids, store.idCounter, parent, i, j, store.links, store.children);
    }
  }
}
