/** The structural fields of tree nodes and the well-formedness of a forest
    of them. Node objects live in a store indexed by their id; the id 0 is
    the absent node, exactly the value the source stores in an unset link. */
module Nodes {
  import opened Direction

  /** A node id; 0 means "no node". */
  type Id = nat

  /** The five structural fields of a node: its parent, its left and right
      siblings, and the two ends of its own child list. */
  datatype Node = Node(parent: Id, left: Id, right: Id, endL: Id, endR: Id)

  /** A freshly constructed node: every structural field is 0. */
  const Fresh := Node(0, 0, 0, 0, 0)

  /** Every node object, by id. */
  type Store = map<Id, Node>

  ghost predicate Distinct(s: seq<Id>)
  {
    forall i, j | 0 <= i < j < |s| :: s[i] != s[j]
  }

  function First(s: seq<Id>): (x: Id) { if s == [] then 0 else s[0] }
  function Last(s: seq<Id>): (x: Id) { if s == [] then 0 else s[|s| - 1] }

  /** The position of `x` in `s` (its first occurrence). */
  function IndexOf(s: seq<Id>, x: Id): (i: nat)
    requires x in s
    ensures i < |s| && s[i] == x
  {
    if s[0] == x then 0 else 1 + IndexOf(s[1..], x)
  }

  lemma IndexOfDistinct(s: seq<Id>, i: nat)
    requires Distinct(s) && i < |s|
    ensures IndexOf(s, s[i]) == i
  {
  }

  /** Two stores with the same nodes, each with the same links, are equal. */
  lemma StoreExt(a: Store, b: Store)
    requires a.Keys == b.Keys && forall x | x in a :: a[x] == b[x]
    ensures a == b
  {
  }

  /** The ids a counter that has reached `n` has handed out. */
  function Ids(n: nat): (ids: set<Id>)
  {
    if n == 0 then {} else Ids(n - 1) + {n}
  }

  /** Those ids are exactly 1 to `n`. */
  lemma {:induction false} IdsRange(n: nat, id: Id)
    ensures id in Ids(n) <==> 1 <= id <= n
  {
    if n > 0 {
      IdsRange(n - 1, id);
    }
  }

  /** The next id is not taken yet, and storing a node under it extends
      the ids by one. */
  lemma IdsNext(m: Store, n: nat, x: Node)
    requires m.Keys == Ids(n)
    ensures n + 1 !in m && m[n + 1 := x].Keys == Ids(n + 1)
  {
    IdsRange(n, n + 1);
  }

  /** `y` is 0 or the id of an existing node. */
  predicate Ref(m: Store, y: Id) { y == 0 || y in m }

  /** No structural field points outside the store. */
  ghost predicate Closed(m: Store)
  {
    forall x | x in m ::
      && Ref(m, m[x].parent) && Ref(m, m[x].left) && Ref(m, m[x].right)
      && Ref(m, m[x].endL) && Ref(m, m[x].endR)
  }

  /** `s` is the child list of `p`: following `right` from `p.ends[L]`
      reaches `p.ends[R]`, `left` mirrors `right`, the list's two ends have
      absent outer siblings, and every listed child points back at `p`. */
  ghost predicate ListOf(m: Store, p: Id, s: seq<Id>)
  {
    && p in m
    && Distinct(s)
    && (forall i | 0 <= i < |s| :: s[i] in m && m[s[i]].parent == p)
    && m[p].endL == First(s)
    && m[p].endR == Last(s)
    && (forall i | 0 <= i < |s| :: s[i] in m && m[s[i]].left == (if i == 0 then 0 else s[i - 1]))
    && (forall i | 0 <= i < |s| :: s[i] in m && m[s[i]].right == (if i == |s| - 1 then 0 else s[i + 1]))
  }

  /** One element of a child list, read through `ListOf`. */
  lemma ListOfAt(m: Store, p: Id, s: seq<Id>, i: nat)
    requires ListOf(m, p, s) && i < |s|
    ensures s[i] in m && m[s[i]].parent == p
    ensures m[s[i]].left == (if i == 0 then 0 else s[i - 1])
    ensures m[s[i]].right == (if i == |s| - 1 then 0 else s[i + 1])
  {
  }

  /** `ListOf` from its parts, for callers whose context is too large
      to unfold it themselves. */
  lemma ListOfIntro(r: Store, p: Id, t: seq<Id>)
    requires p in r && Distinct(t) && r[p].endL == First(t) && r[p].endR == Last(t)
    requires forall i | 0 <= i < |t| ::
      && t[i] in r && r[t[i]].parent == p
      && r[t[i]].left == (if i == 0 then 0 else t[i - 1])
      && r[t[i]].right == (if i == |t| - 1 then 0 else t[i + 1])
    ensures ListOf(r, p, t)
  {
  }

  /** The forest invariant that adopt and disown maintain: `kids` gives every
      node's child list, and the links of every node agree with it. Nodes
      that were disowned keep stale links and belong to no list. */
  ghost predicate WellFormed(m: Store, kids: map<Id, seq<Id>>)
  {
    && 0 !in m
    && kids.Keys == m.Keys
    && Closed(m)
    && forall p | p in m :: ListOf(m, p, kids[p])
  }

  /** The state a node store keeps: its links are a well-formed forest
      with child lists `kids`, and its nodes are those numbered 1 to `n`. */
  ghost predicate Consistent(m: Store, kids: map<Id, seq<Id>>, n: nat)
  {
    WellFormed(m, kids) && m.Keys == Ids(n)
  }

  /** `x` is currently one of its parent's listed children. */
  ghost predicate Listed(m: Store, kids: map<Id, seq<Id>>, x: Id)
  {
    x in m && m[x].parent in kids && x in kids[m[x].parent]
  }

  /** The gap check `prayWellFormed(parent, leftward, rightward)`: the parent
      is present, and each neighbour is either absent with the parent's end
      on that side being the other neighbour, or present, pointing at the
      other neighbour and having `parent` as its parent. */
  predicate WellFormedGap(m: Store, p: Id, lw: Id, rw: Id)
  {
    && p != 0 && p in m
    && (if lw == 0 then m[p].endL == rw
        else lw in m && m[lw].right == rw && m[lw].parent == p)
    && (if rw == 0 then m[p].endR == lw
        else rw in m && m[rw].left == lw && m[rw].parent == p)
  }

  /** The index in `s` at which a run is inserted right of `lw`. */
  function Pos(s: seq<Id>, lw: Id): (k: nat)
    requires lw == 0 || lw in s
    ensures k <= |s|
  {
    if lw == 0 then 0 else IndexOf(s, lw) + 1
  }

  /** `s` with `run` inserted right of `lw` (at the front when `lw` is 0). */
  function Insert(s: seq<Id>, lw: Id, run: seq<Id>): (t: seq<Id>)
    requires lw == 0 || lw in s
  {
    s[..Pos(s, lw)] + run + s[Pos(s, lw)..]
  }

  /** `s` without the slice `s[i..j]` (inclusive). */
  function Cut(s: seq<Id>, i: nat, j: nat): (t: seq<Id>)
    requires i <= j < |s|
  {
    s[..i] + s[j + 1..]
  }
}
