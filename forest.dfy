/** What adopt and disown do to the forest as a whole: the gap check
    accepts exactly the positions of a child list, both splices keep every
    child list well formed, and each undoes the other. */
module Forest {
  import opened Nodes
  import opened Splice

  /** A gap that passes the check, with `lw` absent or a listed child, is a
      position `k` of the parent's child list: `lw` is the child before it
      and `rw` the child after it (0 at either end). */
  lemma GapPosition(m: Store, kids: map<Id, seq<Id>>, p: Id, lw: Id, rw: Id)
    requires WellFormed(m, kids) && WellFormedGap(m, p, lw, rw)
    requires lw == 0 || lw in kids[p]
    ensures var s, k := kids[p], Pos(kids[p], lw);
      && (k == 0 <==> lw == 0)
      && (k > 0 ==> s[k - 1] == lw)
      && (k < |s| ==> s[k] == rw)
      && (k == |s| <==> rw == 0)
  {
    var s := kids[p];
    assert ListOf(m, p, s);
    if lw != 0 {
      ListOfAt(m, p, s, IndexOf(s, lw));
    }
  }

  /** Conversely, every position of a child list is a gap the check
      accepts. */
  lemma GapAtPosition(m: Store, kids: map<Id, seq<Id>>, p: Id, k: nat)
    requires WellFormed(m, kids) && p in m && k <= |kids[p]|
    ensures var s := kids[p];
      var lw, rw := (if k == 0 then 0 else s[k - 1]), (if k == |s| then 0 else s[k]);
      && WellFormedGap(m, p, lw, rw)
      && (lw == 0 || lw in s)
      && Pos(s, lw) == k
  {
    var s := kids[p];
    assert ListOf(m, p, s);
    if k > 0 {
      IndexOfDistinct(s, k - 1);
      ListOfAt(m, p, s, k - 1);
    }
    if k < |s| {
      ListOfAt(m, p, s, k);
    }
  }

  /** A gap that passes the check is disjoint from a detached run, and so
      is the whole child list of its parent. */
  lemma DetachedRunOutsideList(m: Store, kids: map<Id, seq<Id>>, run: seq<Id>, p: Id)
    requires WellFormed(m, kids) && p in m && Detached(m, kids, run)
    ensures forall i | 0 <= i < |kids[p]| :: kids[p][i] !in run
  {
    var s := kids[p];
    forall i | 0 <= i < |s| ensures s[i] !in run {
      ListOfAt(m, p, s, i);
      assert Listed(m, kids, s[i]);
    }
  }

  /** The index arithmetic of `Insert`. */
  lemma InsertAt(s: seq<Id>, lw: Id, run: seq<Id>)
    requires lw == 0 || lw in s
    ensures var t, k, n := Insert(s, lw, run), Pos(s, lw), |run|;
      && |t| == |s| + n
      && (forall i | 0 <= i < k :: t[i] == s[i])
      && (forall i | k <= i < k + n :: t[i] == run[i - k])
      && (forall i | k + n <= i < |t| :: t[i] == s[i - n])
  {
  }

  /** The splice of adopt, read on the links: `r` is `m` with `run` put
      into the gap at position `k` of `p`'s list `s`. */
  ghost predicate SplicedIn(m: Store, r: Store, p: Id, s: seq<Id>, run: seq<Id>, lw: Id, rw: Id, k: nat)
  {
    && r.Keys == m.Keys && |run| > 0 && k <= |s|
    && (k == 0 <==> lw == 0) && (k > 0 ==> s[k - 1] == lw)
    && (k < |s| ==> s[k] == rw) && (k == |s| <==> rw == 0)
    && (forall i | 0 <= i < |run| :: run[i] in r && r[run[i]].parent == p)
    && (forall i | 0 <= i < |run| - 1 :: r[run[i]].right == run[i + 1] && r[run[i + 1]].left == run[i])
    && r[run[0]].left == lw && r[run[|run| - 1]].right == rw
    && (lw != 0 ==> lw in r && r[lw].right == run[0])
    && (rw != 0 ==> rw in r && r[rw].left == run[|run| - 1])
    && (forall x | x in m && x !in run :: r[x].parent == m[x].parent)
    && (forall x | x in m && x !in run && (rw == 0 || x != rw) :: r[x].left == m[x].left)
    && (forall x | x in m && x !in run && (lw == 0 || x != lw) :: r[x].right == m[x].right)
  }

  lemma SplicedInElements(m: Store, r: Store, p: Id, s: seq<Id>, run: seq<Id>, lw: Id, rw: Id, k: nat, t: seq<Id>)
    requires 0 !in m && ListOf(m, p, s) && SplicedIn(m, r, p, s, run, lw, rw, k)
    requires forall i | 0 <= i < |s| :: s[i] !in run
    requires |t| == |s| + |run|
    requires forall i | 0 <= i < k :: t[i] == s[i]
    requires forall i | k <= i < k + |run| :: t[i] == run[i - k]
    requires forall i | k + |run| <= i < |t| :: t[i] == s[i - |run|]
    ensures forall i | 0 <= i < |t| ::
      && t[i] in r && r[t[i]].parent == p
      && r[t[i]].left == (if i == 0 then 0 else t[i - 1])
      && r[t[i]].right == (if i == |t| - 1 then 0 else t[i + 1])
  {
    var n := |run|;
    assert Distinct(s);
    forall i | 0 <= i < |t|
      ensures t[i] in r && r[t[i]].parent == p
      ensures r[t[i]].left == (if i == 0 then 0 else t[i - 1])
      ensures r[t[i]].right == (if i == |t| - 1 then 0 else t[i + 1])
    {
      if i < k {
        ListOfAt(m, p, s, i);
        assert s[i] != rw by { if rw != 0 { assert s[k] == rw && s[i] != s[k]; } }
      } else if i < k + n {
      } else {
        ListOfAt(m, p, s, i - n);
        assert s[i - n] != lw by { if lw != 0 { assert s[k - 1] == lw && s[k - 1] != s[i - n]; } }
      }
    }
  }

  lemma InsertDistinct(s: seq<Id>, lw: Id, run: seq<Id>)
    requires lw == 0 || lw in s
    requires Distinct(s) && Distinct(run) && forall i | 0 <= i < |s| :: s[i] !in run
    ensures Distinct(Insert(s, lw, run))
  {
    var t, k, n := Insert(s, lw, run), Pos(s, lw), |run|;
    InsertAt(s, lw, run);
    forall i, j | 0 <= i < j < |t| ensures t[i] != t[j] {
      if i < k && k + n <= j {
        assert t[i] == s[i] && t[j] == s[j - n];
      } else if i < k <= j < k + n {
        assert t[i] == s[i] && t[j] == run[j - k];
      } else if k <= i < k + n <= j {
        assert t[i] == run[i - k] && t[j] == s[j - n];
      }
    }
  }

  /** The requirements shared by the lemmas about the adopting parent's
      list: `run` is a fresh run of distinct nodes and `(lw, rw)` is the
      position `Pos(s, lw)` of `p`'s list `s`. */
  ghost predicate AdoptCase(m: Store, p: Id, s: seq<Id>, run: seq<Id>, lw: Id, rw: Id)
  {
    && 0 !in m && ListOf(m, p, s) && (lw == 0 || lw in s)
    && (var k := Pos(s, lw);
        && (k == 0 <==> lw == 0) && (k > 0 ==> s[k - 1] == lw)
        && (k < |s| ==> s[k] == rw) && (k == |s| <==> rw == 0))
    && |run| > 0 && Distinct(run) && (forall i | 0 <= i < |run| :: run[i] in m)
    && (forall i | 0 <= i < |s| :: s[i] !in run)
    && lw !in run && rw !in run
  }

  lemma AdoptLinksSplicedIn(m: Store, p: Id, s: seq<Id>, run: seq<Id>, lw: Id, rw: Id)
    requires AdoptCase(m, p, s, run, lw, rw)
    ensures SplicedIn(m, AdoptLinks(m, run, p, lw, rw), p, s, run, lw, rw, Pos(s, lw))
  {
    AdoptLinksRun(m, run, p, lw, rw);
    AdoptLinksFrame(m, run, p, lw, rw);
  }

  lemma AdoptParentElements(m: Store, p: Id, s: seq<Id>, run: seq<Id>, lw: Id, rw: Id, r: Store, t: seq<Id>)
    requires AdoptCase(m, p, s, run, lw, rw)
    requires r == AdoptLinks(m, run, p, lw, rw) && t == Insert(s, lw, run)
    ensures forall i | 0 <= i < |t| ::
      && t[i] in r && r[t[i]].parent == p
      && r[t[i]].left == (if i == 0 then 0 else t[i - 1])
      && r[t[i]].right == (if i == |t| - 1 then 0 else t[i + 1])
  {
    AdoptLinksSplicedIn(m, p, s, run, lw, rw);
    InsertAt(s, lw, run);
    SplicedInElements(m, r, p, s, run, lw, rw, Pos(s, lw), t);
  }

  lemma AdoptParentEnds(m: Store, p: Id, s: seq<Id>, run: seq<Id>, lw: Id, rw: Id, r: Store, t: seq<Id>)
    requires AdoptCase(m, p, s, run, lw, rw)
    requires r == AdoptLinks(m, run, p, lw, rw) && t == Insert(s, lw, run)
    ensures p in r && r[p].endL == First(t) && r[p].endR == Last(t)
  {
    AdoptLinksFrame(m, run, p, lw, rw);
    InsertAt(s, lw, run);
    if lw == 0 {
      assert r[p].endL == run[0] == t[0];
    } else {
      assert r[p].endL == m[p].endL == s[0] == t[0];
    }
    if rw == 0 {
      assert r[p].endR == run[|run| - 1] == t[|t| - 1];
    } else {
      assert r[p].endR == m[p].endR == s[|s| - 1] == t[|t| - 1];
    }
  }

  /** The child list of `p` after adopting `run` into the gap is the old
      list with the run inserted at the gap's position. */
  lemma AdoptParentList(m: Store, p: Id, s: seq<Id>, run: seq<Id>, lw: Id, rw: Id)
    requires AdoptCase(m, p, s, run, lw, rw)
    ensures ListOf(AdoptLinks(m, run, p, lw, rw), p, Insert(s, lw, run))
  {
    var r := AdoptLinks(m, run, p, lw, rw);
    var t := Insert(s, lw, run);
    InsertDistinct(s, lw, run);
    AdoptParentElements(m, p, s, run, lw, rw, r, t);
    AdoptParentEnds(m, p, s, run, lw, rw, r, t);
    ListOfIntro(r, p, t);
  }

  /** What adopt needs of its arguments: a well-formed forest, a gap that
      passes the check and whose left side is absent or a listed child, and
      a non-empty run of distinct nodes that are listed under no parent. */
  ghost predicate AdoptPre(m: Store, kids: map<Id, seq<Id>>, run: seq<Id>, p: Id, lw: Id, rw: Id)
  {
    && WellFormed(m, kids) && WellFormedGap(m, p, lw, rw) && (lw == 0 || lw in kids[p])
    && |run| > 0 && Distinct(run) && Detached(m, kids, run)
  }

  /** The gap and the whole list it sits in are outside the run. */
  lemma AdoptPreCase(m: Store, kids: map<Id, seq<Id>>, run: seq<Id>, p: Id, lw: Id, rw: Id)
    requires AdoptPre(m, kids, run, p, lw, rw)
    ensures AdoptCase(m, p, kids[p], run, lw, rw)
  {
    var s := kids[p];
    GapPosition(m, kids, p, lw, rw);
    DetachedRunOutsideList(m, kids, run, p);
    var k := Pos(s, lw);
    if lw != 0 { assert lw == s[k - 1]; }
    if rw != 0 { assert rw == s[k]; }
  }

  /** Adopting into `p` leaves every other parent's list as it was. */
  lemma AdoptOtherList(m: Store, kids: map<Id, seq<Id>>, run: seq<Id>, p: Id, lw: Id, rw: Id, q: Id)
    requires AdoptPre(m, kids, run, p, lw, rw) && AdoptCase(m, p, kids[p], run, lw, rw)
    requires q in m && q != p
    ensures ListOf(AdoptLinks(m, run, p, lw, rw), q, kids[q])
  {
    var r, s := AdoptLinks(m, run, p, lw, rw), kids[q];
    assert ListOf(m, q, s);
    AdoptLinksFrame(m, run, p, lw, rw);
    forall i | 0 <= i < |s|
      ensures s[i] in r && r[s[i]].parent == q
      ensures r[s[i]].left == (if i == 0 then 0 else s[i - 1])
      ensures r[s[i]].right == (if i == |s| - 1 then 0 else s[i + 1])
    {
      ListOfAt(m, q, s, i);
      assert Listed(m, kids, s[i]);
    }
    ListOfIntro(r, q, s);
  }

  /** Adopt makes no field point outside the store. */
  lemma AdoptClosed(m: Store, run: seq<Id>, p: Id, lw: Id, rw: Id)
    requires Closed(m) && |run| > 0 && (forall i | 0 <= i < |run| :: run[i] in m)
    requires Ref(m, p) && Ref(m, lw) && Ref(m, rw)
    ensures Closed(AdoptLinks(m, run, p, lw, rw))
  {
    var r := AdoptLinks(m, run, p, lw, rw);
    forall x | x in r
      ensures Ref(r, r[x].parent) && Ref(r, r[x].left) && Ref(r, r[x].right)
      ensures Ref(r, r[x].endL) && Ref(r, r[x].endR)
    {
      assert r[x] == AdoptedNode(x, m[x], run, p, lw, rw);
      if x in run {
        var i := IndexOf(run, x);
        if i > 0 { assert run[i - 1] in m; }
        if i < |run| - 1 { assert run[i + 1] in m; }
      }
    }
  }

  /** After adopt, the run's nodes are listed under `p`. */
  lemma AdoptListsRun(m: Store, kids: map<Id, seq<Id>>, run: seq<Id>, p: Id, lw: Id, rw: Id)
    requires AdoptPre(m, kids, run, p, lw, rw)
    ensures var r, kids' := AdoptLinks(m, run, p, lw, rw), kids[p := Insert(kids[p], lw, run)];
      forall i | 0 <= i < |run| :: Listed(r, kids', run[i])
  {
    var r, kids' := AdoptLinks(m, run, p, lw, rw), kids[p := Insert(kids[p], lw, run)];
    AdoptLinksRun(m, run, p, lw, rw);
    GapPosition(m, kids, p, lw, rw);
    InsertAt(kids[p], lw, run);
    forall i | 0 <= i < |run| ensures Listed(r, kids', run[i]) {
      assert kids'[p][Pos(kids[p], lw) + i] == run[i];
    }
  }

  lemma AdoptAllLists(m: Store, kids: map<Id, seq<Id>>, run: seq<Id>, p: Id, lw: Id, rw: Id)
    requires AdoptPre(m, kids, run, p, lw, rw)
    ensures var r, kids' := AdoptLinks(m, run, p, lw, rw), kids[p := Insert(kids[p], lw, run)];
      forall q | q in r :: ListOf(r, q, kids'[q])
  {
    var r, kids' := AdoptLinks(m, run, p, lw, rw), kids[p := Insert(kids[p], lw, run)];
    AdoptPreCase(m, kids, run, p, lw, rw);
    forall q | q in r ensures ListOf(r, q, kids'[q]) {
      if q == p {
        AdoptParentList(m, p, kids[p], run, lw, rw);
      } else {
        AdoptOtherList(m, kids, run, p, lw, rw, q);
      }
    }
  }

  /** Adopting a detached run into a checked gap keeps the forest well
      formed: `p`'s list gains the run at the gap's position, every other
      list is unchanged, and the run's nodes are now listed under `p`. */
  lemma AdoptKeepsWellFormed(m: Store, kids: map<Id, seq<Id>>, run: seq<Id>, p: Id, lw: Id, rw: Id)
    requires AdoptPre(m, kids, run, p, lw, rw)
    ensures var r, kids' := AdoptLinks(m, run, p, lw, rw), kids[p := Insert(kids[p], lw, run)];
      && WellFormed(r, kids')
      && (forall i | 0 <= i < |run| :: Listed(r, kids', run[i]))
  {
    AdoptClosed(m, run, p, lw, rw);
    AdoptAllLists(m, kids, run, p, lw, rw);
    AdoptListsRun(m, kids, run, p, lw, rw);
  }

  /** What adopting a nonempty fragment needs: `AdoptPre`, the run's ends
      are the fragment's ends `endL` and `endR`, and following `right` from
      `endL` walks the run. */
  ghost predicate AdoptReady(m: Store, kids: map<Id, seq<Id>>, run: seq<Id>, p: Id, lw: Id, rw: Id, endL: Id, endR: Id)
  {
    AdoptPre(m, kids, run, p, lw, rw) && run[0] == endL && run[|run| - 1] == endR && Linked(m, run)
  }

  /** `r` and `kids'` are the links and child lists that adopting `run`
      into the gap `(p, lw, rw)` makes of `m` and `kids`. */
  ghost predicate Adopted(m: Store, kids: map<Id, seq<Id>>, r: Store, kids': map<Id, seq<Id>>,
                          run: seq<Id>, p: Id, lw: Id, rw: Id)
    requires AdoptPre(m, kids, run, p, lw, rw)
  {
    r == AdoptLinks(m, run, p, lw, rw) && kids' == kids[p := Insert(kids[p], lw, run)]
  }

  /** The splice keeps a store consistent with its counter, and every
      node of the run ends up listed under `p`. */
  lemma AdoptKeepsConsistent(m: Store, kids: map<Id, seq<Id>>, n: nat, run: seq<Id>, p: Id, lw: Id, rw: Id,
                             r: Store, kids': map<Id, seq<Id>>)
    requires Consistent(m, kids, n) && AdoptPre(m, kids, run, p, lw, rw)
    requires Adopted(m, kids, r, kids', run, p, lw, rw)
    ensures Consistent(r, kids', n)
    ensures forall i | 0 <= i < |run| :: Listed(r, kids', run[i])
  {
    AdoptKeepsWellFormed(m, kids, run, p, lw, rw);
  }

  /** The index arithmetic of `Cut`. */
  lemma CutAt(s: seq<Id>, i: nat, j: nat)
    requires i <= j < |s|
    ensures var t, n := Cut(s, i, j), j - i + 1;
      && |t| == |s| - n
      && (forall x | 0 <= x < i :: t[x] == s[x])
      && (forall x | i <= x < |t| :: t[x] == s[x + n])
  {
  }

  /** The neighbours of the slice `s[i..j]` (inclusive): the child before
      it and the child after it, 0 at either end. */
  function Before(s: seq<Id>, i: nat): (b: Id)
    requires i <= |s|
  {
    if i == 0 then 0 else s[i - 1]
  }

  function After(s: seq<Id>, j: nat): (a: Id)
    requires j < |s|
  {
    if j == |s| - 1 then 0 else s[j + 1]
  }

  /** What disown needs of its fragment: it is the slice `kids[p][i..j]`
      (inclusive) of a child list of a well-formed forest. */
  ghost predicate DisownPre(m: Store, kids: map<Id, seq<Id>>, p: Id, i: nat, j: nat)
  {
    WellFormed(m, kids) && p in m && i <= j < |kids[p]|
  }

  /** Both checks disown makes pass on a slice: its left end's parent is
      `p`, the gap left of the slice and the gap right of it are well formed,
      and the neighbours disown reads are the slice's neighbours. */
  lemma SliceBoundariesAreGaps(m: Store, kids: map<Id, seq<Id>>, p: Id, i: nat, j: nat)
    requires DisownPre(m, kids, p, i, j)
    ensures var s := kids[p];
      var leftEnd, rightEnd := s[i], s[j];
      && leftEnd in m && rightEnd in m && m[leftEnd].parent == p
      && m[leftEnd].left == Before(s, i) && m[rightEnd].right == After(s, j)
      && WellFormedGap(m, p, m[leftEnd].left, leftEnd)
      && WellFormedGap(m, p, rightEnd, m[rightEnd].right)
  {
    var s := kids[p];
    assert ListOf(m, p, s);
    ListOfAt(m, p, s, i);
    ListOfAt(m, p, s, j);
    GapAtPosition(m, kids, p, i);
    GapAtPosition(m, kids, p, j + 1);
  }

  lemma CutDistinct(s: seq<Id>, i: nat, j: nat)
    requires Distinct(s) && i <= j < |s|
    ensures Distinct(Cut(s, i, j))
    ensures forall k | i <= k <= j :: s[k] !in Cut(s, i, j)
  {
    var t, n := Cut(s, i, j), j - i + 1;
    CutAt(s, i, j);
    forall x, y | 0 <= x < y < |t| ensures t[x] != t[y] {
      if y < i { } else if x < i { assert t[y] == s[y + n]; } else { }
    }
    forall k | i <= k <= j ensures s[k] !in t {
      forall x | 0 <= x < |t| ensures t[x] != s[k] {
        if x < i { assert s[x] != s[k]; } else { assert s[x + n] != s[k]; }
      }
    }
  }

  lemma DisownParentElements(m: Store, p: Id, s: seq<Id>, i: nat, j: nat, r: Store, t: seq<Id>)
    requires 0 !in m && ListOf(m, p, s) && i <= j < |s|
    requires r == DisownLinks(m, p, s[i], s[j]) && t == Cut(s, i, j)
    ensures forall x | 0 <= x < |t| ::
        && t[x] in r && r[t[x]].parent == p
        && r[t[x]].left == (if x == 0 then 0 else t[x - 1])
        && r[t[x]].right == (if x == |t| - 1 then 0 else t[x + 1])
  {
    var n := j - i + 1;
    var a, b := Before(s, i), After(s, j);
    assert Distinct(s);
    ListOfAt(m, p, s, i);
    ListOfAt(m, p, s, j);
    CutAt(s, i, j);
    forall x | 0 <= x < |t|
      ensures t[x] in r && r[t[x]].parent == p
      ensures r[t[x]].left == (if x == 0 then 0 else t[x - 1])
      ensures r[t[x]].right == (if x == |t| - 1 then 0 else t[x + 1])
    {
      if x < i {
        ListOfAt(m, p, s, x);
        assert s[x] != b by { if b != 0 { assert s[j + 1] != s[x]; } }
        if x < i - 1 { assert s[x] != s[i - 1]; }
      } else {
        ListOfAt(m, p, s, x + n);
        assert s[x + n] != a by { if a != 0 { assert s[i - 1] != s[x + n]; } }
        if x > i { assert s[x + n] != s[j + 1]; }
      }
    }
  }

  /** Disowning the slice `s[i..j]` of `p`'s list leaves `s` without it. */
  lemma DisownParentList(m: Store, p: Id, s: seq<Id>, i: nat, j: nat)
    requires 0 !in m && ListOf(m, p, s) && i <= j < |s|
    ensures ListOf(DisownLinks(m, p, s[i], s[j]), p, Cut(s, i, j))
  {
    var r, t := DisownLinks(m, p, s[i], s[j]), Cut(s, i, j);
    ListOfAt(m, p, s, i);
    ListOfAt(m, p, s, j);
    CutAt(s, i, j);
    CutDistinct(s, i, j);
    DisownParentElements(m, p, s, i, j, r, t);
    assert r[p].endL == First(t) && r[p].endR == Last(t) by {
      if i > 0 { assert t[0] == s[0]; }
      if j < |s| - 1 { assert t[|t| - 1] == s[|s| - 1]; }
    }
    ListOfIntro(r, p, t);
  }

  /** Disowning from `p` leaves every other parent's list as it was. */
  lemma DisownOtherList(m: Store, kids: map<Id, seq<Id>>, p: Id, i: nat, j: nat, q: Id)
    requires DisownPre(m, kids, p, i, j) && q in m && q != p
    ensures ListOf(DisownLinks(m, p, kids[p][i], kids[p][j]), q, kids[q])
  {
    var s, u := kids[p], kids[q];
    var r := DisownLinks(m, p, s[i], s[j]);
    assert ListOf(m, p, s) && ListOf(m, q, u);
    ListOfAt(m, p, s, i);
    ListOfAt(m, p, s, j);
    if i > 0 { ListOfAt(m, p, s, i - 1); }
    if j < |s| - 1 { ListOfAt(m, p, s, j + 1); }
    forall x | 0 <= x < |u|
      ensures u[x] in r && r[u[x]].parent == q
      ensures r[u[x]].left == (if x == 0 then 0 else u[x - 1])
      ensures r[u[x]].right == (if x == |u| - 1 then 0 else u[x + 1])
    {
      ListOfAt(m, q, u, x);
    }
    ListOfIntro(r, q, u);
  }

  /** Disown makes no field point outside the store. */
  lemma DisownClosed(m: Store, p: Id, leftEnd: Id, rightEnd: Id)
    requires Closed(m) && leftEnd in m && rightEnd in m
    ensures Closed(DisownLinks(m, p, leftEnd, rightEnd))
  {
  }

  lemma DisownAllLists(m: Store, kids: map<Id, seq<Id>>, p: Id, i: nat, j: nat)
    requires DisownPre(m, kids, p, i, j)
    ensures var s := kids[p];
      var r, kids' := DisownLinks(m, p, s[i], s[j]), kids[p := Cut(s, i, j)];
      forall q | q in r :: ListOf(r, q, kids'[q])
  {
    var s := kids[p];
    var r, kids' := DisownLinks(m, p, s[i], s[j]), kids[p := Cut(s, i, j)];
    forall q | q in r ensures ListOf(r, q, kids'[q]) {
      if q == p {
        DisownParentList(m, p, s, i, j);
      } else {
        DisownOtherList(m, kids, p, i, j, q);
      }
    }
  }

  /** After disown the slice is listed under no parent. */
  lemma DisownDetachesRun(m: Store, kids': map<Id, seq<Id>>, p: Id, s: seq<Id>, i: nat, j: nat)
    requires ListOf(m, p, s) && i <= j < |s|
    requires p in kids' && kids'[p] == Cut(s, i, j)
    ensures Detached(DisownLinks(m, p, s[i], s[j]), kids', s[i..j + 1])
  {
    var r, run := DisownLinks(m, p, s[i], s[j]), s[i..j + 1];
    ListOfAt(m, p, s, i);
    ListOfAt(m, p, s, j);
    CutDistinct(s, i, j);
    forall k | 0 <= k < |run| ensures run[k] in r && !Listed(r, kids', run[k]) {
      ListOfAt(m, p, s, i + k);
    }
  }

  /** After disown the slice is still linked from its left end to its
      right end. */
  lemma DisownKeepsRunLinked(m: Store, p: Id, s: seq<Id>, i: nat, j: nat)
    requires 0 !in m && ListOf(m, p, s) && i <= j < |s|
    ensures Linked(DisownLinks(m, p, s[i], s[j]), s[i..j + 1])
  {
    var r, run := DisownLinks(m, p, s[i], s[j]), s[i..j + 1];
    ListOfAt(m, p, s, i);
    ListOfAt(m, p, s, j);
    forall k | 0 <= k < |run| - 1 ensures r[run[k]].right == run[k + 1] {
      ListOfAt(m, p, s, i + k);
      if i > 0 { assert s[i + k] != s[i - 1]; }
    }
  }

  /** Disowning a slice keeps the forest well formed: `p`'s list loses the
      slice, every other list is unchanged, and the slice becomes a
      detached run linked from end to end, ready to be adopted again. */
  lemma DisownKeepsWellFormed(m: Store, kids: map<Id, seq<Id>>, p: Id, i: nat, j: nat)
    requires DisownPre(m, kids, p, i, j)
    ensures var s := kids[p];
      var r, kids', run := DisownLinks(m, p, s[i], s[j]), kids[p := Cut(s, i, j)], s[i..j + 1];
      && WellFormed(r, kids') && Detached(r, kids', run) && Linked(r, run)
  {
    var s := kids[p];
    assert ListOf(m, p, s);
    ListOfAt(m, p, s, i);
    ListOfAt(m, p, s, j);
    DisownClosed(m, p, s[i], s[j]);
    DisownAllLists(m, kids, p, i, j);
    DisownDetachesRun(m, kids[p := Cut(s, i, j)], p, s, i, j);
    DisownKeepsRunLinked(m, p, s, i, j);
  }

  /** `r` and `kids'` are the links and child lists that disowning the
      slice `kids[p][i..j]` (inclusive) makes of `m` and `kids`. */
  ghost predicate Disowned(m: Store, kids: map<Id, seq<Id>>, r: Store, kids': map<Id, seq<Id>>, p: Id, i: nat, j: nat)
    requires DisownPre(m, kids, p, i, j)
  {
    assert ListOf(m, p, kids[p]);
    && r == DisownLinks(m, p, kids[p][i], kids[p][j])
    && kids' == kids[p := Cut(kids[p], i, j)]
  }

  /** Cutting a slice out keeps a store consistent with its counter, and
      the slice becomes a detached run that still links up. */
  lemma DisownKeepsConsistent(m: Store, kids: map<Id, seq<Id>>, n: nat, p: Id, i: nat, j: nat,
                              r: Store, kids': map<Id, seq<Id>>)
    requires Consistent(m, kids, n) && DisownPre(m, kids, p, i, j)
    requires Disowned(m, kids, r, kids', p, i, j)
    ensures Consistent(r, kids', n)
    ensures Detached(r, kids', kids[p][i..j + 1]) && Linked(r, kids[p][i..j + 1])
  {
    DisownKeepsWellFormed(m, kids, p, i, j);
  }

  /** The slice `s[i..j]` of a list without repeats is itself without
      repeats and does not hold its neighbours. */
  lemma SliceDistinct(s: seq<Id>, i: nat, j: nat)
    requires Distinct(s) && i <= j < |s|
    ensures Distinct(s[i..j + 1])
    ensures Before(s, i) != 0 ==> Before(s, i) !in s[i..j + 1]
    ensures After(s, j) != 0 ==> After(s, j) !in s[i..j + 1]
  {
    var run, n := s[i..j + 1], j - i + 1;
    forall x, y | 0 <= x < y < n ensures run[x] != run[y] { assert s[i + x] != s[i + y]; }
    if i > 0 { forall k | 0 <= k < n ensures run[k] != s[i - 1] { assert s[i - 1] != s[i + k]; } }
    if j < |s| - 1 { forall k | 0 <= k < n ensures run[k] != s[j + 1] { assert s[j + 1] != s[i + k]; } }
  }

  /** Inserting back the slice that `Cut` removed, right of the child that
      was before it, gives the original list. */
  lemma InsertCut(s: seq<Id>, i: nat, j: nat)
    requires Distinct(s) && 0 !in s && i <= j < |s|
    ensures Before(s, i) == 0 || Before(s, i) in Cut(s, i, j)
    ensures Pos(Cut(s, i, j), Before(s, i)) == i
    ensures Insert(Cut(s, i, j), Before(s, i), s[i..j + 1]) == s
  {
    var t := Cut(s, i, j);
    CutAt(s, i, j);
    CutDistinct(s, i, j);
    if i > 0 {
      assert t[i - 1] == s[i - 1] == Before(s, i);
      IndexOfDistinct(t, i - 1);
      assert Pos(t, Before(s, i)) == IndexOf(t, t[i - 1]) + 1 == i;
    }
    assert t[..i] == s[..i] && t[i..] == s[j + 1..];
    assert s == s[..i] + s[i..j + 1] + s[j + 1..];
  }

  /** Cutting out the run that `Insert` put in gives the original list. */
  lemma CutInsert(s: seq<Id>, lw: Id, run: seq<Id>)
    requires lw == 0 || lw in s
    requires |run| > 0
    ensures var t, k, n := Insert(s, lw, run), Pos(s, lw), |run|;
      && k + n - 1 < |t| && t[k..k + n] == run
      && t[k] == run[0] && t[k + n - 1] == run[n - 1]
      && Cut(t, k, k + n - 1) == s
  {
    var t, k, n := Insert(s, lw, run), Pos(s, lw), |run|;
    assert t[..k] == s[..k] && t[k..k + n] == run && t[k + n..] == s[k..];
    assert t[k] == t[k..k + n][0] && t[k + n - 1] == t[k..k + n][n - 1];
  }

  /** After a cut, the gap the slice left is the one between its old
      neighbours, and the check accepts it. */
  lemma GapAfterCut(m1: Store, kids1: map<Id, seq<Id>>, p: Id, s: seq<Id>, i: nat, j: nat)
    requires WellFormed(m1, kids1) && p in m1 && Distinct(s) && i <= j < |s|
    requires kids1[p] == Cut(s, i, j)
    ensures WellFormedGap(m1, p, Before(s, i), After(s, j))
  {
    var t := Cut(s, i, j);
    CutAt(s, i, j);
    GapAtPosition(m1, kids1, p, i);
    if i > 0 { assert t[i - 1] == Before(s, i); }
    if i < |t| { assert t[i] == After(s, j); }
  }

  /** A slice disowned from its list may be adopted back into the gap it
      left: the check accepts that gap and the slice is a detached run. */
  lemma DisownedRunMayReturn(m: Store, kids: map<Id, seq<Id>>, p: Id, i: nat, j: nat)
    requires DisownPre(m, kids, p, i, j)
    ensures var s := kids[p];
      var m1, kids1 := DisownLinks(m, p, s[i], s[j]), kids[p := Cut(s, i, j)];
      AdoptPre(m1, kids1, s[i..j + 1], p, Before(s, i), After(s, j))
  {
    var s := kids[p];
    var m1, kids1 := DisownLinks(m, p, s[i], s[j]), kids[p := Cut(s, i, j)];
    assert ListOf(m, p, s);
    DisownKeepsWellFormed(m, kids, p, i, j);
    SliceDistinct(s, i, j);
    InsertCut(s, i, j);
    GapAfterCut(m1, kids1, p, s, i, j);
  }

  /** Re-adopting a disowned slice gives every node back its ends. */
  lemma RestoreEnds(m: Store, m1: Store, m2: Store, p: Id, s: seq<Id>, i: nat, j: nat, x: Id)
    requires p in m && 0 !in s && i <= j < |s| && m[p].endL == s[0] && m[p].endR == s[|s| - 1]
    requires DisownGapSpec(m, m1, p, Before(s, i), After(s, j))
    requires DisownEndsFrame(m, m1, p, Before(s, i), After(s, j))
    requires AdoptRunSpec(m1, m2, s[i..j + 1], p, Before(s, i), After(s, j))
    requires AdoptEndsFrame(m1, m2, p, Before(s, i), After(s, j))
    requires x in m
    ensures m2[x].endL == m[x].endL && m2[x].endR == m[x].endR
  {
    var run := s[i..j + 1];
    if i > 0 { assert Before(s, i) == s[i - 1] != 0; }
    if j < |s| - 1 { assert After(s, j) == s[j + 1] != 0; }
    if x == p && i == 0 { assert m2[p].endL == run[0] == s[0]; }
    if x == p && j == |s| - 1 { assert m2[p].endR == run[|run| - 1] == s[j]; }
  }

  /** Re-adopting a disowned slice gives its nodes back their links. */
  lemma RestoreRunLinks(m: Store, m1: Store, m2: Store, p: Id, s: seq<Id>, i: nat, j: nat, x: Id)
    requires ListOf(m, p, s) && i <= j < |s| && x in s[i..j + 1]
    requires AdoptRunSpec(m1, m2, s[i..j + 1], p, Before(s, i), After(s, j))
    ensures x in m && m2[x].parent == m[x].parent
    ensures m2[x].left == m[x].left && m2[x].right == m[x].right
  {
    var run := s[i..j + 1];
    var k :| 0 <= k <= j - i && run[k] == x;
    assert run[k] == s[i + k];
    ListOfAt(m, p, s, i + k);
    if k > 0 { assert run[k - 1] == s[i + k - 1]; }
    if k < j - i { assert run[k + 1] == s[i + k + 1]; }
  }

  /** Re-adopting a disowned slice gives every other node back its links. */
  lemma RestoreOtherLinks(m: Store, m1: Store, m2: Store, p: Id, s: seq<Id>, i: nat, j: nat, x: Id)
    requires 0 !in m && ListOf(m, p, s) && i <= j < |s|
    requires DisownGapSpec(m, m1, p, Before(s, i), After(s, j))
    requires DisownLinkFrame(m, m1, Before(s, i), After(s, j))
    requires AdoptRunSpec(m1, m2, s[i..j + 1], p, Before(s, i), After(s, j))
    requires AdoptLinkFrame(m1, m2, s[i..j + 1], Before(s, i), After(s, j))
    requires x in m && x !in s[i..j + 1]
    ensures m2[x].parent == m[x].parent && m2[x].left == m[x].left && m2[x].right == m[x].right
  {
    var a, b := Before(s, i), After(s, j);
    ListOfAt(m, p, s, i);
    ListOfAt(m, p, s, j);
    if a != 0 && x == a { ListOfAt(m, p, s, i - 1); }
    if b != 0 && x == b { ListOfAt(m, p, s, j + 1); }
  }

  lemma RestoreSpec(m: Store, m1: Store, m2: Store, p: Id, s: seq<Id>, i: nat, j: nat)
    requires 0 !in m && ListOf(m, p, s) && i <= j < |s|
    requires DisownSpec(m, m1, p, Before(s, i), After(s, j))
    requires AdoptSpec(m1, m2, s[i..j + 1], p, Before(s, i), After(s, j))
    ensures m2 == m
  {
    assert 0 !in s by {
      forall k | 0 <= k < |s| ensures s[k] != 0 { ListOfAt(m, p, s, k); }
    }
    forall x | x in m ensures m2[x] == m[x] {
      RestoreEnds(m, m1, m2, p, s, i, j, x);
      if x in s[i..j + 1] {
        RestoreRunLinks(m, m1, m2, p, s, i, j, x);
      } else {
        RestoreOtherLinks(m, m1, m2, p, s, i, j, x);
      }
    }
  }

  /** Disown and re-adopt restore the store: adopting a disowned slice back
      into the gap it left gives back every node exactly as it was and the
      child list as it was. */
  lemma DisownThenAdoptRestores(m: Store, kids: map<Id, seq<Id>>, p: Id, i: nat, j: nat)
    requires DisownPre(m, kids, p, i, j)
    ensures var s := kids[p];
      var m1, run := DisownLinks(m, p, s[i], s[j]), s[i..j + 1];
      && AdoptLinks(m1, run, p, Before(s, i), After(s, j)) == m
      && Insert(Cut(s, i, j), Before(s, i), run) == s
  {
    var s := kids[p];
    assert ListOf(m, p, s);
    RestoreStore(m, p, s, i, j);
    InsertCut(s, i, j);
  }

  lemma RestoreStore(m: Store, p: Id, s: seq<Id>, i: nat, j: nat)
    requires 0 !in m && ListOf(m, p, s) && i <= j < |s|
    ensures var m1, run := DisownLinks(m, p, s[i], s[j]), s[i..j + 1];
      AdoptLinks(m1, run, p, Before(s, i), After(s, j)) == m
  {
    var m1, run := DisownLinks(m, p, s[i], s[j]), s[i..j + 1];
    ListOfAt(m, p, s, i);
    ListOfAt(m, p, s, j);
    SliceDistinct(s, i, j);
    DisownLinksSpec(m, p, s[i], s[j]);
    AdoptLinksSpec(m1, run, p, Before(s, i), After(s, j));
    RestoreSpec(m, m1, AdoptLinks(m1, run, p, Before(s, i), After(s, j)), p, s, i, j);
  }

  /** Disowning a run right after adopting it gives back a node outside
      the run as it was. */
  lemma AdoptDisownOtherNode(m: Store, m1: Store, m2: Store, p: Id, run: seq<Id>, lw: Id, rw: Id, x: Id)
    requires WellFormedGap(m, p, lw, rw) && lw !in run && rw !in run
    requires AdoptSpec(m, m1, run, p, lw, rw)
    requires DisownSpec(m1, m2, p, lw, rw)
    requires x in m && x !in run
    ensures m2[x] == m[x]
  {
  }

  /** Adopt and disown restore the rest of the store: disowning a run
      right after adopting it gives back every node outside the run as it
      was, and the parent's child list as it was. The run's own nodes keep
      the links adopt gave them. */
  lemma AdoptThenDisownRestores(m: Store, kids: map<Id, seq<Id>>, run: seq<Id>, p: Id, lw: Id, rw: Id)
    requires AdoptPre(m, kids, run, p, lw, rw)
    ensures var m1, t := AdoptLinks(m, run, p, lw, rw), Insert(kids[p], lw, run);
      var k, n := Pos(kids[p], lw), |run|;
      && k + n - 1 < |t| && t[k] == run[0] && t[k + n - 1] == run[n - 1]
      && Cut(t, k, k + n - 1) == kids[p]
      && var m2 := DisownLinks(m1, p, run[0], run[n - 1]);
         forall x | x in m && x !in run :: m2[x] == m[x]
  {
    CutInsert(kids[p], lw, run);
    AdoptPreCase(m, kids, run, p, lw, rw);
    AdoptRestoresOthers(m, run, p, lw, rw);
  }

  lemma AdoptRestoresOthers(m: Store, run: seq<Id>, p: Id, lw: Id, rw: Id)
    requires WellFormedGap(m, p, lw, rw) && lw !in run && rw !in run
    requires |run| > 0 && Distinct(run) && (forall i | 0 <= i < |run| :: run[i] in m)
    ensures var m1 := AdoptLinks(m, run, p, lw, rw);
      var m2 := DisownLinks(m1, p, run[0], run[|run| - 1]);
      forall x | x in m && x !in run :: m2[x] == m[x]
  {
    var m1 := AdoptLinks(m, run, p, lw, rw);
    var m2 := DisownLinks(m1, p, run[0], run[|run| - 1]);
    AdoptLinksSpec(m, run, p, lw, rw);
    DisownLinksSpec(m1, p, run[0], run[|run| - 1]);
    forall x | x in m && x !in run ensures m2[x] == m[x] {
      AdoptDisownOtherNode(m, m1, m2, p, run, lw, rw, x);
    }
  }

  /** Disowning the same nodes a second time, through a new fragment, does
      not pass disown's check: the disowned left end still names its old
      neighbour, which no longer points back at it. */
  lemma SecondDisownFails(m: Store, kids: map<Id, seq<Id>>, p: Id, i: nat, j: nat)
    requires DisownPre(m, kids, p, i, j)
    ensures var s := kids[p];
      var m1 := DisownLinks(m, p, s[i], s[j]);
      && s[i] in m1 && m1[s[i]].parent == p
      && !WellFormedGap(m1, p, m1[s[i]].left, s[i])
  {
    var s := kids[p];
    assert ListOf(m, p, s);
    ListOfAt(m, p, s, i);
    ListOfAt(m, p, s, j);
    if j < |s| - 1 { assert s[j + 1] != s[i]; }
  }

  /** Disowning a node without a parent does not pass disown's check
      either: neither gap beside it has a present parent. */
  lemma FreeNodeDisownFails(m: Store, x: Id)
    requires x in m && m[x].parent == 0
    ensures !WellFormedGap(m, m[x].parent, m[x].left, x)
    ensures !WellFormedGap(m, m[x].parent, x, m[x].right)
  {
  }

  /** Node `1` with children `2` and `3`, and a free node `4`. */
  function SmallStore(): (m: Store)
  {
    map[1 := Node(0, 0, 0, 2, 3), 2 := Node(1, 0, 3, 0, 0), 3 := Node(1, 2, 0, 0, 0), 4 := Fresh]
  }

  function SmallKids(): (kids: map<Id, seq<Id>>)
  {
    map[1 := [2, 3], 2 := [], 3 := [], 4 := []]
  }

  lemma SmallStoreWellFormed()
    ensures WellFormed(SmallStore(), SmallKids())
  {
    SmallStoreClosed();
    forall x | x in SmallStore() ensures ListOf(SmallStore(), x, SmallKids()[x]) {
      SmallStoreListOf(x);
    }
  }

  lemma SmallStoreClosed()
    ensures 0 !in SmallStore() && SmallStore().Keys == SmallKids().Keys
    ensures Closed(SmallStore())
  {
    var m := SmallStore();
    assert m.Keys == {1, 2, 3, 4} == SmallKids().Keys;
  }

  lemma SmallStoreListOf(x: Id)
    requires x in SmallStore()
    ensures ListOf(SmallStore(), x, SmallKids()[x])
  {
    var m, kids := SmallStore(), SmallKids();
    if x == 1 {
      assert kids[1] == [2, 3];
      ListOfIntro(m, 1, [2, 3]);
    } else {
      assert kids[x] == [] && m[x].endL == 0 && m[x].endR == 0;
    }
  }

  /** The check adopt makes does not by itself make a gap a position of a
      child list. Disowning both children `2` and `3` of `1` leaves their
      own links alone, so the gap between them still passes the check;
      adopting node `4` into it then gives `4` the parent `1` without making
      it a child of `1` in any well-formed reading of the result. */
  lemma StaleGapPassesCheck()
    ensures DisownPre(SmallStore(), SmallKids(), 1, 0, 1)
    ensures var m1 := DisownLinks(SmallStore(), 1, 2, 3);
      && WellFormedGap(m1, 1, 2, 3)
      && var m2 := AdoptLinks(m1, [4], 1, 2, 3);
         && m2[4].parent == 1
         && forall kids | WellFormed(m2, kids) :: !Listed(m2, kids, 4)
  {
    SmallStoreWellFormed();
    StaleDisown(SmallStore());
    var m1 := DisownLinks(SmallStore(), 1, 2, 3);
    StaleAdopt(m1);
    StaleAdoptLost(AdoptLinks(m1, [4], 1, 2, 3));
  }

  lemma StaleDisown(m0: Store)
    requires m0.Keys == {1, 2, 3, 4}
    requires m0[2] == Node(1, 0, 3, 0, 0) && m0[3] == Node(1, 2, 0, 0, 0)
    ensures var m1 := DisownLinks(m0, 1, 2, 3);
      && m1.Keys == m0.Keys && WellFormedGap(m1, 1, 2, 3) && m1[1].endL == 0
  {
    DisownLinksSpec(m0, 1, 2, 3);
  }

  lemma StaleAdopt(m1: Store)
    requires m1.Keys == {1, 2, 3, 4} && m1[1].endL == 0
    ensures var m2 := AdoptLinks(m1, [4], 1, 2, 3);
      && m2.Keys == m1.Keys && m2[1].endL == 0 && m2[4].parent == 1
  {
    AdoptLinksSpec(m1, [4], 1, 2, 3);
  }

  lemma StaleAdoptLost(m2: Store)
    requires 1 in m2 && 4 in m2 && m2[1].endL == 0 && m2[4].parent == 1
    ensures forall kids | WellFormed(m2, kids) :: !Listed(m2, kids, 4)
  {
    forall kids | WellFormed(m2, kids) ensures !Listed(m2, kids, 4) {
      assert ListOf(m2, 1, kids[1]);
    }
  }

  /** Adding a node leaves every existing child list as it was. */
  lemma NewNodeOtherList(m: Store, q: Id, s: seq<Id>, id: Id)
    requires ListOf(m, q, s) && id !in m
    ensures ListOf(m[id := Fresh], q, s)
  {
    var r := m[id := Fresh];
    forall i | 0 <= i < |s|
      ensures s[i] in r && r[s[i]].parent == q
      ensures r[s[i]].left == (if i == 0 then 0 else s[i - 1])
      ensures r[s[i]].right == (if i == |s| - 1 then 0 else s[i + 1])
    {
      ListOfAt(m, q, s, i);
    }
    ListOfIntro(r, q, s);
  }

  /** A new node joins the forest as a root with no children: the forest
      stays well formed, and the new node is listed under no parent. */
  lemma NewNodeKeepsWellFormed(m: Store, kids: map<Id, seq<Id>>, id: Id)
    requires WellFormed(m, kids) && id != 0 && id !in m
    ensures WellFormed(m[id := Fresh], kids[id := []])
    ensures !Listed(m[id := Fresh], kids[id := []], id)
  {
    var r, kids' := m[id := Fresh], kids[id := []];
    forall q | q in r ensures ListOf(r, q, kids'[q]) {
      if q != id {
        NewNodeOtherList(m, q, kids[q], id);
      }
    }
    NewNodeClosed(m, id);
    assert r[id].parent == 0 && 0 !in kids';
  }

  /** `m', kids'` is `m, kids` with one more node, numbered `n + 1`: a
      root whose five links are absent and whose child list is empty. */
  ghost predicate Grown(m: Store, kids: map<Id, seq<Id>>, n: nat, m': Store, kids': map<Id, seq<Id>>)
  {
    m' == m[n + 1 := Fresh] && kids' == kids[n + 1 := []]
  }

  /** The node constructor keeps a store consistent: the node numbered
      `n + 1` is not in it yet, and once it is added as a root with no
      children the store is consistent with the counter at `n + 1`. */
  lemma NewNodeKeepsConsistent(m: Store, kids: map<Id, seq<Id>>, n: nat, m': Store, kids': map<Id, seq<Id>>)
    requires Consistent(m, kids, n) && Grown(m, kids, n, m', kids')
    ensures n + 1 !in m
    ensures Consistent(m', kids', n + 1)
    ensures !Listed(m', kids', n + 1)
  {
    IdsNext(m, n, Fresh);
    NewNodeKeepsWellFormed(m, kids, n + 1);
  }

  lemma NewNodeClosed(m: Store, id: Id)
    requires Closed(m)
    ensures Closed(m[id := Fresh])
  {
  }
}
