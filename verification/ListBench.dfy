/** The list benchmark: it searches, reverses, reorders, sorts by data, removes and restores, and
    sorts by index.  It promises to leave the list as it found it. */
module ListBench {
  import opened CoreList
  import opened ListOrder
  import opened ListSort

  // ---- What the benchmark keeps all along

  // The nodes still point to their own items, with their indices and the original data in the
  // upper byte.
  ghost predicate Kept(w: Snapshot, nodes: set<ListHead>, infos: set<ListData>)
    reads nodes, infos
  {
    && (forall x | x in nodes ::
          x in w.info && x.info == w.info[x] && x.info in infos && x.info in w.idx && x.info in w.data
          && x.info.idx == w.idx[x.info] && Upper(x.info.data16) == Upper(w.data[x.info]))
  }

  function Upper(d: bv16): bv16 { d & 0xff00 }

  ghost predicate IsList(nodes: set<ListHead>, s: seq<ListHead>)
    reads nodes, s
  {
    NoDuplicates(s) && Chain(s) && forall x | x in s :: x in nodes
  }

  lemma ListIsMerging(nodes: set<ListHead>, s: seq<ListHead>)
    ensures IsList(nodes, s) <==> Merging(nodes, [], [], s)
  {
  }

  // ---- Searching

  datatype Wanted = Wanted(idx: int, data16: bv16)

  ghost predicate Found(x: ListHead, want: Wanted)
    reads x, x.info
  {
    if want.idx >= 0 then x.info.idx == want.idx else x.info.data16 & 0xff == want.data16
  }

  lemma LowByteExact(d: bv16)
    ensures d & 0xff == d % 0x100
  {
  }

  // By index if one is wanted, else by the lower byte of the data.
  lemma FoundExact(x: ListHead, want: Wanted)
    ensures Found(x, want) <==>
            if want.idx >= 0 then x.info.idx == want.idx else x.info.data16 % 0x100 == want.data16
  {
    LowByteExact(x.info.data16);
  }

  // The k-th node, or null behind the last.
  ghost function NodeAt(s: seq<ListHead>, k: nat): ListHead? { if k < |s| then s[k] else null }

  lemma ChainAt(s: seq<ListHead>, k: nat)
    requires Chain(s) && k < |s|
    ensures s[k].next == NodeAt(s, k + 1)
  {
  }

  // The first node with the wanted index, or with the wanted lower data byte, and its place.
  method Find(list: ListHead?, want: Wanted, ghost nodes: set<ListHead>, ghost s: seq<ListHead>)
    returns (r: ListHead?, ghost at: nat)
    requires IsList(nodes, s) && list == First(s)
    ensures at <= |s| && r == NodeAt(s, at)
    ensures r != null ==> Found(r, want)
    ensures forall i | 0 <= i < at :: !Found(s[i], want)
  {
    r, at := list, 0;
    hide NoDuplicates, Linked;
    if want.idx >= 0 {
      while r != null && r.info.idx != want.idx
        invariant at <= |s| && r == NodeAt(s, at)
        invariant forall i | 0 <= i < at :: !Found(s[i], want)
        decreases |s| - at
      {
        ChainAt(s, at);
        r, at := r.next, at + 1;
      }
    } else {
      while r != null && r.info.data16 & 0xff != want.data16
        invariant at <= |s| && r == NodeAt(s, at)
        invariant forall i | 0 <= i < at :: !Found(s[i], want)
        decreases |s| - at
      {
        ChainAt(s, at);
        r, at := r.next, at + 1;
      }
    }
  }

  // ---- Reversing

  ghost function Reversed(s: seq<ListHead>): (r: seq<ListHead>)
    ensures |r| == |s| && forall i | 0 <= i < |s| :: r[i] == s[|s| - 1 - i]
  {
    if s == [] then [] else Reversed(s[1..]) + [s[0]]
  }

  lemma ReversedPermutes(s: seq<ListHead>)
    ensures multiset(Reversed(s)) == multiset(s)
  {
    if s != [] {
      ReversedPermutes(s[1..]);
      assert s == [s[0]] + s[1..];
    }
  }

  // The node before the k-th, or null before the first.
  ghost function NodeBefore(s: seq<ListHead>, k: nat): ListHead?
    requires k <= |s|
  {
    if k == 0 then null else s[k - 1]
  }

  lemma NodesAround(s: seq<ListHead>, k: nat)
    requires k <= |s|
    ensures NodeAt(s, k) != null <==> k < |s|
    ensures k < |s| ==> NodeAt(s, k) == s[k] && NodeBefore(s, k + 1) == s[k]
  {
  }

  lemma Ends(s: seq<ListHead>)
    ensures First(s) == NodeAt(s, 0) && NodeBefore(s, 0) == null
    ensures First(Reversed(s)) == NodeBefore(s, |s|)
  {
  }

  method Reverse(list0: ListHead?, ghost nodes: set<ListHead>, ghost s: seq<ListHead>) returns (next: ListHead?)
    requires IsList(nodes, s) && list0 == First(s)
    modifies nodes`next
    ensures IsList(nodes, Reversed(s)) && next == First(Reversed(s))
  {
    var list := list0;
    next := null;
    ghost var k := 0;
    Ends(s);
    forall i | 0 <= i < |s| ensures s[i].next == NodeAt(s, i + 1) {
      ChainAt(s, i);
    }
    assert forall i | 0 <= i < |s| :: s[i] in nodes;
    hide Chain, Linked, IsList, First, Reversed, NodeAt, NodeBefore;
    while list != null
      invariant 0 <= k <= |s| && list == NodeAt(s, k) && next == NodeBefore(s, k)
      invariant forall i | 0 <= i < k :: s[i].next == NodeBefore(s, i)
      invariant forall i | k <= i < |s| :: s[i].next == NodeAt(s, i + 1)
      decreases |s| - k
    {
      NodesAround(s, k);
      assert forall i | 0 <= i < |s| && i != k :: s[i] != list;
      var tmp := list.next;
      list.next := next;
      next := list;
      list := tmp;
      k := k + 1;
    }
    NodesAround(s, k);
    Relinked(nodes, s);
  }

  // Nodes that point to their predecessors make up the reversed list.
  lemma Relinked(nodes: set<ListHead>, s: seq<ListHead>)
    requires NoDuplicates(s) && forall x | x in s :: x in nodes
    requires forall i | 0 <= i < |s| :: s[i].next == NodeBefore(s, i)
    ensures IsList(nodes, Reversed(s))
  {
    var r := Reversed(s);
    forall i | 0 <= i < |r| - 1 ensures r[i].next == r[i + 1] {
      assert s[|s| - 1 - i].next == s[|s| - 2 - i];
    }
    ReversedDistinct(s);
  }

  lemma ReversedDistinct(s: seq<ListHead>)
    requires NoDuplicates(s)
    ensures NoDuplicates(Reversed(s)) && forall x :: x in Reversed(s) ==> x in s
  {
  }

  // ---- Moving the successor of a found node behind the head

  ghost function Moved(s: seq<ListHead>, j: nat): (r: seq<ListHead>)
    requires j + 1 < |s|
    ensures |r| == |s|
  {
    [s[0], s[j + 1]] + s[1..j + 1] + s[j + 2..]
  }

  lemma MovedPermutes(s: seq<ListHead>, j: nat)
    requires j + 1 < |s|
    ensures multiset(Moved(s, j)) == multiset(s)
  {
    assert s == [s[0]] + s[1..j + 1] + [s[j + 1]] + s[j + 2..];
  }

  method MoveToFront(list: ListHead, found: ListHead, ghost nodes: set<ListHead>, ghost s: seq<ListHead>, ghost j: nat)
    requires IsList(nodes, s) && j + 1 < |s| && list == s[0] && found == s[j]
    modifies nodes`next
    ensures IsList(nodes, Moved(s, j))
  {
    ghost var r := Moved(s, j);
    assert found.next == s[j + 1];
    var finder := found.next;
    found.next := finder.next;
    finder.next := list.next;
    list.next := finder;
    assert forall i | 0 <= i < |s| && i != 0 && i != j && i != j + 1 :: s[i].next == if i + 1 < |s| then s[i + 1] else null;
    MovedAt(s, j);
    assert forall i | 0 <= i < |r| :: r[i].next == if i + 1 < |r| then r[i + 1] else null;
  }

  lemma MovedAt(s: seq<ListHead>, j: nat)
    requires j + 1 < |s|
    ensures var r := Moved(s, j);
            && r[0] == s[0] && r[1] == s[j + 1]
            && (forall i | 2 <= i < j + 2 :: r[i] == s[i - 1])
            && (forall i | j + 2 <= i < |s| :: r[i] == s[i])
  {
  }

  // ---- Removing and restoring a node

  // Remove the successor of item, after exchanging their data.
  method Remove(item: ListHead) returns (ret: ListHead)
    requires item.next != null && item.next != item
    modifies item, item.next
    ensures ret == old(item.next)
    ensures item.info == old(item.next.info) && ret.info == old(item.info)
    ensures item.next == old(item.next.next) && ret.next == null
  {
    ret := item.next;
    var tmp := item.info;
    item.info := ret.info;
    ret.info := tmp;
    item.next := item.next.next;
    ret.next := null;
  }

  method UndoRemove(removed: ListHead, modified: ListHead)
    requires removed != modified
    modifies removed, modified
    ensures removed.info == old(modified.info) && modified.info == old(removed.info)
    ensures removed.next == old(modified.next) && modified.next == removed
  {
    var tmp := removed.info;
    removed.info := modified.info;
    modified.info := tmp;
    removed.next := modified.next;
    modified.next := removed;
  }

  // Removing the third node and undoing it changes nothing; in between, the list lacks the node.
  method RemoveAndUndo(list: ListHead, want: Wanted, ghost w: Snapshot, ghost nodes: set<ListHead>,
                       ghost infos: set<ListData>, ghost s: seq<ListHead>)
    requires IsList(nodes, s) && |s| >= 3 && list == s[0] && Kept(w, nodes, infos)
    modifies nodes
    ensures Kept(w, nodes, infos)
    ensures forall x | x in nodes :: x.next == old(x.next) && x.info == old(x.info)
    ensures IsList(nodes, s)
  {
    hide Upper;
    assert list.next == s[1] && s[1].next == s[2];
    var item := list.next;
    var remover := Remove(item);
    ghost var t := s[..2] + s[3..];
    assert s[2] == remover;
    assert forall i | 3 <= i < |s| :: s[i] != s[1] && s[i] != s[2];
    assert IsList(nodes, t) by {
      assert s[0] != s[1] && s[0] != s[2];
      assert forall i | 0 <= i < |t| :: t[i] == if i < 2 then s[i] else s[i + 1];
    }
    var finder;
    ghost var at;
    finder, at := Find(list, want, nodes, t);
    assert list.next == s[1];
    UndoRemove(remover, list.next);
  }

  // ---- Sorting, seen from outside

  // The order by c on the present state.
  ghost function OrderNow(c: Comparator, nodes: set<ListHead>, infos: set<ListData>): (o: Order)
    reads nodes, infos
  {
    Order(c, Snapshot(map x | x in nodes :: x.info, map d | d in infos :: d.idx, map d | d in infos :: d.data16))
  }

  lemma UpperEvaluated(c: Comparator, info: ListData, d: bv16)
    ensures Upper(Evaluated(c, info, d)) == Upper(d)
    ensures c == ByIdx(true) ==> Evaluated(c, info, d) == Regenerated(d)
  {
    RegeneratedTwice(d);
    if c.ByData? {
      ValueIsCached(d, c.bench(info), c.bench(info));
    }
  }

  // The snapshot of the present state tells the same as w, but for the lower data bytes.
  ghost predicate Restates(v: Snapshot, w: Snapshot, nodes: set<ListHead>) {
    forall x | x in nodes ::
      && x in w.info && w.info[x] in w.idx && w.info[x] in w.data
      && x in v.info && v.info[x] == w.info[x] && w.info[x] in v.idx && w.info[x] in v.data
      && v.idx[w.info[x]] == w.idx[w.info[x]] && Upper(v.data[w.info[x]]) == Upper(w.data[w.info[x]])
  }

  lemma SnapshotNow(c: Comparator, w: Snapshot, nodes: set<ListHead>, infos: set<ListData>)
    requires Kept(w, nodes, infos)
    ensures DataAt(OrderNow(c, nodes, infos), nodes, infos, {})
    ensures Restates(OrderNow(c, nodes, infos).w, w, nodes)
    ensures forall x | x in nodes :: OrderNow(c, nodes, infos).w.info[x] == x.info
                                     && OrderNow(c, nodes, infos).w.data[x.info] == x.info.data16
  {
    hide Upper, Evaluated;
  }

  lemma KeptAfterSort(o: Order, w: Snapshot, nodes: set<ListHead>, infos: set<ListData>, seen: set<ListHead>)
    requires DataAt(o, nodes, infos, seen) && Restates(o.w, w, nodes)
    ensures Kept(w, nodes, infos)
    ensures o.c == ByIdx(true) ==>
              forall x | x in nodes && x in seen :: x.info.data16 == Regenerated(o.w.data[o.w.info[x]])
  {
    hide Upper, Evaluated, Regenerated;
    forall x | x in nodes
      ensures Upper(x.info.data16) == Upper(w.data[x.info])
      ensures o.c == ByIdx(true) && x in seen ==> x.info.data16 == Regenerated(o.w.data[o.w.info[x]])
    {
      UpperEvaluated(o.c, x.info, o.w.data[x.info]);
      assert x in seen ==> x.info in ItemsOf(o, seen);
    }
  }

  lemma ListNodes(nodes: set<ListHead>, s: seq<ListHead>)
    requires IsList(nodes, s)
    ensures forall x | x in s :: x in nodes
  {
  }

  method SortBy(c: Comparator, list0: ListHead, ghost w: Snapshot, ghost nodes: set<ListHead>, ghost infos: set<ListData>,
                ghost s: seq<ListHead>) returns (list: ListHead, ghost t: seq<ListHead>)
    requires s != [] && list0 == s[0] && IsList(nodes, s) && Kept(w, nodes, infos)
    modifies nodes`next, infos`data16
    ensures IsList(nodes, t) && t != [] && list == t[0] && Kept(w, nodes, infos)
    ensures multiset(t) == multiset(s) && Sorted(old(OrderNow(c, nodes, infos)), t)
    ensures c == ByIdx(true) && |s| >= 2 ==> forall x | x in s :: x.info.data16 == Regenerated(old(x.info.data16))
  {
    ghost var o := OrderNow(c, nodes, infos);
    SnapshotNow(c, w, nodes, infos);
    ListIsMerging(nodes, s);
    SortCorrect(o, s);
    if |s| >= 2 {
      EveryItemCompared(o, s);
    }
    hide Evaluated, Regenerated, Order.Le, Sorted, Merging, Sort, SortCompared, Class, Kept, Restates, DataAt, IsList;
    assert forall x | x in s :: x in nodes by { ListNodes(nodes, s); }
    list, t := MergeSort(c, o, list0, nodes, infos, s);
    ListIsMerging(nodes, t);
    KeptAfterSort(o, w, nodes, infos, SortCompared(o, s, 1));
  }

  // ---- The benchmark

  // The index searched for is a signed 16-bit number.
  function Incremented(idx: int): int {
    if idx < 0 then idx else if idx == 32767 then -32768 else idx + 1
  }

  // An index that is searched for goes on to the next signed 16-bit number.
  lemma IncrementedExact(idx: int)
    requires -0x8000 <= idx < 0x8000
    ensures -0x8000 <= Incremented(idx) < 0x8000
    ensures (Incremented(idx) - if idx >= 0 then idx + 1 else idx) % 0x1_0000 == 0
  {
  }

  // One search: find, reverse, and if the found node has a successor, move that one to the front.
  method SearchStep(list0: ListHead, want: Wanted, ghost nodes: set<ListHead>, ghost s: seq<ListHead>)
    returns (list: ListHead, ghost t: seq<ListHead>)
    requires IsList(nodes, s) && s != [] && list0 == s[0]
    modifies nodes`next
    ensures IsList(nodes, t) && t != [] && list == t[0] && multiset(t) == multiset(s)
  {
    hide IsList, Found;
    var thisFind;
    ghost var k;
    thisFind, k := Find(list0, want, nodes, s);
    list := Reverse(list0, nodes, s);
    t := Reversed(s);
    ReversedPermutes(s);
    if thisFind != null {
      ghost var j := |s| - 1 - k;
      assert t[j] == thisFind;
      if thisFind.next != null {
        NextExists(nodes, t, j);
        MoveToFront(list, thisFind, nodes, t, j);
        MovedPermutes(t, j);
        t := Moved(t, j);
      }
    }
  }

  lemma NextExists(nodes: set<ListHead>, s: seq<ListHead>, j: nat)
    requires IsList(nodes, s) && j < |s| && s[j].next != null
    ensures j + 1 < |s|
  {
  }

  method Search(list0: ListHead, findNum: int, finderIdx: int, ghost w: Snapshot, ghost nodes: set<ListHead>,
                ghost infos: set<ListData>, ghost s: seq<ListHead>)
    returns (list: ListHead, want: Wanted, ghost t: seq<ListHead>)
    requires IsList(nodes, s) && s != [] && list0 == s[0] && Kept(w, nodes, infos)
    modifies nodes`next
    ensures IsList(nodes, t) && t != [] && list == t[0] && multiset(t) == multiset(s) && Kept(w, nodes, infos)
  {
    hide IsList, Upper;
    list, t := list0, s;
    want := Wanted(finderIdx, 0);
    var i := 0;
    while i < findNum
      invariant IsList(nodes, t) && t != [] && list == t[0] && multiset(t) == multiset(s)
    {
      want := Wanted(want.idx, (i % 256) as bv16);
      list, t := SearchStep(list, want, nodes, t);
      want := Wanted(Incremented(want.idx), want.data16);
      i := i + 1;
    }
  }

  // ---- The list is back to its original state

  lemma SameMembers(s: seq<ListHead>, t: seq<ListHead>)
    requires multiset(s) == multiset(t)
    ensures |s| == |t| && forall x :: x in s <==> x in t
  {
    assert |s| == |multiset(s)| == |multiset(t)| == |t|;
    forall x ensures x in s <==> x in t {
      assert x in s <==> x in multiset(s);
      assert x in t <==> x in multiset(t);
    }
  }

  lemma TailsPermute(s: seq<ListHead>, t: seq<ListHead>)
    requires s != [] && t != [] && s[0] == t[0] && multiset(s) == multiset(t)
    ensures multiset(s[1..]) == multiset(t[1..])
  {
    assert s == [s[0]] + s[1..] && t == [t[0]] + t[1..];
    assert multiset(s[1..]) == multiset(s) - multiset{s[0]};
    assert multiset(t[1..]) == multiset(t) - multiset{t[0]};
  }

  lemma HeadsAgree(o: Order, s: seq<ListHead>, t: seq<ListHead>)
    requires o.c.ByIdx? && s != [] && multiset(s) == multiset(t)
    requires forall i, j | 0 <= i < j < |s| :: o.Idx(s[i]) < o.Idx(s[j])
    requires Sorted(o, t)
    ensures t != [] && s[0] == t[0]
  {
    SameMembers(s, t);
    hide Order.Idx;
    assert s[0] in t && t[0] in s;
    var i :| 0 <= i < |t| && t[i] == s[0];
    var j :| 0 <= j < |s| && s[j] == t[0];
    LePreorder(o, t[0], t[0], t[0]);
    assert o.Le(t[0], t[i]);
    if j > 0 {
      assert false;
    }
  }

  // There is only one order by distinct indices.
  lemma {:induction false} SortedUnique(o: Order, s: seq<ListHead>, t: seq<ListHead>)
    requires o.c.ByIdx? && multiset(s) == multiset(t)
    requires forall i, j | 0 <= i < j < |s| :: o.Idx(s[i]) < o.Idx(s[j])
    requires Sorted(o, t)
    ensures s == t
    decreases |s|
  {
    hide Order.Idx, Order.Le;
    if s == [] {
      SameMembers(s, t);
    } else {
      HeadsAgree(o, s, t);
      TailsPermute(s, t);
      SortedUnique(o, s[1..], t[1..]);
      assert s == [s[0]] + s[1..] && t == [t[0]] + t[1..];
    }
  }

  lemma RegeneratedByUpper(d: bv16, e: bv16)
    requires Upper(d) == Upper(e)
    ensures Regenerated(d) == Regenerated(e)
  {
  }

  // The index order on any later state of the same nodes.
  lemma BackInOrder(w: Snapshot, nodes: set<ListHead>, infos: set<ListData>, s: seq<ListHead>, o: Order, t: seq<ListHead>)
    requires Restates(o.w, w, nodes) && o.c == ByIdx(true)
    requires forall x | x in s :: x in nodes
    requires forall i, j | 0 <= i < j < |s| :: w.idx[w.info[s[i]]] < w.idx[w.info[s[j]]]
    requires multiset(t) == multiset(s) && Sorted(o, t)
    ensures s == t
  {
    hide Sorted, Upper;
    assert forall x | x in s :: o.Idx(x) == w.idx[w.info[x]];
    SortedUnique(o, s, t);
  }

  // The list is in index order with distinct indices, and every item's lower data byte repeats
  // its upper one.
  ghost predicate Initial(nodes: set<ListHead>, infos: set<ListData>, s: seq<ListHead>)
    reads nodes, infos, s
  {
    && IsList(nodes, s) && (forall x | x in nodes :: x in s && x.info in infos)
    && (forall i, j | 0 <= i < j < |s| && s[i] in nodes && s[j] in nodes :: s[i].info.idx < s[j].info.idx)
    && (forall x | x in nodes :: Regenerated(x.info.data16) == x.info.data16)
  }

  lemma InitialSnapshot(nodes: set<ListHead>, infos: set<ListData>, s: seq<ListHead>)
    requires Initial(nodes, infos, s)
    ensures var w := OrderNow(ByIdx(true), nodes, infos).w;
            && Kept(w, nodes, infos)
            && (forall x | x in s :: x in nodes && x in w.info && w.info[x] in w.idx && w.info[x] in w.data)
            && (forall x | x in s :: w.info[x] == x.info && w.data[w.info[x]] == x.info.data16)
            && (forall x | x in s :: Regenerated(w.data[w.info[x]]) == w.data[w.info[x]])
            && (forall i, j | 0 <= i < j < |s| :: w.idx[w.info[s[i]]] < w.idx[w.info[s[j]]])
  {
    hide Regenerated, Upper;
  }

  // The sort by index returns the list and its data to the state w tells of.
  method SortBack(list0: ListHead, ghost w: Snapshot, ghost nodes: set<ListHead>, ghost infos: set<ListData>,
                  ghost s: seq<ListHead>, ghost t: seq<ListHead>) returns (list: ListHead)
    requires |t| >= 2 && list0 == t[0] && IsList(nodes, t) && Kept(w, nodes, infos)
    requires multiset(t) == multiset(s)
    requires forall x | x in s :: x in nodes && x in w.info && w.info[x] in w.idx && w.info[x] in w.data
    requires forall i, j | 0 <= i < j < |s| :: w.idx[w.info[s[i]]] < w.idx[w.info[s[j]]]
    requires forall x | x in s :: Regenerated(w.data[w.info[x]]) == w.data[w.info[x]]
    modifies nodes`next, infos`data16
    ensures IsList(nodes, s) && s != [] && list == s[0] && Kept(w, nodes, infos)
    ensures forall x | x in s :: x.info.data16 == w.data[w.info[x]]
  {
    ghost var o := OrderNow(ByIdx(true), nodes, infos);
    SnapshotNow(ByIdx(true), w, nodes, infos);
    SameMembers(s, t);
    forall x | x in s ensures Regenerated(x.info.data16) == w.data[w.info[x]] {
      RegeneratedByUpper(x.info.data16, w.data[w.info[x]]);
    }
    hide Regenerated, Upper, Sorted, IsList, Restates, DataAt;
    ghost var u;
    list, u := SortBy(ByIdx(true), list0, w, nodes, infos, t);
    BackInOrder(w, nodes, infos, s, o, u);
  }

  // A list determines the links of its nodes.
  ghost function Link(s: seq<ListHead>, i: nat): ListHead? {
    if i + 1 < |s| then s[i + 1] else null
  }

  ghost predicate LinksAre(s: seq<ListHead>, links: map<ListHead, ListHead?>) {
    forall i | 0 <= i < |s| :: s[i] in links && links[s[i]] == Link(s, i)
  }

  lemma ListLinks(nodes: set<ListHead>, s: seq<ListHead>)
    requires IsList(nodes, s)
    ensures LinksAre(s, map x | x in nodes :: x.next)
  {
  }

  lemma SameLinks(s: seq<ListHead>, links: map<ListHead, ListHead?>, links': map<ListHead, ListHead?>)
    requires LinksAre(s, links) && LinksAre(s, links')
    ensures forall x | x in s :: x in links && x in links' && links[x] == links'[x]
  {
    forall x | x in s ensures x in links && x in links' && links[x] == links'[x] {
      var i :| 0 <= i < |s| && s[i] == x;
      assert links[s[i]] == Link(s, i);
    }
  }

  // The searches, the sort by data, and the removal keep the nodes and their items.
  method Disturb(list0: ListHead, findNum: int, finderIdx: int, bench: ListData -> bv16, ghost w: Snapshot,
                 ghost nodes: set<ListHead>, ghost infos: set<ListData>, ghost s: seq<ListHead>)
    returns (list: ListHead, ghost t: seq<ListHead>)
    requires |s| >= 3 && list0 == s[0] && IsList(nodes, s) && Kept(w, nodes, infos)
    modifies nodes, infos`data16
    ensures IsList(nodes, t) && t != [] && list == t[0] && multiset(t) == multiset(s)
    ensures Kept(w, nodes, infos)
    ensures forall x | x in nodes :: x.info == old(x.info)
  {
    hide IsList, Sorted, Kept, OrderNow, Regenerated;
    var sought;
    list, sought, t := Search(list0, findNum, finderIdx, w, nodes, infos, s);
    SameMembers(s, t);
    if finderIdx > 0 {
      list, t := SortBy(ByData(bench), list, w, nodes, infos, t);
      SameMembers(s, t);
    }
    RemoveAndUndo(list, sought, w, nodes, infos, t);
  }

  // From any list of at least three nodes in its initial state, for any number of searches, any
  // index searched for and any results of the computations, the benchmark returns the list as it
  // was: the same nodes in the same order, with the same items holding the same data.
  method BenchList(list0: ListHead, findNum: int, finderIdx: int, bench: ListData -> bv16,
                   ghost nodes: set<ListHead>, ghost infos: set<ListData>, ghost s: seq<ListHead>) returns (list: ListHead)
    requires |s| >= 3 && list0 == s[0] && Initial(nodes, infos, s)
    modifies nodes, infos`data16
    ensures list == list0 && IsList(nodes, s)
    ensures forall x | x in nodes :: x.next == old(x.next) && x.info == old(x.info)
    ensures forall x | x in nodes :: x.info.data16 == old(x.info.data16) && x.info.idx == old(x.info.idx)
  {
    ghost var w := OrderNow(ByIdx(true), nodes, infos).w;
    ghost var links := map x | x in nodes :: x.next;
    InitialSnapshot(nodes, infos, s);
    ListLinks(nodes, s);
    assert forall x | x in nodes :: x in s;
    hide IsList, Kept, Regenerated, Upper, LinksAre, Initial, OrderNow;
    ghost var t;
    list, t := Disturb(list0, findNum, finderIdx, bench, w, nodes, infos, s);
    SameMembers(s, t);
    list := SortBack(list, w, nodes, infos, s, t);
    ListLinks(nodes, s);
    SameLinks(s, links, map x | x in nodes :: x.next);
  }
}
