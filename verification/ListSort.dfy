/** The merge sort in place: nodes are relinked through their `next` pointers, run by run and
    pass by pass, without extra memory.  The ghost sequences say which nodes hang together. */
module ListSort {
  import opened CoreList
  import opened ListOrder

  // ---- Linked nodes

  ghost predicate NoDuplicates(s: seq<ListHead>) {
    forall i, j | 0 <= i < j < |s| :: s[i] != s[j]
  }

  // Each node but the last points to its successor.
  ghost predicate Linked(s: seq<ListHead>)
    reads s
  {
    forall i | 0 <= i < |s| - 1 :: s[i].next == s[i + 1]
  }

  // A complete list.
  ghost predicate Chain(s: seq<ListHead>)
    reads s
  {
    Linked(s) && (s != [] ==> s[|s| - 1].next == null)
  }

  ghost function First(s: seq<ListHead>): ListHead? { if s == [] then null else s[0] }
  ghost function Last(s: seq<ListHead>): ListHead? { if s == [] then null else s[|s| - 1] }

  // ---- The data of the nodes while they are sorted

  // The items of nodes.
  ghost function ItemsOf(o: Order, seen: set<ListHead>): set<ListData> {
    set x | x in seen && x in o.w.info :: o.w.info[x]
  }

  // The nodes are those of the snapshot; the items compared so far have been evaluated.
  ghost predicate DataAt(o: Order, nodes: set<ListHead>, infos: set<ListData>, seen: set<ListHead>)
    reads nodes`info, infos
  {
    && (forall x | x in nodes :: o.Knows(x) && x.info == o.w.info[x] && x.info in infos)
    && (forall x | x in nodes ::
          && x.info.idx == o.w.idx[x.info]
          && x.info.data16 == if x.info in ItemsOf(o, seen) then Evaluated(o.c, x.info, o.w.data[x.info]) else o.w.data[x.info])
  }

  // ---- Comparison

  method CalcFunc(d: ListData, bench: bv16) returns (value: bv16)
    modifies d`data16
    ensures value == Value(old(d.data16), bench)
    ensures d.data16 == Cached(old(d.data16), bench)
  {
    hide Regenerated, IsCached, RunsBenchmark, Low7, WithValue;
    var data := d.data16;
    if IsCached(data) {
      return Low7(data);
    }
    value := if RunsBenchmark(data) then bench else data;
    value := Low7(value);
    d.data16 := WithValue(data, value);
  }

  // The comparison of two items with the given data and indices is not above zero.
  predicate LeValues(c: Comparator, a: ListData, d: bv16, i: int, b: ListData, e: bv16, j: int) {
    match c
    case ByIdx(_) => i <= j
    case ByData(bench) => NotGreater(Value(d, bench(a)), Value(e, bench(b)))
  }

  lemma EvaluatedOnce(c: Comparator, info: ListData, d: bv16, seen: bool)
    ensures Evaluated(c, info, if seen then Evaluated(c, info, d) else d) == Evaluated(c, info, d)
    ensures c.ByData? ==> Value(if seen then Evaluated(c, info, d) else d, c.bench(info)) == Value(d, c.bench(info))
  {
    EvaluatedTwice(c, info, d);
    if c.ByData? {
      ValueIsCached(d, c.bench(info), c.bench(info));
    }
    hide Value, Cached, Regenerated;
  }

  // Whether the comparison yields a result not above zero; both items may be the same.
  method NotAbove(c: Comparator, a: ListData, b: ListData) returns (le: bool)
    modifies a`data16, b`data16
    ensures a.data16 == Evaluated(c, a, old(a.data16)) && b.data16 == Evaluated(c, b, old(b.data16))
    ensures le == LeValues(c, a, old(a.data16), a.idx, b, old(b.data16), b.idx)
  {
    EvaluatedOnce(c, b, b.data16, true);
    hide Value, Cached, Regenerated, NotGreater;
    match c {
      case ByIdx(regen) =>
        if regen {
          a.data16 := Regenerated(a.data16);
          b.data16 := Regenerated(b.data16);
        }
        le := a.idx - b.idx <= 0;
      case ByData(bench) =>
        var v1 := CalcFunc(a, bench(a));
        var v2 := CalcFunc(b, bench(b));
        le := NotGreater(v1, v2);
    }
  }

  // The result does not depend on which of the items have been evaluated before.
  lemma LeOnce(c: Comparator, a: ListData, d: bv16, i: int, b: ListData, e: bv16, j: int, seenA: bool, seenB: bool)
    ensures LeValues(c, a, if seenA then Evaluated(c, a, d) else d, i, b, if seenB then Evaluated(c, b, e) else e, j)
            == LeValues(c, a, d, i, b, e, j)
  {
    EvaluatedOnce(c, a, d, seenA);
    EvaluatedOnce(c, b, e, seenB);
    hide Value, Evaluated;
  }

  lemma LeOfSnapshot(o: Order, x: ListHead, y: ListHead)
    requires o.Knows(x) && o.Knows(y)
    ensures var a, b := o.w.info[x], o.w.info[y];
            o.Le(x, y) == LeValues(o.c, a, o.w.data[a], o.w.idx[a], b, o.w.data[b], o.w.idx[b])
  {
    hide Value;
  }

  lemma TwoMoreItems(o: Order, seen: set<ListHead>, x: ListHead, y: ListHead)
    requires o.Knows(x) && o.Knows(y)
    ensures ItemsOf(o, seen + {x, y}) == ItemsOf(o, seen) + {o.w.info[x], o.w.info[y]}
  {
  }

  method Compare(c: Comparator, ghost o: Order, x: ListHead, y: ListHead, ghost nodes: set<ListHead>, ghost infos: set<ListData>,
                 ghost seen: set<ListHead>) returns (le: bool)
    requires o.c == c
    requires x in nodes && y in nodes && DataAt(o, nodes, infos, seen)
    modifies infos`data16
    ensures le == o.Le(x, y)
    ensures DataAt(o, nodes, infos, seen + {x, y})
  {
    ghost var a, b, known := x.info, y.info, ItemsOf(o, seen);
    TwoMoreItems(o, seen, x, y);
    hide Evaluated, LeValues, Order.Le, ItemsOf, Value;
    EvaluatedOnce(c, a, o.w.data[a], a in known);
    EvaluatedOnce(c, b, o.w.data[b], b in known);
    LeOnce(c, a, o.w.data[a], a.idx, b, o.w.data[b], b.idx, a in known, b in known);
    LeOfSnapshot(o, x, y);
    le := NotAbove(c, x.info, y.info);
  }

  // ---- Relinking

  // e becomes the last node of the merged list.
  method Append(list: ListHead?, tail: ListHead?, e: ListHead, ghost done: seq<ListHead>)
    returns (newList: ListHead, newTail: ListHead)
    requires list == First(done) && tail == Last(done) && Linked(done) && NoDuplicates(done + [e])
    modifies if tail == null then {} else {tail}`next
    ensures newList == First(done + [e]) && newTail == e && Linked(done + [e])
  {
    newList := e;
    if tail != null {
      tail.next := e;
      newList := list;
    }
    newTail := e;
    ghost var all := done + [e];
    forall i | 0 <= i < |all| - 1 ensures all[i].next == all[i + 1] {
      assert all[i] == done[i];
      if i < |done| - 1 {
        assert all[i] != all[|done| - 1] == tail;
      }
    }
  }

  ghost predicate Apart(s: seq<ListHead>, t: seq<ListHead>) {
    forall i, j | 0 <= i < |s| && 0 <= j < |t| :: s[i] != t[j]
  }

  // The nodes merged so far, what is left of the left run, and the rest of the list from the
  // right run on: all different.
  ghost predicate AllApart(nodes: set<ListHead>, done: seq<ListHead>, p: seq<ListHead>, r: seq<ListHead>) {
    && NoDuplicates(done) && NoDuplicates(p) && NoDuplicates(r)
    && Apart(done, p) && Apart(done, r) && Apart(p, r)
    && (forall x | x in done :: x in nodes) && (forall x | x in p :: x in nodes) && (forall x | x in r :: x in nodes)
  }

  ghost predicate Merging(nodes: set<ListHead>, done: seq<ListHead>, p: seq<ListHead>, r: seq<ListHead>)
    reads nodes, done, p, r
  {
    AllApart(nodes, done, p, r) && Linked(done) && Linked(p) && Chain(r)
  }

  lemma MoveLeft(nodes: set<ListHead>, done: seq<ListHead>, p: seq<ListHead>, r: seq<ListHead>)
    requires AllApart(nodes, done, p, r) && p != []
    ensures AllApart(nodes, done + [p[0]], p[1..], r)
  {
  }

  lemma MoveRight(nodes: set<ListHead>, done: seq<ListHead>, p: seq<ListHead>, r: seq<ListHead>)
    requires AllApart(nodes, done, p, r) && r != []
    ensures AllApart(nodes, done + [r[0]], p, r[1..])
  {
  }

  // Take the first node of the left run.
  method TakeLeft(list: ListHead?, tail: ListHead?, p: ListHead, ghost nodes: set<ListHead>,
                  ghost done: seq<ListHead>, ghost left: seq<ListHead>, ghost rest: seq<ListHead>)
    returns (newList: ListHead, newTail: ListHead, newP: ListHead?)
    requires Merging(nodes, done, left, rest) && list == First(done) && tail == Last(done)
    requires left != [] && p == left[0]
    modifies nodes`next
    ensures Merging(nodes, done + [p], left[1..], rest)
    ensures newList == First(done + [p]) && newTail == p
    ensures |left| > 1 ==> newP == left[1]
  {
    newP := p.next;
    MoveLeft(nodes, done, left, rest);
    newList, newTail := Append(list, tail, p, done);
    hide AllApart;
    assert Linked(left[1..]) && Chain(rest);
  }

  // Take the first node of the right run.
  method TakeRight(list: ListHead?, tail: ListHead?, q: ListHead, ghost nodes: set<ListHead>,
                   ghost done: seq<ListHead>, ghost left: seq<ListHead>, ghost rest: seq<ListHead>)
    returns (newList: ListHead, newTail: ListHead, newQ: ListHead?)
    requires Merging(nodes, done, left, rest) && list == First(done) && tail == Last(done)
    requires rest != [] && q == rest[0]
    modifies nodes`next
    ensures Merging(nodes, done + [q], left, rest[1..])
    ensures newList == First(done + [q]) && newTail == q
    ensures newQ == First(rest[1..])
  {
    newQ := q.next;
    MoveRight(nodes, done, left, rest);
    newList, newTail := Append(list, tail, q, done);
    hide AllApart;
    assert Linked(left) && Chain(rest[1..]);
  }

  // ---- One merge

  lemma MergeLeft(o: Order, left: seq<ListHead>, run: seq<ListHead>)
    requires left != [] && (run == [] || o.Le(left[0], run[0]))
    ensures Merge(o, left, run) == [left[0]] + Merge(o, left[1..], run)
    ensures run == [] ==> MergeCompared(o, left, run) == MergeCompared(o, left[1..], run) == {}
    ensures run != [] ==> MergeCompared(o, left, run) == {left[0], run[0]} + MergeCompared(o, left[1..], run)
  {
    if run == [] {
      assert left == [left[0]] + left[1..];
    }
  }

  lemma MergeRight(o: Order, left: seq<ListHead>, run: seq<ListHead>)
    requires run != [] && (left == [] || !o.Le(left[0], run[0]))
    ensures Merge(o, left, run) == [run[0]] + Merge(o, left, run[1..])
    ensures left == [] ==> MergeCompared(o, left, run) == MergeCompared(o, left, run[1..]) == {}
    ensures left != [] ==> MergeCompared(o, left, run) == {left[0], run[0]} + MergeCompared(o, left, run[1..])
  {
    if left == [] {
      assert run == [run[0]] + run[1..];
    }
  }

  lemma RunTail(rest: seq<ListHead>, n: nat)
    requires rest != [] && n > 0
    ensures Run(rest, n) != [] && Run(rest, n)[0] == rest[0]
    ensures Run(rest, n)[1..] == Run(rest[1..], n - 1) && Rest(rest[1..], n - 1) == Rest(rest, n)
  {
  }

  lemma RunNone(rest: seq<ListHead>, n: nat)
    requires rest == [] || n == 0
    ensures Run(rest, n) == [] && Rest(rest, n) == rest
  {
  }

  // Move one node to the merged list.
  method MergeStep(c: Comparator, ghost o: Order, list: ListHead?, tail: ListHead?, p: ListHead?, q: ListHead?, psize: nat, qsize: nat,
                   ghost nodes: set<ListHead>, ghost infos: set<ListData>, ghost seen: set<ListHead>,
                   ghost done: seq<ListHead>, ghost left: seq<ListHead>, ghost rest: seq<ListHead>)
    returns (newList: ListHead?, newTail: ListHead?, newP: ListHead?, newQ: ListHead?, fromLeft: bool,
             ghost newSeen: set<ListHead>)
    requires o.c == c
    requires Merging(nodes, done, left, rest) && DataAt(o, nodes, infos, seen)
    requires list == First(done) && tail == Last(done) && q == First(rest)
    requires psize == |left| && (left != [] ==> p == left[0])
    requires psize > 0 || (qsize > 0 && q != null)
    modifies nodes`next, infos`data16
    ensures fromLeft ==> left != [] && Merging(nodes, done + [left[0]], left[1..], rest)
    ensures !fromLeft ==> rest != [] && qsize > 0 && Merging(nodes, done + [rest[0]], left, rest[1..])
    ensures DataAt(o, nodes, infos, newSeen)
    ensures newList == First(done + [if fromLeft then left[0] else rest[0]])
    ensures newTail == if fromLeft then left[0] else rest[0]
    ensures newQ == First(if fromLeft then rest else rest[1..])
    ensures fromLeft && |left| > 1 ==> newP == left[1]
    ensures !fromLeft ==> newP == p
    ensures left == [] ==> !fromLeft
    ensures rest == [] || qsize == 0 ==> fromLeft
    ensures left == [] || rest == [] || qsize == 0 ==> newSeen == seen
    ensures left != [] && rest != [] && qsize > 0 ==>
              newSeen == seen + {left[0], rest[0]} && fromLeft == o.Le(left[0], rest[0])
  {
    hide AllApart, Order.Le, Linked, Chain, DataAt;
    newSeen, newP, newQ := seen, p, q;
    if psize == 0 {
      fromLeft := false;
    } else if qsize == 0 || q == null {
      fromLeft := true;
    } else {
      HeadsAreNodes(nodes, done, left, rest);
      fromLeft := Compare(c, o, p, q, nodes, infos, seen);
      newSeen := seen + {p, q};
    }
    if fromLeft {
      newList, newTail, newP := TakeLeft(list, tail, p, nodes, done, left, rest);
    } else {
      newList, newTail, newQ := TakeRight(list, tail, q, nodes, done, left, rest);
    }
  }

  // What the merge still has to do, after one step as before.
  lemma StepMerges(o: Order, seen: set<ListHead>, newSeen: set<ListHead>, fromLeft: bool, qsize: nat,
                   done: seq<ListHead>, left: seq<ListHead>, rest: seq<ListHead>)
    requires left == [] ==> !fromLeft
    requires if rest == [] || qsize == 0 then fromLeft else left != [] ==> fromLeft == o.Le(left[0], rest[0])
    requires newSeen == if left == [] || rest == [] || qsize == 0 then seen else seen + {left[0], rest[0]}
    ensures fromLeft ==>
              && (done + [left[0]]) + Merge(o, left[1..], Run(rest, qsize)) == done + Merge(o, left, Run(rest, qsize))
              && newSeen + MergeCompared(o, left[1..], Run(rest, qsize)) == seen + MergeCompared(o, left, Run(rest, qsize))
    ensures !fromLeft ==>
              && (done + [rest[0]]) + Merge(o, left, Run(rest[1..], qsize - 1)) == done + Merge(o, left, Run(rest, qsize))
              && newSeen + MergeCompared(o, left, Run(rest[1..], qsize - 1)) == seen + MergeCompared(o, left, Run(rest, qsize))
              && Rest(rest[1..], qsize - 1) == Rest(rest, qsize)
  {
    hide Merge, MergeCompared, Run, Rest, Order.Le;
    if rest == [] || qsize == 0 {
      RunNone(rest, qsize);
    } else {
      RunTail(rest, qsize);
    }
    if fromLeft {
      MergeLeft(o, left, Run(rest, qsize));
    } else {
      MergeRight(o, left, Run(rest, qsize));
    }
  }

  // Merge the run of psize nodes at p with the run of at most qsize nodes at q onto the list.
  method MergeRuns(c: Comparator, ghost o: Order, list0: ListHead?, tail0: ListHead?, p0: ListHead, q0: ListHead?, psize0: nat, qsize0: nat,
                   ghost nodes: set<ListHead>, ghost infos: set<ListData>, ghost seen0: set<ListHead>,
                   ghost done0: seq<ListHead>, ghost left0: seq<ListHead>, ghost rest0: seq<ListHead>)
    returns (list: ListHead?, tail: ListHead?, q: ListHead?,
             ghost done: seq<ListHead>, ghost rest: seq<ListHead>, ghost seen: set<ListHead>)
    requires o.c == c
    requires Merging(nodes, done0, left0, rest0) && DataAt(o, nodes, infos, seen0)
    requires list0 == First(done0) && tail0 == Last(done0)
    requires left0 != [] && p0 == left0[0] && psize0 == |left0| && q0 == First(rest0)
    modifies nodes`next, infos`data16
    ensures done == done0 + Merge(o, left0, Run(rest0, qsize0)) && rest == Rest(rest0, qsize0)
    ensures seen == seen0 + MergeCompared(o, left0, Run(rest0, qsize0))
    ensures Merging(nodes, done, [], rest) && DataAt(o, nodes, infos, seen)
    ensures list == First(done) && tail == Last(done) && q == First(rest)
  {
    hide Merge, MergeCompared, Merging, DataAt, Run, Rest, Order.Le;
    var p: ListHead? := p0;
    var psize, qsize := psize0, qsize0;
    list, tail, q := list0, tail0, q0;
    done, rest, seen := done0, rest0, seen0;
    ghost var left := left0;
    while psize > 0 || (qsize > 0 && q != null)
      invariant Merging(nodes, done, left, rest) && DataAt(o, nodes, infos, seen)
      invariant list == First(done) && tail == Last(done) && q == First(rest)
      invariant psize == |left| && (left != [] ==> p == left[0])
      invariant done + Merge(o, left, Run(rest, qsize)) == done0 + Merge(o, left0, Run(rest0, qsize0))
      invariant seen + MergeCompared(o, left, Run(rest, qsize)) == seen0 + MergeCompared(o, left0, Run(rest0, qsize0))
      invariant Rest(rest, qsize) == Rest(rest0, qsize0)
      decreases psize + qsize
    {
      var fromLeft;
      ghost var newSeen;
      list, tail, p, q, fromLeft, newSeen :=
        MergeStep(c, o, list, tail, p, q, psize, qsize, nodes, infos, seen, done, left, rest);
      StepMerges(o, seen, newSeen, fromLeft, qsize, done, left, rest);
      seen := newSeen;
      if fromLeft {
        psize := psize - 1;
        done, left := done + [left[0]], left[1..];
      } else {
        qsize := qsize - 1;
        done, rest := done + [rest[0]], rest[1..];
      }
    }
    RunNone(rest, qsize);
    NothingToMerge(o);
  }

  lemma NothingToMerge(o: Order)
    ensures Merge(o, [], []) == [] && MergeCompared(o, [], []) == {}
  {
  }

  lemma HeadsAreNodes(nodes: set<ListHead>, done: seq<ListHead>, p: seq<ListHead>, r: seq<ListHead>)
    requires AllApart(nodes, done, p, r) && p != [] && r != []
    ensures p[0] in nodes && r[0] in nodes
  {
  }

  // ---- One pass

  // Step at most n places along from p.
  method StepAlong(p: ListHead, n: nat, ghost nodes: set<ListHead>, ghost done: seq<ListHead>, ghost rest: seq<ListHead>)
    returns (q: ListHead?, psize: nat)
    requires n > 0 && rest != [] && p == rest[0] && Merging(nodes, done, [], rest)
    ensures psize == |Run(rest, n)| && q == First(Rest(rest, n))
  {
    hide AllApart;
    q := p;
    psize := 0;
    var i := 0;
    while i < n
      invariant psize == i <= n && i < |rest| && q == rest[i]
      decreases n - i
    {
      psize := psize + 1;
      assert rest[i].next == if i + 1 < |rest| then rest[i + 1] else null;
      q := q.next;
      i := i + 1;
      if q == null {
        assert psize == |rest|;
        break;
      }
    }
  }

  lemma SplitRun(nodes: set<ListHead>, done: seq<ListHead>, rest: seq<ListHead>, n: nat)
    requires AllApart(nodes, done, [], rest)
    ensures AllApart(nodes, done, Run(rest, n), Rest(rest, n))
  {
  }

  lemma SplitMerging(nodes: set<ListHead>, done: seq<ListHead>, rest: seq<ListHead>, n: nat)
    requires Merging(nodes, done, [], rest)
    ensures Merging(nodes, done, Run(rest, n), Rest(rest, n))
  {
    SplitRun(nodes, done, rest, n);
    hide AllApart;
  }

  lemma {:induction false} PassUnfolds(o: Order, rest: seq<ListHead>, n: nat)
    requires n > 0 && rest != []
    ensures var left, r := Run(rest, n), Rest(rest, n);
            && Pass(o, rest, n) == Merge(o, left, Run(r, n)) + Pass(o, Rest(r, n), n)
            && PassCompared(o, rest, n) == MergeCompared(o, left, Run(r, n)) + PassCompared(o, Rest(r, n), n)
            && left != [] && left[0] == rest[0] && |rest| == |left| + |Run(r, n)| + |Rest(r, n)|
            && (Rest(r, n) != [] ==> |left| + |Run(r, n)| == 2 * n) && |left| + |Run(r, n)| <= 2 * n
  {
  }

  // Merge the two runs at p onto the list.
  method MergeNext(c: Comparator, ghost o: Order, list0: ListHead?, tail0: ListHead?, p: ListHead, n: nat,
                   ghost nodes: set<ListHead>, ghost infos: set<ListData>, ghost seen0: set<ListHead>,
                   ghost done0: seq<ListHead>, ghost rest0: seq<ListHead>)
    returns (list: ListHead?, tail: ListHead?, q: ListHead?,
             ghost done: seq<ListHead>, ghost rest: seq<ListHead>, ghost seen: set<ListHead>)
    requires o.c == c
    requires n > 0 && Merging(nodes, done0, [], rest0) && DataAt(o, nodes, infos, seen0)
    requires list0 == First(done0) && tail0 == Last(done0)
    requires rest0 != [] && p == rest0[0]
    modifies nodes`next, infos`data16
    ensures done + Pass(o, rest, n) == done0 + Pass(o, rest0, n)
    ensures seen + PassCompared(o, rest, n) == seen0 + PassCompared(o, rest0, n)
    ensures |rest| < |rest0| && |done| + |rest| == |done0| + |rest0|
    ensures |done| <= |done0| + 2 * n && (rest != [] ==> |done| == |done0| + 2 * n)
    ensures Merging(nodes, done, [], rest) && DataAt(o, nodes, infos, seen)
    ensures list == First(done) && tail == Last(done) && q == First(rest)
  {
    hide Merge, MergeCompared, DataAt, Pass, PassCompared, Merging, Run, Rest;
    var psize;
    q, psize := StepAlong(p, n, nodes, done0, rest0);
    ghost var left, r := Run(rest0, n), Rest(rest0, n);
    PassUnfolds(o, rest0, n);
    SplitMerging(nodes, done0, rest0, n);
    list, tail, q, done, rest, seen :=
      MergeRuns(c, o, list0, tail0, p, q, psize, n, nodes, infos, seen0, done0, left, r);
    assert done0 + (Merge(o, left, Run(r, n)) + Pass(o, rest, n)) == done + Pass(o, rest, n);
  }

  method SortPass(c: Comparator, ghost o: Order, list0: ListHead, n: nat,
                  ghost nodes: set<ListHead>, ghost infos: set<ListData>, ghost seen0: set<ListHead>,
                  ghost s: seq<ListHead>)
    returns (list: ListHead, nmerges: nat, ghost t: seq<ListHead>, ghost seen: set<ListHead>)
    requires o.c == c
    requires n > 0 && s != [] && list0 == s[0]
    requires Merging(nodes, [], [], s) && DataAt(o, nodes, infos, seen0)
    modifies nodes`next, infos`data16
    ensures t == Pass(o, s, n) && list == t[0] && Merging(nodes, [], [], t)
    ensures seen == seen0 + PassCompared(o, s, n) && DataAt(o, nodes, infos, seen)
    ensures nmerges <= 1 <==> |s| <= 2 * n
  {
    hide Merging, DataAt, Pass, PassCompared;
    var p: ListHead? := list0;
    var head: ListHead?, tail: ListHead? := null, null;
    nmerges := 0;
    ghost var done, rest := [], s;
    seen := seen0;
    while p != null
      invariant Merging(nodes, done, [], rest) && DataAt(o, nodes, infos, seen)
      invariant head == First(done) && tail == Last(done) && p == First(rest)
      invariant done + Pass(o, rest, n) == Pass(o, s, n)
      invariant seen + PassCompared(o, rest, n) == seen0 + PassCompared(o, s, n)
      invariant |done| + |rest| == |s|
      invariant nmerges == 0 ==> done == []
      invariant nmerges == 1 ==> |done| <= 2 * n && (rest != [] ==> |done| == 2 * n)
      invariant nmerges >= 2 ==> |s| > 2 * n
      decreases |rest|
    {
      nmerges := nmerges + 1;
      head, tail, p, done, rest, seen := MergeNext(c, o, head, tail, p, n, nodes, infos, seen, done, rest);
    }
    NothingToPass(o, n);
    list := head;
    t := done;
    Terminate(tail, nodes, done);
  }

  lemma NothingToPass(o: Order, n: nat)
    requires n > 0
    ensures Pass(o, [], n) == [] && PassCompared(o, [], n) == {}
  {
  }

  // The end of the pass ends the list.
  method Terminate(tail: ListHead, ghost nodes: set<ListHead>, ghost done: seq<ListHead>)
    requires done != [] && tail == Last(done) && Merging(nodes, done, [], [])
    modifies nodes`next
    ensures Merging(nodes, [], [], done)
  {
    tail.next := null;
    assert forall i | 0 <= i < |done| - 1 :: done[i] != tail;
  }

  // ---- The sort

  lemma SortUnfolds(o: Order, s: seq<ListHead>, n: nat)
    requires n > 0
    ensures Sort(o, s, n) == if |s| <= 2 * n then Pass(o, s, n) else Sort(o, Pass(o, s, n), 2 * n)
    ensures SortCompared(o, s, n)
            == PassCompared(o, s, n) + if |s| <= 2 * n then {} else SortCompared(o, Pass(o, s, n), 2 * n)
  {
    hide Pass, PassCompared;
  }

  lemma Ranked(o: Order, nodes: set<ListHead>, infos: set<ListData>, s: seq<ListHead>)
    requires Merging(nodes, [], [], s) && DataAt(o, nodes, infos, {})
    ensures Ascending(o, Sort(o, s, 1))
  {
    hide Sort, Ascending;
    RanksAscend(o, s);
  }

  // Pass after pass, the runs double.
  method SortRuns(c: Comparator, ghost o: Order, list0: ListHead, ghost nodes: set<ListHead>, ghost infos: set<ListData>, ghost s: seq<ListHead>)
    returns (list: ListHead, ghost t: seq<ListHead>)
    requires o.c == c
    requires s != [] && list0 == s[0]
    requires Merging(nodes, [], [], s) && DataAt(o, nodes, infos, {})
    modifies nodes`next, infos`data16
    ensures t == Sort(o, s, 1) && list == t[0] && Merging(nodes, [], [], t)
    ensures DataAt(o, nodes, infos, SortCompared(o, s, 1))
  {
    hide Merging, DataAt, Pass, PassCompared, Sort, SortCompared;
    var insize := 1;
    var nmerges;
    ghost var seen := {};
    list, t := list0, s;
    while true
      invariant insize > 0 && |t| == |s| && list == t[0]
      invariant Merging(nodes, [], [], t) && DataAt(o, nodes, infos, seen)
      invariant Sort(o, t, insize) == Sort(o, s, 1)
      invariant seen + SortCompared(o, t, insize) == SortCompared(o, s, 1)
      decreases |s| - insize
    {
      SortUnfolds(o, t, insize);
      list, nmerges, t, seen := SortPass(c, o, list, insize, nodes, infos, seen, t);
      if nmerges <= 1 {
        assert seen == SortCompared(o, s, 1);
        return;
      }
      insize := insize * 2;
    }
  }

  // Sort a non-empty list in place; the empty list has no last node to end.
  method MergeSort(c: Comparator, ghost o: Order, list0: ListHead, ghost nodes: set<ListHead>, ghost infos: set<ListData>, ghost s: seq<ListHead>)
    returns (list: ListHead, ghost t: seq<ListHead>)
    requires o.c == c
    requires s != [] && list0 == s[0]
    requires Merging(nodes, [], [], s) && DataAt(o, nodes, infos, {})
    modifies nodes`next, infos`data16
    ensures t == Sort(o, s, 1) && list == t[0] && Merging(nodes, [], [], t) && Ascending(o, t)
    ensures DataAt(o, nodes, infos, SortCompared(o, s, 1))
  {
    Ranked(o, nodes, infos, s);
    hide Merging, DataAt, Sort, SortCompared, Ascending;
    list, t := SortRuns(c, o, list0, nodes, infos, s);
  }
}
