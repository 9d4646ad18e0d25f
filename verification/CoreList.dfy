/** The list of the CoreMark benchmark: nodes linked through `next`, each pointing to its data.
    Comparing two items may rewrite their data, so the orders to sort by are defined on the data
    as it was when the sort began. */
module CoreList {
  class ListData {
    var data16: bv16
    var idx: int

    constructor (data16: bv16, idx: int)
      ensures this.data16 == data16 && this.idx == idx
    {
      this.data16, this.idx := data16, idx;
    }
  }

  class ListHead {
    var next: ListHead?
    var info: ListData

    constructor (next: ListHead?, info: ListData)
      ensures this.next == next && this.info == info
    {
      this.next, this.info := next, info;
    }
  }

  // The comparison to sort by: the index, restoring the data of both items if there are no
  // results to keep (`regen`), or the data, whose value is computed on first use.  `bench` is
  // what the state machine or matrix benchmark returns when it is run for an item.
  datatype Comparator = ByIdx(regen: bool) | ByData(bench: ListData -> bv16)

  // ---- The data word: original in the upper byte; cached flag and value in the lower

  predicate IsCached(d: bv16) { d & 0x80 != 0 }

  // Bits 0 to 2 select the state machine or the matrix benchmark, or no computation.
  predicate RunsBenchmark(d: bv16) { d & 0x7 < 2 }

  function Low7(d: bv16): bv16 { d & 0x7f }

  // The value of an item: cached, or computed by one of the benchmarks, or the data itself.
  function Value(d: bv16, bench: bv16): bv16 {
    if IsCached(d) then Low7(d) else if RunsBenchmark(d) then Low7(bench) else Low7(d)
  }

  // The cached value goes to the lower byte, with the cached flag.
  function WithValue(d: bv16, value: bv16): bv16 {
    (d & 0xff00) | 0x80 | value
  }

  function Cached(d: bv16, bench: bv16): bv16 {
    if IsCached(d) then d else WithValue(d, Value(d, bench))
  }

  // The lower byte is rebuilt from the upper one.
  function Regenerated(d: bv16): bv16 {
    (d & 0xff00) | (d >> 8)
  }

  // The data of an item after it was compared.
  function Evaluated(c: Comparator, info: ListData, d: bv16): bv16 {
    match c
    case ByIdx(regen) => if regen then Regenerated(d) else d
    case ByData(bench) => Cached(d, bench(info))
  }

  lemma ValueIsCached(d: bv16, bench: bv16, other: bv16)
    ensures IsCached(Cached(d, bench)) && Value(Cached(d, bench), other) == Value(d, bench)
    ensures Cached(d, bench) & 0xff00 == d & 0xff00
  {
  }

  lemma EvaluatedTwice(c: Comparator, info: ListData, d: bv16)
    ensures Evaluated(c, info, Evaluated(c, info, d)) == Evaluated(c, info, d)
  {
    if c.ByData? {
      ValueIsCached(d, c.bench(info), c.bench(info));
    }
    RegeneratedTwice(d);
  }

  lemma RegeneratedTwice(d: bv16)
    ensures Regenerated(Regenerated(d)) == Regenerated(d) && Regenerated(d) & 0xff00 == d & 0xff00
  {
  }

  predicate NotGreater(u: bv16, v: bv16) { u <= v }

  // ---- The same by arithmetic

  // The value of data d, for which a benchmark would return r: the lowest seven bits of d if bit 7 is
  // set, else of r if the lowest three bits are 0 or 1, else of d.
  function ValueOf(d: bv16, r: bv16): bv16 {
    if d / 128 % 2 == 1 then d % 128 else if d % 8 == 0 || d % 8 == 1 then r % 128 else d % 128
  }

  lemma FlagExact(d: bv16)
    ensures IsCached(d) <==> d / 128 % 2 == 1
  {
  }

  lemma KindExact(d: bv16)
    ensures RunsBenchmark(d) <==> d % 8 == 0 || d % 8 == 1
  {
  }

  lemma Low7Exact(d: bv16)
    ensures Low7(d) == d % 128
  {
  }

  lemma ValueExact(d: bv16, r: bv16)
    ensures Value(d, r) == ValueOf(d, r) <= 127
  {
    FlagExact(d);
    KindExact(d);
    Low7Exact(d);
    Low7Exact(r);
    hide IsCached, RunsBenchmark, Low7;
  }

  lemma UpperExact(d: bv16)
    ensures d & 0xff00 == d / 256 * 256
  {
  }

  // The cached value, its flag, and the upper byte.
  lemma CachedExact(d: bv16, r: bv16)
    ensures Cached(d, r) == if d / 128 % 2 == 1 then d else d / 256 * 256 + 128 + ValueOf(d, r)
  {
    FlagExact(d);
    ValueExact(d, r);
    WithValueExact(d, Value(d, r));
    hide IsCached, Value, WithValue, ValueOf;
  }

  lemma WithValueExact(d: bv16, value: bv16)
    requires value <= 127
    ensures WithValue(d, value) == d / 256 * 256 + 128 + value
  {
  }

  // Both bytes are the upper one.
  lemma RegeneratedExact(d: bv16)
    ensures Regenerated(d) == d / 256 * 257
  {
  }

  // A comparison by index restores the data only where it is told to; one by data caches the value.
  lemma EvaluatedExact(c: Comparator, info: ListData, d: bv16)
    ensures match c
            case ByIdx(regen) => Evaluated(c, info, d) == if regen then d / 256 * 257 else d
            case ByData(bench) =>
              Evaluated(c, info, d) == if d / 128 % 2 == 1 then d else d / 256 * 256 + 128 + ValueOf(d, bench(info))
  {
    RegeneratedExact(d);
    if c.ByData? {
      CachedExact(d, c.bench(info));
    }
    hide Regenerated, Cached, ValueOf;
  }

  lemma NotGreaterExact(u: bv16, v: bv16)
    requires u <= 127 && v <= 127
    ensures NotGreater(u, v) <==> u as int <= v as int
  {
  }

  // ---- The order to sort by

  // What the nodes point to, and the items, as they were when the sort began.
  datatype Snapshot = Snapshot(info: map<ListHead, ListData>, idx: map<ListData, int>, data: map<ListData, bv16>)

  datatype Order = Order(c: Comparator, w: Snapshot) {
    ghost predicate Knows(x: ListHead) { x in w.info && w.info[x] in w.idx && w.info[x] in w.data }

    ghost function Idx(x: ListHead): int { if Knows(x) then w.idx[w.info[x]] else 0 }

    ghost function Val(x: ListHead): bv16 {
      if Knows(x) && c.ByData? then Value(w.data[w.info[x]], c.bench(w.info[x])) else 0
    }

    ghost predicate Le(x: ListHead, y: ListHead) {
      match c
      case ByIdx(_) => Idx(x) <= Idx(y)
      case ByData(_) => NotGreater(Val(x), Val(y))
    }

    // What the node is ranked by, as a number.
    ghost function Rank(x: ListHead): int {
      if !Knows(x) then 0
      else if c.ByIdx? then w.idx[w.info[x]]
      else ValueOf(w.data[w.info[x]], c.bench(w.info[x])) as int
    }

    // Items of equal rank.
    ghost predicate Ties(x: ListHead, y: ListHead) { Le(x, y) && Le(y, x) }
  }

  lemma LePreorder(o: Order, x: ListHead, y: ListHead, z: ListHead)
    ensures o.Le(x, x) && (o.Le(x, y) || o.Le(y, x))
    ensures o.Le(x, y) && o.Le(y, z) ==> o.Le(x, z)
  {
  }
}

/** The merge sort on sequences of nodes: what one merge, one pass and the whole sort compute, and
    that the result is sorted, a permutation, and stable. */
module ListOrder {
  import opened Words
  import opened CoreList

  ghost function Merge(o: Order, p: seq<ListHead>, q: seq<ListHead>): (r: seq<ListHead>)
    ensures |r| == |p| + |q|
    decreases |p| + |q|
  {
    if p == [] then q
    else if q == [] then p
    else if o.Le(p[0], q[0]) then [p[0]] + Merge(o, p[1..], q)
    else [q[0]] + Merge(o, p, q[1..])
  }

  // The first run of n items, and what follows it.
  function Run(s: seq<ListHead>, n: nat): seq<ListHead> { s[..Min(n, |s|)] }
  function Rest(s: seq<ListHead>, n: nat): seq<ListHead> { s[Min(n, |s|)..] }

  // One pass merges the runs of n items pairwise.
  ghost function Pass(o: Order, s: seq<ListHead>, n: nat): (r: seq<ListHead>)
    requires n > 0
    ensures |r| == |s|
    decreases |s|
  {
    if s == [] then []
    else Merge(o, Run(s, n), Run(Rest(s, n), n)) + Pass(o, Rest(Rest(s, n), n), n)
  }

  // Passes over runs of n, 2n, 4n... until one merge covers the list.
  ghost function Sort(o: Order, s: seq<ListHead>, n: nat): (r: seq<ListHead>)
    requires n > 0
    ensures |r| == |s|
    decreases |s| - n
  {
    if |s| <= 2 * n then Pass(o, s, n) else Sort(o, Pass(o, s, n), 2 * n)
  }

  // ---- Sortedness

  ghost predicate Sorted(o: Order, s: seq<ListHead>) {
    forall i, j | 0 <= i < j < |s| :: o.Le(s[i], s[j])
  }

  ghost predicate RunsSorted(o: Order, s: seq<ListHead>, n: nat)
    requires n > 0
    decreases |s|
  {
    s != [] ==> Sorted(o, Run(s, n)) && RunsSorted(o, Rest(s, n), n)
  }

  lemma CountPrepend(x: ListHead, s: seq<ListHead>)
    ensures multiset([x] + s) == multiset{x} + multiset(s)
  {
  }

  lemma {:induction false} MergePermutes(o: Order, p: seq<ListHead>, q: seq<ListHead>)
    ensures multiset(Merge(o, p, q)) == multiset(p) + multiset(q)
    decreases |p| + |q|
  {
    hide Order.Le;
    if p != [] && q != [] {
      if o.Le(p[0], q[0]) {
        var r := Merge(o, p[1..], q);
        assert Merge(o, p, q) == [p[0]] + r && p == [p[0]] + p[1..];
        MergePermutes(o, p[1..], q);
        hide Merge;
        CountPrepend(p[0], r);
        CountPrepend(p[0], p[1..]);
      } else {
        var r := Merge(o, p, q[1..]);
        assert Merge(o, p, q) == [q[0]] + r && q == [q[0]] + q[1..];
        MergePermutes(o, p, q[1..]);
        hide Merge;
        CountPrepend(q[0], r);
        CountPrepend(q[0], q[1..]);
      }
    }
  }

  lemma SortedPrepend(o: Order, x: ListHead, s: seq<ListHead>)
    requires Sorted(o, s) && forall y | y in s :: o.Le(x, y)
    ensures Sorted(o, [x] + s)
  {
    hide Order.Le;
  }

  lemma InMerge(o: Order, p: seq<ListHead>, q: seq<ListHead>, x: ListHead)
    ensures x in Merge(o, p, q) <==> x in p || x in q
  {
    MergePermutes(o, p, q);
    assert x in Merge(o, p, q) <==> x in multiset(Merge(o, p, q));
    assert x in p <==> x in multiset(p);
    assert x in q <==> x in multiset(q);
    hide Merge;
  }

  // If a stands before all of p, and b, not above a, stands before all of q.
  lemma {:induction false} MergeSorted(o: Order, p: seq<ListHead>, q: seq<ListHead>)
    requires Sorted(o, p) && Sorted(o, q)
    ensures Sorted(o, Merge(o, p, q))
    decreases |p| + |q|
  {
    hide Order.Le;
    if p != [] && q != [] {
      LePreorder(o, p[0], q[0], p[0]);
      if o.Le(p[0], q[0]) {
        MergeSorted(o, p[1..], q);
        forall y | y in Merge(o, p[1..], q) ensures o.Le(p[0], y) {
          InMerge(o, p[1..], q, y);
          LePreorder(o, p[0], q[0], y);
          LePreorder(o, q[0], q[0], q[0]);
        }
        SortedPrepend(o, p[0], Merge(o, p[1..], q));
      } else {
        MergeSorted(o, p, q[1..]);
        forall y | y in Merge(o, p, q[1..]) ensures o.Le(q[0], y) {
          InMerge(o, p, q[1..], y);
          LePreorder(o, q[0], p[0], y);
          LePreorder(o, p[0], p[0], p[0]);
        }
        SortedPrepend(o, q[0], Merge(o, p, q[1..]));
      }
    }
  }

  lemma RunsUnfold(o: Order, s: seq<ListHead>, n: nat)
    requires n > 0 && RunsSorted(o, s, n) && s != []
    ensures Sorted(o, Run(s, n)) && Sorted(o, Run(Rest(s, n), n)) && RunsSorted(o, Rest(Rest(s, n), n), n)
  {
    NoRuns(o);
    hide Sorted;
  }

  lemma RunsFold(o: Order, s: seq<ListHead>, n: nat)
    requires n > 0 && Sorted(o, Run(s, n)) && RunsSorted(o, Rest(s, n), n)
    ensures RunsSorted(o, s, n)
  {
    hide Sorted;
  }

  lemma {:induction false} PassSorts(o: Order, s: seq<ListHead>, n: nat)
    requires n > 0 && RunsSorted(o, s, n)
    ensures RunsSorted(o, Pass(o, s, n), 2 * n)
    decreases |s|
  {
    if s == [] {
      assert Pass(o, s, n) == [];
    } else {
      var rest := Rest(Rest(s, n), n);
      assert |rest| < |s|;
      hide *;
      RunsUnfold(o, s, n);
      MergeSorted(o, Run(s, n), Run(Rest(s, n), n));
      PassSorts(o, rest, n);
      PassRuns(o, s, n);
      RunsFold(o, Pass(o, s, n), 2 * n);
    }
  }

  // The first run of a pass is the merge of the first two runs.
  lemma PassRuns(o: Order, s: seq<ListHead>, n: nat)
    requires n > 0 && s != []
    ensures Run(Pass(o, s, n), 2 * n) == Merge(o, Run(s, n), Run(Rest(s, n), n))
    ensures Rest(Pass(o, s, n), 2 * n) == Pass(o, Rest(Rest(s, n), n), n)
  {
    var m, rest := Merge(o, Run(s, n), Run(Rest(s, n), n)), Rest(Rest(s, n), n);
    assert Pass(o, s, n) == m + Pass(o, rest, n);
    assert |m| <= 2 * n && (|m| < 2 * n ==> rest == []);
    assert rest == [] ==> Pass(o, rest, n) == [];
    hide Merge, Pass;
  }

  lemma NoRuns(o: Order)
    ensures Sorted(o, [])
  {
  }

  lemma RunAndRest(s: seq<ListHead>, n: nat)
    ensures s == Run(s, n) + Rest(s, n)
  {
  }

  lemma {:induction false} PassPermutes(o: Order, s: seq<ListHead>, n: nat)
    requires n > 0
    ensures multiset(Pass(o, s, n)) == multiset(s)
    decreases |s|
  {
    if s != [] {
      var t := Rest(s, n);
      var m, rest := Merge(o, Run(s, n), Run(t, n)), Rest(t, n);
      MergePermutes(o, Run(s, n), Run(t, n));
      PassPermutes(o, rest, n);
      RunAndRest(s, n);
      RunAndRest(t, n);
      assert Pass(o, s, n) == m + Pass(o, rest, n);
      hide Merge, Pass, Run, Rest;
      assert multiset(s) == multiset(Run(s, n)) + (multiset(Run(t, n)) + multiset(rest)) by {
        assert multiset(t) == multiset(Run(t, n) + rest);
        assert multiset(s) == multiset(Run(s, n) + t);
      }
    }
  }

  // ---- Stability

  ghost function Class(o: Order, g: ListHead, s: seq<ListHead>): seq<ListHead>
    decreases |s|
  {
    if s == [] then []
    else One(o, g, s[0]) + Class(o, g, s[1..])
  }

  ghost function One(o: Order, g: ListHead, x: ListHead): seq<ListHead> {
    if o.Ties(g, x) then [x] else []
  }

  lemma ClassPrepend(o: Order, g: ListHead, x: ListHead, s: seq<ListHead>)
    ensures Class(o, g, [x] + s) == One(o, g, x) + Class(o, g, s)
  {
    assert ([x] + s)[1..] == s;
    hide One;
  }

  lemma {:induction false} ClassAppend(o: Order, g: ListHead, s: seq<ListHead>, t: seq<ListHead>)
    ensures Class(o, g, s + t) == Class(o, g, s) + Class(o, g, t)
    decreases |s|
  {
    hide Order.Ties;
    if s == [] {
      assert s + t == t;
    } else {
      ClassAppend(o, g, s[1..], t);
      assert (s + t)[1..] == s[1..] + t;
    }
  }

  lemma {:induction false} ClassEmpty(o: Order, g: ListHead, s: seq<ListHead>)
    requires forall y | y in s :: !o.Ties(g, y)
    ensures Class(o, g, s) == []
    decreases |s|
  {
    hide Order.Ties;
    if s != [] {
      ClassEmpty(o, g, s[1..]);
    }
  }

  // An item of the right run overtakes the left run only if it ties with none of it.
  lemma OvertakesNoTie(o: Order, g: ListHead, p: seq<ListHead>, x: ListHead)
    requires p != [] && Sorted(o, p) && !o.Le(p[0], x) && o.Ties(g, x)
    ensures Class(o, g, p) == []
  {
    forall y | y in p ensures !o.Ties(g, y) {
      LePreorder(o, p[0], p[0], p[0]);
      assert o.Le(p[0], y);
      LePreorder(o, y, g, x);
      LePreorder(o, p[0], y, x);
    }
    hide Order.Ties, Order.Le;
    ClassEmpty(o, g, p);
  }

  lemma AppendAssociates(a: seq<ListHead>, b: seq<ListHead>, c: seq<ListHead>)
    ensures (a + b) + c == a + (b + c)
  {
  }

  lemma {:induction false} MergeStable(o: Order, g: ListHead, p: seq<ListHead>, q: seq<ListHead>)
    requires Sorted(o, p)
    ensures Class(o, g, Merge(o, p, q)) == Class(o, g, p) + Class(o, g, q)
    decreases |p| + |q|
  {
    hide Order.Ties, Order.Le;
    if p != [] && q != [] {
      if o.Le(p[0], q[0]) {
        var r := Merge(o, p[1..], q);
        assert Merge(o, p, q) == [p[0]] + r;
        MergeStable(o, g, p[1..], q);
        hide Merge, Class, Sorted;
        ClassPrepend(o, g, p[0], r);
        ClassPrepend(o, g, p[0], p[1..]);
        assert p == [p[0]] + p[1..];
        AppendAssociates(One(o, g, p[0]), Class(o, g, p[1..]), Class(o, g, q));
      } else {
        var r := Merge(o, p, q[1..]);
        assert Merge(o, p, q) == [q[0]] + r;
        MergeStable(o, g, p, q[1..]);
        if o.Ties(g, q[0]) {
          OvertakesNoTie(o, g, p, q[0]);
        }
        assert One(o, g, q[0]) == [] || Class(o, g, p) == [];
        hide Merge, Class, Sorted;
        ClassPrepend(o, g, q[0], r);
        ClassPrepend(o, g, q[0], q[1..]);
        assert q == [q[0]] + q[1..];
      }
    }
  }

  lemma LaterRuns(o: Order, s: seq<ListHead>, n: nat)
    requires n > 0 && s != [] && RunsSorted(o, s, n)
    ensures Sorted(o, Run(s, n)) && RunsSorted(o, Rest(Rest(s, n), n), n)
  {
    hide Sorted;
  }

  lemma ClassParts(o: Order, g: ListHead, p: seq<ListHead>, q: seq<ListHead>, rest: seq<ListHead>,
                   m: seq<ListHead>, r: seq<ListHead>)
    requires Class(o, g, m) == Class(o, g, p) + Class(o, g, q) && Class(o, g, r) == Class(o, g, rest)
    ensures Class(o, g, m + r) == Class(o, g, p + (q + rest))
  {
    hide Class;
    calc {
      Class(o, g, m + r);
    == { ClassAppend(o, g, m, r); }
      Class(o, g, m) + Class(o, g, r);
    ==
      (Class(o, g, p) + Class(o, g, q)) + Class(o, g, rest);
    == { AppendAssociates(Class(o, g, p), Class(o, g, q), Class(o, g, rest)); }
      Class(o, g, p) + (Class(o, g, q) + Class(o, g, rest));
    == { ClassAppend(o, g, q, rest); }
      Class(o, g, p) + Class(o, g, q + rest);
    == { ClassAppend(o, g, p, q + rest); }
      Class(o, g, p + (q + rest));
    }
  }

  lemma {:induction false} PassStable(o: Order, g: ListHead, s: seq<ListHead>, n: nat)
    requires n > 0 && RunsSorted(o, s, n)
    ensures Class(o, g, Pass(o, s, n)) == Class(o, g, s)
    decreases |s|
  {
    hide Sorted, Merge, Class;
    if s != [] {
      var p, t := Run(s, n), Rest(s, n);
      var q, rest := Run(t, n), Rest(t, n);
      LaterRuns(o, s, n);
      MergeStable(o, g, p, q);
      PassStable(o, g, rest, n);
      RunAndRest(s, n);
      RunAndRest(t, n);
      hide Run, Rest, RunsSorted;
      ClassParts(o, g, p, q, rest, Merge(o, p, q), Pass(o, rest, n));
    }
  }

  // ---- The whole sort

  lemma {:induction false} SingleRuns(o: Order, s: seq<ListHead>)
    ensures RunsSorted(o, s, 1)
    decreases |s|
  {
    if s != [] {
      SingleRuns(o, Rest(s, 1));
    }
  }

  lemma OneRun(o: Order, s: seq<ListHead>, n: nat)
    requires n > 0 && |s| <= n && RunsSorted(o, s, n)
    ensures Sorted(o, s)
  {
    if s != [] {
      assert Run(s, n) == s;
    }
  }

  lemma {:induction false} SortSorts(o: Order, s: seq<ListHead>, n: nat)
    requires n > 0 && RunsSorted(o, s, n)
    ensures Sorted(o, Sort(o, s, n)) && multiset(Sort(o, s, n)) == multiset(s)
    decreases |s| - n
  {
    hide Sorted, RunsSorted, Pass;
    PassSorts(o, s, n);
    PassPermutes(o, s, n);
    if |s| <= 2 * n {
      OneRun(o, Pass(o, s, n), 2 * n);
    } else {
      SortSorts(o, Pass(o, s, n), 2 * n);
    }
  }

  lemma {:induction false} SortStable(o: Order, g: ListHead, s: seq<ListHead>, n: nat)
    requires n > 0 && RunsSorted(o, s, n)
    ensures Class(o, g, Sort(o, s, n)) == Class(o, g, s)
    decreases |s| - n
  {
    hide RunsSorted, Pass, Class;
    PassSorts(o, s, n);
    PassStable(o, g, s, n);
    if |s| > 2 * n {
      SortStable(o, g, Pass(o, s, n), 2 * n);
    }
  }

  // The sort of a list: sorted, the same nodes, and nodes that tie in the order they had.
  lemma SortCorrect(o: Order, s: seq<ListHead>)
    ensures Sorted(o, Sort(o, s, 1)) && multiset(Sort(o, s, 1)) == multiset(s)
    ensures forall g :: g in s ==> Class(o, g, Sort(o, s, 1)) == Class(o, g, s)
  {
    SingleRuns(o, s);
    SortSorts(o, s, 1);
    hide Class, Sort, Sorted;
    forall g | g in s ensures Class(o, g, Sort(o, s, 1)) == Class(o, g, s) {
      SortStable(o, g, s, 1);
    }
  }

  lemma LeIsRank(o: Order, x: ListHead, y: ListHead)
    ensures o.Knows(x) && o.Knows(y) ==> (o.Le(x, y) <==> o.Rank(x) <= o.Rank(y))
  {
    if o.Knows(x) && o.Knows(y) && o.c.ByData? {
      var a, b := o.w.info[x], o.w.info[y];
      ValueExact(o.w.data[a], o.c.bench(a));
      ValueExact(o.w.data[b], o.c.bench(b));
      NotGreaterExact(o.Val(x), o.Val(y));
      hide Value, ValueOf, NotGreater;
    }
  }

  ghost predicate Ascending(o: Order, t: seq<ListHead>) {
    forall i, j | 0 <= i < j < |t| :: o.Rank(t[i]) <= o.Rank(t[j])
  }

  // After the sort, the indices or values of the nodes do not decrease along the list, as numbers.
  lemma RanksAscend(o: Order, s: seq<ListHead>)
    requires forall x | x in s :: o.Knows(x)
    ensures multiset(Sort(o, s, 1)) == multiset(s) && Ascending(o, Sort(o, s, 1))
  {
    SortCorrect(o, s);
    var t := Sort(o, s, 1);
    forall i, j | 0 <= i < j < |t| ensures o.Rank(t[i]) <= o.Rank(t[j]) {
      assert t[i] in multiset(t) && t[j] in multiset(t);
      LeIsRank(o, t[i], t[j]);
    }
    hide Sort, Order.Rank, Order.Knows, Order.Le;
  }

  // ---- Every node is compared

  ghost function MergeCompared(o: Order, p: seq<ListHead>, q: seq<ListHead>): set<ListHead>
    decreases |p| + |q|
  {
    if p == [] || q == [] then {}
    else {p[0], q[0]} + if o.Le(p[0], q[0]) then MergeCompared(o, p[1..], q) else MergeCompared(o, p, q[1..])
  }

  ghost function PassCompared(o: Order, s: seq<ListHead>, n: nat): set<ListHead>
    requires n > 0
    decreases |s|
  {
    if s == [] then {}
    else MergeCompared(o, Run(s, n), Run(Rest(s, n), n)) + PassCompared(o, Rest(Rest(s, n), n), n)
  }

  ghost function SortCompared(o: Order, s: seq<ListHead>, n: nat): set<ListHead>
    requires n > 0
    decreases |s| - n
  {
    PassCompared(o, s, n) + if |s| <= 2 * n then {} else SortCompared(o, Pass(o, s, n), 2 * n)
  }

  // All items of a run of two or more have been compared.
  ghost predicate Covered(seen: set<ListHead>, s: seq<ListHead>) {
    |s| >= 2 ==> forall x | x in s :: x in seen
  }

  ghost predicate RunsCovered(seen: set<ListHead>, s: seq<ListHead>, n: nat)
    requires n > 0
    decreases |s|
  {
    s != [] ==> Covered(seen, Run(s, n)) && RunsCovered(seen, Rest(s, n), n)
  }

  lemma {:induction false} CoveredGrows(seen: set<ListHead>, more: set<ListHead>, s: seq<ListHead>, n: nat)
    requires n > 0 && RunsCovered(seen, s, n) && seen <= more
    ensures RunsCovered(more, s, n)
    decreases |s|
  {
    if s != [] {
      CoveredGrows(seen, more, Rest(s, n), n);
    }
  }

  // A merge of a full run with another compares at least their first items, so nothing it
  // yields was never compared.
  lemma MergeCovers(o: Order, seen: set<ListHead>, p: seq<ListHead>, q: seq<ListHead>, n: nat)
    requires Covered(seen, p) && Covered(seen, q) && p != [] && (q == [] || |p| == n > 0)
    ensures Covered(seen + MergeCompared(o, p, q), Merge(o, p, q))
  {
    if q != [] {
      forall x | x in Merge(o, p, q) ensures x in seen + MergeCompared(o, p, q) {
        InMerge(o, p, q, x);
        assert p[0] in MergeCompared(o, p, q) && q[0] in MergeCompared(o, p, q);
        assert x in p && |p| == 1 ==> x == p[0];
        assert x in q && |q| == 1 ==> x == q[0];
        hide Merge, MergeCompared;
      }
    }
  }

  lemma {:induction false} PassCovers(o: Order, seen: set<ListHead>, s: seq<ListHead>, n: nat)
    requires n > 0 && RunsCovered(seen, s, n)
    ensures RunsCovered(seen + PassCompared(o, s, n), Pass(o, s, n), 2 * n)
    decreases |s|
  {
    hide Covered, Merge, MergeCompared;
    if s != [] {
      var p, q, rest := Run(s, n), Run(Rest(s, n), n), Rest(Rest(s, n), n);
      NothingCovered(seen);
      var more := seen + PassCompared(o, s, n);
      MergeCovers(o, seen, p, q, n);
      PassCovers(o, seen, rest, n);
      CoveredMore(seen + MergeCompared(o, p, q), more, Merge(o, p, q));
      CoveredGrows(seen + PassCompared(o, rest, n), more, Pass(o, rest, n), 2 * n);
      PassRuns(o, s, n);
    }
  }

  lemma NothingCovered(seen: set<ListHead>)
    ensures Covered(seen, [])
  {
  }

  lemma CoveredMore(seen: set<ListHead>, more: set<ListHead>, s: seq<ListHead>)
    requires Covered(seen, s) && seen <= more
    ensures Covered(more, s)
  {
  }

  lemma {:induction false} SortCovers(o: Order, seen: set<ListHead>, s: seq<ListHead>, n: nat)
    requires n > 0 && RunsCovered(seen, s, n) && |s| >= 2
    ensures forall x | x in s :: x in seen + SortCompared(o, s, n)
    decreases |s| - n
  {
    hide RunsCovered, PassCompared, Pass;
    var r, more := Pass(o, s, n), seen + PassCompared(o, s, n);
    PassCovers(o, seen, s, n);
    PassPermutes(o, s, n);
    forall x | x in s ensures x in r {
      assert x in multiset(s);
      assert x in multiset(r);
    }
    if |s| <= 2 * n {
      OneRunCovered(more, r, 2 * n);
    } else {
      SortCovers(o, more, r, 2 * n);
    }
  }

  lemma OneRunCovered(seen: set<ListHead>, s: seq<ListHead>, n: nat)
    requires n > 0 && 2 <= |s| <= n && RunsCovered(seen, s, n)
    ensures forall x | x in s :: x in seen
  {
    assert Run(s, n) == s;
  }

  lemma {:induction false} SingleRunsCovered(s: seq<ListHead>)
    ensures RunsCovered({}, s, 1)
    decreases |s|
  {
    if s != [] {
      SingleRunsCovered(Rest(s, 1));
    }
  }

  // Sorting a list of two or more items passes each of them to the comparison at least once.
  lemma EveryItemCompared(o: Order, s: seq<ListHead>)
    requires |s| >= 2
    ensures forall x | x in s :: x in SortCompared(o, s, 1)
  {
    SingleRunsCovered(s);
    hide RunsCovered;
    SortCovers(o, {}, s, 1);
    assert {} + SortCompared(o, s, 1) == SortCompared(o, s, 1);
    hide SortCompared;
  }
}
