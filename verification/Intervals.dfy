/** Sets of half-open address intervals: what `IntervalTree` holds, and the two list algorithms of the memory cache. */
module Intervals {
  import opened Words

  datatype Range = Range(begin: int, end: int) {
    predicate Has(a: int) { begin <= a < end }
  }

  predicate Disjoint(us: set<Range>) {
    forall u, v :: u in us && v in us && u != v ==> u.end <= v.begin || v.end <= u.begin
  }

  predicate AllNonEmpty(us: set<Range>) { forall u :: u in us ==> u.begin < u.end }

  ghost predicate Covers(us: set<Range>, a: int) { exists u :: u in us && u.Has(a) }

  /** A stretch of cached bytes. */
  datatype Interval = Interval(begin: int, end: int, data: seq<byte>) {
    predicate Valid() { begin < end && |data| == end - begin }

    predicate Has(a: int) { begin <= a < end }

    function At(a: int): byte
      requires Valid() && Has(a)
    {
      data[a - begin]
    }

    predicate Overlaps(first: int, last: int) { begin < last && end > first }

    predicate Before(other: Interval) { end <= other.begin }
  }

  /** The invariant of the tree: intervals hold as many bytes as they are long and never share an address. */
  ghost predicate WellFormed(ivs: set<Interval>) {
    && (forall iv :: iv in ivs ==> iv.Valid())
    && (forall x, y :: x in ivs && y in ivs && x != y ==> x.Before(y) || y.Before(x))
  }

  ghost predicate Cached(ivs: set<Interval>, a: int) { exists iv :: iv in ivs && iv.Has(a) }

  ghost function Holder(ivs: set<Interval>, a: int): (iv: Interval)
    requires Cached(ivs, a)
    ensures iv in ivs && iv.Has(a)
  {
    var iv :| iv in ivs && iv.Has(a); iv
  }

  /** What is cached, address by address. */
  ghost function Contents(ivs: set<Interval>): imap<int, byte>
    requires WellFormed(ivs)
  {
    imap a | Cached(ivs, a) :: Holder(ivs, a).At(a)
  }

  lemma ContentsAt(ivs: set<Interval>, iv: Interval, a: int)
    requires WellFormed(ivs) && iv in ivs && iv.Has(a)
    ensures a in Contents(ivs) && Contents(ivs)[a] == iv.At(a)
  {
    var h := Holder(ivs, a);
    assert h != iv ==> h.Before(iv) || iv.Before(h);
  }

  function Overlap(ivs: set<Interval>, first: int, last: int): set<Interval> {
    set iv | iv in ivs && iv.Overlaps(first, last)
  }

  // ---- splitting a request into cached and uncached parts ----

  /** What is left of `u` when the addresses of `c` are taken out: at most a part before and a part behind. */
  function Cut(c: Interval, u: Range): set<Range> {
    if c.end < u.begin || c.begin > u.end then {u}
    else
      (if c.begin - u.begin > 0 then {Range(u.begin, c.begin)} else {})
      + (if u.end - c.end > 0 then {Range(c.end, u.end)} else {})
  }

  lemma CutCovers(c: Interval, u: Range)
    requires c.begin < c.end && u.begin < u.end
    ensures AllNonEmpty(Cut(c, u)) && Disjoint(Cut(c, u))
    ensures forall n :: n in Cut(c, u) ==> u.begin <= n.begin && n.end <= u.end
    ensures forall a :: Covers(Cut(c, u), a) <==> u.Has(a) && !c.Has(a)
  {
    forall a
      ensures Covers(Cut(c, u), a) <==> u.Has(a) && !c.Has(a)
    {
      if u.Has(a) && !c.Has(a) {
        if c.end < u.begin || c.begin > u.end {
          assert u in Cut(c, u);
        } else if a < c.begin {
          assert Range(u.begin, c.begin) in Cut(c, u);
        } else {
          assert Range(c.end, u.end) in Cut(c, u);
        }
      }
    }
  }

  /** `us` are disjoint, non-empty, and together exactly the addresses of `[first, last)` outside `taken`. */
  ghost predicate Splits(us: set<Range>, first: int, last: int, taken: set<Interval>) {
    && AllNonEmpty(us) && Disjoint(us)
    && forall a :: Covers(us, a) <==> first <= a < last && !Cached(taken, a)
  }

  /** The inner loop of `_get_ranges`: take one cached interval out of every uncached piece, in any order. */
  method TakeOut(cachedIv: Interval, uncached: set<Range>) returns (rest: set<Range>)
    requires cachedIv.begin < cachedIv.end && AllNonEmpty(uncached) && Disjoint(uncached)
    ensures AllNonEmpty(rest) && Disjoint(rest)
    ensures forall a :: Covers(rest, a) <==> Covers(uncached, a) && !cachedIv.Has(a)
  {
    rest := {};
    var todo := uncached;
    while todo != {}
      invariant todo <= uncached && AllNonEmpty(rest) && Disjoint(rest)
      invariant forall a :: Covers(rest, a) <==> Covers(uncached - todo, a) && !cachedIv.Has(a)
      decreases todo
    {
      var u :| u in todo;
      CutCovers(cachedIv, u);
      JoinPieces(rest, Cut(cachedIv, u), uncached - todo, u, cachedIv, uncached);
      assert uncached - (todo - {u}) == uncached - todo + {u};
      rest := rest + Cut(cachedIv, u);
      todo := todo - {u};
    }
    assert uncached - {} == uncached;
  }

  lemma JoinPieces(rest: set<Range>, cut: set<Range>, seen: set<Range>, u: Range, c: Interval, all: set<Range>)
    requires AllNonEmpty(rest) && Disjoint(rest) && AllNonEmpty(cut) && Disjoint(cut) && Disjoint(all)
    requires u in all && u !in seen && seen <= all && AllNonEmpty(all)
    requires forall a :: Covers(rest, a) <==> Covers(seen, a) && !c.Has(a)
    requires forall a :: Covers(cut, a) <==> u.Has(a) && !c.Has(a)
    ensures AllNonEmpty(rest + cut) && Disjoint(rest + cut)
    ensures forall a :: Covers(rest + cut, a) <==> Covers(seen + {u}, a) && !c.Has(a)
  {
    forall a ensures Covers(rest + cut, a) <==> Covers(rest, a) || Covers(cut, a) {
      CoversUnion(rest, cut, a);
    }
    forall a ensures Covers(seen + {u}, a) <==> Covers(seen, a) || u.Has(a) {
      CoversUnion(seen, {u}, a);
      assert Covers({u}, a) <==> u.Has(a) by { assert u in {u}; }
    }
    forall r, n | r in rest && n in cut
      ensures r.end <= n.begin || n.end <= r.begin
    {
      var a := Max(r.begin, n.begin);
      assert forall s :: s in seen ==> s.end <= u.begin || u.end <= s.begin;
      assert u.Has(a) ==> !Covers(seen, a);
      assert r.Has(a) && n.Has(a) ==> Covers(rest, a) && Covers(cut, a);
    }
  }

  lemma CoversUnion(us: set<Range>, vs: set<Range>, a: int)
    ensures Covers(us + vs, a) <==> Covers(us, a) || Covers(vs, a)
  {
  }

  /** `_get_ranges`: for any order in which the sets are walked, the uncached pieces are exactly the requested
      addresses that no cached interval holds. */
  method GetRanges(cache: set<Interval>, addr: int, count: nat) returns (cached: set<Interval>, uncached: set<Range>)
    requires WellFormed(cache) && count > 0
    ensures cached == Overlap(cache, addr, addr + count)
    ensures Splits(uncached, addr, addr + count, cache)
  {
    cached := Overlap(cache, addr, addr + count);
    uncached := {Range(addr, addr + count)};
    var todo := cached;
    SplitsStart(addr, addr + count);
    while todo != {}
      invariant todo <= cached && Splits(uncached, addr, addr + count, cached - todo)
      decreases todo
    {
      var iv :| iv in todo;
      ghost var before := uncached;
      uncached := TakeOut(iv, uncached);
      SplitsMore(before, uncached, addr, addr + count, cached - todo, iv);
      assert cached - (todo - {iv}) == cached - todo + {iv};
      todo := todo - {iv};
    }
    assert cached - {} == cached;
    forall a | addr <= a < addr + count
      ensures Cached(cached, a) <==> Cached(cache, a)
    {
      if Cached(cache, a) {
        assert Holder(cache, a) in cached;
      }
    }
  }

  lemma SplitsStart(first: int, last: int)
    requires first < last
    ensures Splits({Range(first, last)}, first, last, {})
  {
    assert Range(first, last) in {Range(first, last)};
  }

  lemma SplitsMore(before: set<Range>, us: set<Range>, first: int, last: int, taken: set<Interval>, iv: Interval)
    requires Splits(before, first, last, taken) && AllNonEmpty(us) && Disjoint(us)
    requires forall a :: Covers(us, a) <==> Covers(before, a) && !iv.Has(a)
    ensures Splits(us, first, last, taken + {iv})
  {
    forall a ensures Cached(taken + {iv}, a) <==> Cached(taken, a) || iv.Has(a) {
      if iv.Has(a) {
        assert iv in taken + {iv};
      }
      if Cached(taken, a) {
        assert Holder(taken, a) in taken + {iv};
      }
    }
  }

  // ---- merging sorted intervals ----

  predicate Sorted(c: seq<Interval>) { forall i, j :: 0 <= i < j < |c| ==> c[i].Before(c[j]) }

  /** A set of intervals in address order, as `sort` by `begin` gives it. */
  method SortByBegin(ivs: set<Interval>) returns (c: seq<Interval>)
    requires WellFormed(ivs)
    ensures Sorted(c) && forall iv :: iv in c <==> iv in ivs
  {
    c := [];
    var todo := ivs;
    while todo != {}
      invariant todo <= ivs && Sorted(c)
      invariant forall iv :: iv in c <==> iv in ivs - todo
      invariant forall x, y :: x in c && y in todo ==> x.Before(y)
      decreases todo
    {
      ghost var w := First(todo);
      var m :| m in todo && forall x :: x in todo && x != m ==> m.Before(x);
      c := c + [m];
      todo := todo - {m};
    }
  }

  lemma {:induction false} First(ivs: set<Interval>) returns (first: Interval)
    requires WellFormed(ivs) && ivs != {}
    ensures first in ivs && forall x :: x in ivs && x != first ==> first.Before(x)
    decreases ivs
  {
    var m :| m in ivs;
    var rest := ivs - {m};
    first := m;
    if rest != {} {
      var f := First(rest);
      assert f.Valid() && (f.Before(m) || m.Before(f));
      first := if f.Before(m) then f else m;
      forall x | x in ivs && x != first ensures first.Before(x) {
        assert x == m || x in rest;
      }
    } else {
      assert ivs == {m};
    }
  }

  /** The bytes of a list of intervals, one after another. */
  function Flat(c: seq<Interval>): seq<byte> {
    if c == [] then [] else Flat(c[..|c| - 1]) + c[|c| - 1].data
  }

  lemma {:induction false} FlatConcat(a: seq<Interval>, b: seq<Interval>)
    ensures Flat(a + b) == Flat(a) + Flat(b)
  {
    if b == [] {
      assert a + b == a;
    } else {
      FlatConcat(a, b[..|b| - 1]);
      FlatLast(a + b);
      FlatLast(b);
      hide Flat;
      assert (a + b)[..|a + b| - 1] == a + b[..|b| - 1];
    }
  }

  lemma FlatLast(c: seq<Interval>)
    requires c != []
    ensures Flat(c) == Flat(c[..|c| - 1]) + c[|c| - 1].data
  {
  }

  lemma FlatOne(iv: Interval)
    ensures Flat([iv]) == iv.data
  {
    assert Flat([iv][..0]) == [];
  }

  /** Each interval begins where the one before it ends. */
  predicate Contiguous(c: seq<Interval>) {
    && (forall i :: 0 <= i < |c| ==> c[i].Valid())
    && (forall i :: 0 < i < |c| ==> c[i - 1].end == c[i].begin)
  }

  lemma {:induction false} FlatAt(c: seq<Interval>, i: nat, a: int)
    requires Contiguous(c) && i < |c| && c[i].Has(a)
    ensures |Flat(c)| == c[|c| - 1].end - c[0].begin
    ensures 0 <= a - c[0].begin < |Flat(c)| && Flat(c)[a - c[0].begin] == c[i].At(a)
    decreases |c|
  {
    var n := |c| - 1;
    var front := c[..n];
    if n > 0 {
      if i < n {
        FlatAt(front, i, a);
      } else {
        FlatAt(front, n - 1, front[n - 1].begin);
      }
    }
  }

  /** A contiguous list whose first and last intervals reach into `[addr, addr + size)` and that covers it. */
  predicate Spans(c: seq<Interval>, addr: int, size: nat) {
    && Contiguous(c) && c != [] && size > 0
    && c[0].begin <= addr < c[0].end
    && c[|c| - 1].begin < addr + size <= c[|c| - 1].end
  }

  /** The leading ragged edge: the part of the first interval from `addr` on, when the interval begins before. */
  method LeadingEdge(c: seq<Interval>, addr: int) returns (edge: seq<byte>, rest: seq<Interval>, ghost left: seq<byte>)
    requires Contiguous(c) && c != [] && c[0].begin <= addr < c[0].end
    ensures Flat(c) == left + edge + Flat(rest) && |left| == addr - c[0].begin
    ensures rest == if c[0].begin < addr then c[1..] else c
  {
    hide Flat;
    edge, rest, left := [], c, [];
    if c[0].begin < addr {
      var offset := addr - c[0].begin;
      edge, left, rest := c[0].data[offset..], c[0].data[..offset], c[1..];
      FlatOne(c[0]);
      FlatConcat([c[0]], c[1..]);
      assert c == [c[0]] + c[1..];
    }
  }

  /** The trailing ragged edge: the part of the last interval up to `end`, when the interval ends behind. */
  method TrailingEdge(c: seq<Interval>, end: int) returns (edge: seq<byte>, rest: seq<Interval>, ghost right: seq<byte>)
    requires Contiguous(c) && (c != [] ==> c[|c| - 1].begin < end <= c[|c| - 1].end)
    ensures Flat(c) == Flat(rest) + edge + right
    ensures |right| == if c == [] then 0 else c[|c| - 1].end - end
  {
    hide Flat;
    edge, rest, right := [], c, [];
    if |c| > 0 && c[|c| - 1].end > end {
      var n := |c| - 1;
      var offset := end - c[n].begin;
      edge, right, rest := c[n].data[..offset], c[n].data[offset..], c[..n];
      FlatOne(c[n]);
      FlatConcat(c[..n], [c[n]]);
      assert c == c[..n] + [c[n]];
    }
  }

  method JoinData(c: seq<Interval>) returns (result: seq<byte>)
    ensures result == Flat(c)
  {
    hide Flat;
    result := [];
    FlatNothing();
    for i := 0 to |c|
      invariant result == Flat(c[..i])
    {
      FlatConcat(c[..i], [c[i]]);
      FlatOne(c[i]);
      assert c[..i + 1] == c[..i] + [c[i]];
      result := result + c[i].data;
    }
    assert c[..|c|] == c;
  }

  /** `_merge_data`: cut the ragged edges off and join the rest. */
  method MergeData(combined: seq<Interval>, addr: int, size: nat) returns (result: seq<byte>)
    requires Spans(combined, addr, size)
    ensures |result| == size
    ensures forall i, a :: 0 <= i < |combined| && combined[i].Has(a) && addr <= a < addr + size ==>
              result[a - addr] == combined[i].At(a)
  {
    hide Flat, Contiguous;
    if combined[0].begin < addr && combined[0].end > addr + size {
      InOne(combined, addr, size);
      var offset := addr - combined[0].begin;
      result := combined[0].data[offset..offset + size];
      return;
    }
    var lead, c, left := LeadingEdge(combined, addr);
    EdgesMeet(combined, c, addr, size);
    var resultAppend, middle, right := TrailingEdge(c, addr + size);
    var joined := JoinData(middle);
    result := lead + joined + resultAppend;
    PutTogether(Flat(combined), left, lead, Flat(c), joined, resultAppend, right);
    MergedIsSlice(combined, addr, size, left, result, right);
  }

  lemma EdgesMeet(c: seq<Interval>, rest: seq<Interval>, addr: int, size: nat)
    requires Spans(c, addr, size) && !(c[0].begin < addr && c[0].end > addr + size)
    requires rest == if c[0].begin < addr then c[1..] else c
    ensures Contiguous(rest) && (rest != [] ==> rest[|rest| - 1] == c[|c| - 1])
    ensures rest == [] ==> c[|c| - 1].end == addr + size
  {
  }

  lemma FlatNothing()
    ensures Flat([]) == []
  {
  }

  lemma Single(c: seq<Interval>, addr: int, size: nat)
    requires Spans(c, addr, size) && c[0].end > addr + size
    ensures |c| == 1
  {
    if |c| > 1 {
      Ordered(c, 1, |c| - 1);
    }
  }

  lemma PutTogether(all: seq<byte>, left: seq<byte>, lead: seq<byte>, rest: seq<byte>, middle: seq<byte>,
                    trail: seq<byte>, right: seq<byte>)
    requires all == left + lead + rest && rest == middle + trail + right
    ensures all == left + (lead + middle + trail) + right
  {
  }

  /** A range strictly inside the first interval. */
  lemma InOne(c: seq<Interval>, addr: int, size: nat)
    requires Spans(c, addr, size) && c[0].begin < addr && c[0].end > addr + size
    ensures |c| == 1 && c[0].Valid()
    ensures forall a :: addr <= a < addr + size ==>
              c[0].data[addr - c[0].begin..addr - c[0].begin + size][a - addr] == c[0].At(a)
  {
    Single(c, addr, size);
  }

  lemma {:induction false} Ordered(c: seq<Interval>, i: nat, j: nat)
    requires Contiguous(c) && i <= j < |c|
    ensures c[i].begin <= c[j].begin
    decreases j - i
  {
    if i < j {
      Ordered(c, i, j - 1);
    }
  }

  lemma MergedIsSlice(c: seq<Interval>, addr: int, size: nat, left: seq<byte>, result: seq<byte>, right: seq<byte>)
    requires Spans(c, addr, size) && Flat(c) == left + result + right
    requires |left| == addr - c[0].begin && |right| == c[|c| - 1].end - (addr + size)
    ensures |result| == size
    ensures forall i, a :: 0 <= i < |c| && c[i].Has(a) && addr <= a < addr + size ==> result[a - addr] == c[i].At(a)
  {
    hide Flat;
    FlatAt(c, 0, c[0].begin);
    forall i, a | 0 <= i < |c| && c[i].Has(a) && addr <= a < addr + size
      ensures result[a - addr] == c[i].At(a)
    {
      FlatAt(c, i, a);
    }
  }

  /** A sorted list of intervals that all reach into a range and together cover it is contiguous. */
  lemma CoverageIsContiguous(c: seq<Interval>, ivs: set<Interval>, addr: int, size: nat)
    requires WellFormed(ivs) && Sorted(c) && size > 0
    requires forall iv :: iv in c <==> iv in ivs
    requires forall iv :: iv in ivs ==> iv.Overlaps(addr, addr + size)
    requires forall a :: addr <= a < addr + size ==> Cached(ivs, a)
    ensures Spans(c, addr, size)
  {
    var end := addr + size;
    assert Cached(ivs, addr) && Cached(ivs, end - 1);
    var x, y := Holder(ivs, addr), Holder(ivs, end - 1);
    assert x in c && y in c;
    var n := |c| - 1;
    SortedBounds(c, ivs);
    assert c[0] in c && c[n] in c;
    forall k | 0 < k <= n ensures c[k - 1].end == c[k].begin {
      NoGap(c, ivs, addr, size, k);
    }
  }

  lemma SortedBounds(c: seq<Interval>, ivs: set<Interval>)
    requires WellFormed(ivs) && Sorted(c) && c != []
    requires forall iv :: iv in c <==> iv in ivs
    ensures forall i :: 0 <= i < |c| ==> c[i].Valid() && c[0].begin <= c[i].begin && c[i].end <= c[|c| - 1].end
  {
    forall i | 0 <= i < |c|
      ensures c[i].Valid() && c[0].begin <= c[i].begin && c[i].end <= c[|c| - 1].end
    {
      assert c[i] in c && c[0] in c && c[|c| - 1] in c;
    }
  }

  lemma NoGap(c: seq<Interval>, ivs: set<Interval>, addr: int, size: nat, k: nat)
    requires WellFormed(ivs) && Sorted(c) && 0 < k < |c|
    requires forall iv :: iv in c <==> iv in ivs
    requires forall iv :: iv in ivs ==> iv.Overlaps(addr, addr + size)
    requires forall a :: addr <= a < addr + size ==> Cached(ivs, a)
    ensures c[k - 1].end == c[k].begin
  {
    var a := c[k - 1].end;
    assert c[k - 1] in c && c[k] in c && c[k - 1].Before(c[k]);
    SortedBounds(c, ivs);
    forall j | 0 <= j < |c| && c[j].Has(a) ensures j == k {
      SortedBounds(c[..k], set iv | iv in c[..k]);
    }
    assert addr < a < addr + size;
    assert Cached(ivs, a);
    assert Holder(ivs, a) in c;
  }
}
