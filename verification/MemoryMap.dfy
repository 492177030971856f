/** Memory regions and the queries the cache and the breakpoint manager make of them. */
module MemoryMap {
  import opened Words

  datatype MemoryType = Other | Ram | Rom | Flash | Device

  /** Both bounds are inclusive. */
  datatype Region = Region(start: int, end: int, kind: MemoryType, cacheable: bool) {
    predicate Valid() { start <= end }

    predicate ContainsAddress(a: int) { start <= a <= end }

    predicate ContainsRange(first: int, last: int) { ContainsAddress(first) && ContainsAddress(last) }

    /** Stated as the source does, by comparing the four bounds. */
    predicate IntersectsRange(first: int, last: int) {
      || (first <= start && last >= start)
      || (first <= end && last >= end)
      || (first >= start && last <= end)
    }
  }

  /** The comparison of bounds means what it should: some address is in both. */
  lemma IntersectsMeansShares(r: Region, first: int, last: int)
    requires r.Valid() && first <= last
    ensures r.IntersectsRange(first, last) <==> exists a :: first <= a <= last && r.ContainsAddress(a)
  {
    if r.IntersectsRange(first, last) {
      var a := Max(first, r.start);
      assert first <= a <= last && r.ContainsAddress(a);
    }
  }

  predicate AllValid(regions: seq<Region>) { forall i :: 0 <= i < |regions| ==> regions[i].Valid() }

  function GetIntersectingRegions(regions: seq<Region>, first: int, last: int): seq<Region> {
    if regions == [] then []
    else (if regions[0].IntersectsRange(first, last) then [regions[0]] else [])
         + GetIntersectingRegions(regions[1..], first, last)
  }

  /** The first region in the list that the address lies in. */
  predicate IsFirstWith(regions: seq<Region>, a: int, i: nat) {
    && i < |regions| && regions[i].ContainsAddress(a)
    && forall j :: 0 <= j < i ==> !regions[j].ContainsAddress(a)
  }

  function GetRegionForAddress(regions: seq<Region>, a: int): (r: Option<Region>)
    ensures r.Some? ==> exists i: nat :: IsFirstWith(regions, a, i) && r.value == regions[i]
    ensures r.None? ==> forall i :: 0 <= i < |regions| ==> !regions[i].ContainsAddress(a)
  {
    if regions == [] then None
    else if regions[0].ContainsAddress(a) then
      assert IsFirstWith(regions, a, 0);
      Some(regions[0])
    else
      var r := GetRegionForAddress(regions[1..], a);
      assert r.Some? ==> forall i: nat :: IsFirstWith(regions[1..], a, i) ==> IsFirstWith(regions, a, i + 1);
      r
  }

  /** The regions an address lies in. */
  function Homes(regions: seq<Region>, a: int): seq<Region> {
    if regions == [] then []
    else (if regions[0].ContainsAddress(a) then [regions[0]] else []) + Homes(regions[1..], a)
  }

  lemma {:induction false} HomesIntersect(regions: seq<Region>, first: int, last: int, a: int)
    requires AllValid(regions) && first <= a <= last
    ensures Homes(regions, a) == Homes(GetIntersectingRegions(regions, first, last), a)
  {
    if regions != [] {
      var rest := GetIntersectingRegions(regions[1..], first, last);
      HomesIntersect(regions[1..], first, last, a);
      if regions[0].IntersectsRange(first, last) {
        assert ([regions[0]] + rest)[1..] == rest;
      } else {
        assert [] + rest == rest;
      }
    }
  }

  datatype Access = Bypass | Cacheable | Crossing

  /** `_check_regions`: an access in no region passes uncached, one within a single region follows that region, and
      any other is refused. */
  function CheckRegions(regions: seq<Region>, addr: int, count: nat): Access
    requires count > 0
  {
    var hit := GetIntersectingRegions(regions, addr, addr + count - 1);
    if |hit| == 0 then Bypass
    else if |hit| > 1 || !hit[0].ContainsRange(addr, addr + count - 1) then Crossing
    else if hit[0].cacheable then Cacheable
    else Bypass
  }

  /** The only bytes that may be cached: those in exactly one region, a cacheable one. */
  predicate CacheableByte(regions: seq<Region>, a: int) {
    var homes := Homes(regions, a);
    |homes| == 1 && homes[0].cacheable
  }

  /** An access is treated as cacheable only if each of its bytes may be cached, and as uncacheable only if none may:
      what bypasses the cache never overlaps what is in it. */
  lemma RegionDiscipline(regions: seq<Region>, addr: int, count: nat, a: int)
    requires AllValid(regions) && count > 0 && addr <= a < addr + count
    ensures CheckRegions(regions, addr, count).Cacheable? ==> CacheableByte(regions, a)
    ensures CheckRegions(regions, addr, count).Bypass? ==> !CacheableByte(regions, a)
  {
    var hit := GetIntersectingRegions(regions, addr, addr + count - 1);
    HomesIntersect(regions, addr, addr + count - 1, a);
    if |hit| == 1 {
      assert Homes(hit[1..], a) == [];
    }
  }

  lemma {:induction false} HomesAreHit(regions: seq<Region>, a: int)
    requires AllValid(regions)
    ensures GetIntersectingRegions(regions, a, a) == Homes(regions, a)
    ensures forall i :: 0 <= i < |Homes(regions, a)| ==> Homes(regions, a)[i].ContainsAddress(a)
  {
    if regions != [] {
      HomesAreHit(regions[1..], a);
    }
  }

  /** A single byte that may be cached is. */
  lemma CacheableByteIsCached(regions: seq<Region>, a: int)
    requires AllValid(regions)
    ensures CheckRegions(regions, a, 1).Cacheable? <==> CacheableByte(regions, a)
  {
    HomesAreHit(regions, a);
  }

  // ---- in addresses ----

  /** Both bounds belong to the region. */
  predicate Inside(r: Region, a: int) { r.start <= a && a <= r.end }

  /** Some address is in both. */
  ghost predicate Shares(r: Region, addr: int, size: nat) {
    exists a :: addr <= a < addr + size && Inside(r, a)
  }

  /** The range shares addresses with this region alone, and lies in it. */
  ghost predicate OnlyIn(regions: seq<Region>, addr: int, size: nat, i: nat) {
    && i < |regions|
    && (forall a :: addr <= a < addr + size ==> Inside(regions[i], a))
    && (forall j :: 0 <= j < |regions| && j != i ==> !Shares(regions[j], addr, size))
  }

  ghost predicate InNone(regions: seq<Region>, addr: int, size: nat) {
    forall j :: 0 <= j < |regions| ==> !Shares(regions[j], addr, size)
  }

  /** Neither outside all regions nor wholly inside the only one touched. */
  ghost predicate Crosses(regions: seq<Region>, addr: int, size: nat) {
    !InNone(regions, addr, size) && forall i: nat :: !OnlyIn(regions, addr, size, i)
  }

  /** Which accesses are refused, which are cached, and which pass uncached. */
  lemma AccessIs(regions: seq<Region>, addr: int, size: nat)
    requires AllValid(regions) && size > 0
    ensures CheckRegions(regions, addr, size).Crossing? <==> Crosses(regions, addr, size)
    ensures CheckRegions(regions, addr, size).Cacheable? <==>
              exists i: nat :: OnlyIn(regions, addr, size, i) && regions[i].cacheable
    ensures CheckRegions(regions, addr, size).Bypass? <==>
              InNone(regions, addr, size) || exists i: nat :: OnlyIn(regions, addr, size, i) && !regions[i].cacheable
  {
    var first, last := addr, addr + size - 1;
    var hit := GetIntersectingRegions(regions, first, last);
    forall j | 0 <= j < |regions|
      ensures regions[j].IntersectsRange(first, last) <==> Shares(regions[j], addr, size)
    {
      SharesByBounds(regions[j], addr, size);
    }
    var i, k := WhoIsHit(regions, first, last);
    hide GetIntersectingRegions;
    if |hit| > 1 {
      forall m: nat ensures !OnlyIn(regions, addr, size, m) {
        assert m != i || m != k;
      }
    } else if |hit| == 1 {
      OnlyByBounds(regions, addr, size, i);
      forall m: nat | m != i ensures !OnlyIn(regions, addr, size, m) {
        assert Shares(regions[i], addr, size);
      }
    } else {
      forall m: nat ensures !OnlyIn(regions, addr, size, m) {
        if OnlyIn(regions, addr, size, m) {
          OnlyShares(regions, addr, size, m);
        }
      }
    }
  }

  lemma SharesByBounds(r: Region, addr: int, size: nat)
    requires r.Valid() && size > 0
    ensures r.IntersectsRange(addr, addr + size - 1) <==> Shares(r, addr, size)
  {
    IntersectsMeansShares(r, addr, addr + size - 1);
    if a :| addr <= a <= addr + size - 1 && r.ContainsAddress(a) {
      assert Inside(r, a);
    }
    if a :| addr <= a < addr + size && Inside(r, a) {
      assert r.ContainsAddress(a);
    }
  }

  lemma OnlyShares(regions: seq<Region>, addr: int, size: nat, i: nat)
    requires OnlyIn(regions, addr, size, i) && size > 0
    ensures Shares(regions[i], addr, size)
  {
    assert Inside(regions[i], addr);
  }

  lemma OnlyOneWay(regions: seq<Region>, addr: int, size: nat)
    requires size > 0
    ensures forall i: nat, k: nat :: OnlyIn(regions, addr, size, i) && OnlyIn(regions, addr, size, k) ==> i == k
    ensures forall i: nat :: OnlyIn(regions, addr, size, i) ==> i < |regions| && !InNone(regions, addr, size)
  {
    forall i: nat, k: nat | OnlyIn(regions, addr, size, i) && OnlyIn(regions, addr, size, k) ensures i == k {
      OnlyShares(regions, addr, size, i);
    }
    forall i: nat | OnlyIn(regions, addr, size, i) ensures i < |regions| && !InNone(regions, addr, size) {
      OnlyShares(regions, addr, size, i);
    }
  }

  lemma OnlyByBounds(regions: seq<Region>, addr: int, size: nat, i: nat)
    requires i < |regions| && size > 0
    requires forall j :: 0 <= j < |regions| && j != i ==> !Shares(regions[j], addr, size)
    ensures OnlyIn(regions, addr, size, i) <==> regions[i].ContainsRange(addr, addr + size - 1)
  {
    if OnlyIn(regions, addr, size, i) {
      assert Inside(regions[i], addr) && Inside(regions[i], addr + size - 1);
    }
  }

  /** One region that is hit, and another if there is one. */
  lemma {:induction false} WhoIsHit(regions: seq<Region>, first: int, last: int) returns (i: nat, k: nat)
    ensures var hit := GetIntersectingRegions(regions, first, last);
            && (hit == [] ==> forall j :: 0 <= j < |regions| ==> !regions[j].IntersectsRange(first, last))
            && (hit != [] ==> i < |regions| && regions[i].IntersectsRange(first, last))
            && (|hit| == 1 ==>
                  && hit[0] == regions[i]
                  && forall j :: 0 <= j < |regions| && j != i ==> !regions[j].IntersectsRange(first, last))
            && (|hit| > 1 ==> i != k && k < |regions| && regions[k].IntersectsRange(first, last))
  {
    i, k := 0, 0;
    if regions != [] {
      var rest := GetIntersectingRegions(regions[1..], first, last);
      var m, n := WhoIsHit(regions[1..], first, last);
      if regions[0].IntersectsRange(first, last) {
        i, k := 0, m + 1;
        assert GetIntersectingRegions(regions, first, last) == [regions[0]] + rest;
      } else {
        i, k := m + 1, n + 1;
        assert GetIntersectingRegions(regions, first, last) == [] + rest;
      }
      forall j | 0 < j < |regions| ensures regions[j] == regions[1..][j - 1] {}
    }
  }

  /** The bytes that may be cached. */
  lemma CacheableBytes(regions: seq<Region>, a: int)
    requires AllValid(regions)
    ensures CacheableByte(regions, a) <==> exists i: nat :: OnlyIn(regions, a, 1, i) && regions[i].cacheable
  {
    hide CheckRegions, CacheableByte, OnlyIn;
    CacheableByteIsCached(regions, a);
    AccessIs(regions, a, 1);
  }
}
