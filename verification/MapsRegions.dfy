/**
  The memory map of a process, and whether a range of it belongs to the system:
  such a range is not worth dumping.
 */
module MapsRegions {
  import opened Bytes

  datatype Region = Region(start: u64, end: u64, path: string) {
    predicate Has(x: int) {
      start <= x < end
    }

    predicate Meets(lo: int, hi: int) {
      start < hi && lo < end
    }
  }

  /** As the kernel lists them and `refresh` keeps them: in order, disjoint, none
      empty. */
  predicate Laid(regions: seq<Region>) {
    && (forall i :: 0 <= i < |regions| ==> regions[i].start < regions[i].end)
    && (forall i, j :: 0 <= i < j < |regions| ==> regions[i].end <= regions[j].start)
  }

  ghost predicate Mapped(regions: seq<Region>, x: int) {
    exists i :: 0 <= i < |regions| && regions[i].Has(x)
  }

  ghost predicate MappedBySystem(regions: seq<Region>, isSystem: string -> bool, x: int) {
    exists i :: 0 <= i < |regions| && regions[i].Has(x) && isSystem(regions[i].path)
  }

  // ----- the walk -----

  /** Follow the regions upwards from `cursor` without a gap. */
  function Walk(regions: seq<Region>, isSystem: string -> bool, cursor: nat, end: nat): bool {
    if regions == [] then false
    else
      var r := regions[0];
      if r.end <= cursor then Walk(regions[1..], isSystem, cursor, end)
      else if r.start > cursor || cursor >= end || !isSystem(r.path) then false
      else r.end >= end || Walk(regions[1..], isSystem, r.end, end)
  }

  function ExclusivelySystem(regions: seq<Region>, isSystem: string -> bool, start: u64, size: u32): bool {
    start + size <= U64_MAX && Walk(regions, isSystem, start, start + size)
  }

  /** `range_is_exclusively_system`. */
  method RangeIsExclusivelySystem(regions: seq<Region>, isSystem: string -> bool, start: u64, size: u32) returns (only: bool)
    ensures only == ExclusivelySystem(regions, isSystem, start, size)
  {
    if start + size > U64_MAX {
      return false;
    }
    var end := start + size;
    var cursor := start;
    for i := 0 to |regions|
      invariant start <= cursor <= end
      invariant Walk(regions, isSystem, start, end) == Walk(regions[i..], isSystem, cursor, end)
    {
      var region := regions[i];
      assert regions[i..][1..] == regions[i + 1..];
      if region.end > cursor {
        if region.start > cursor || cursor >= end {
          return false;
        }
        if !isSystem(region.path) {
          return false;
        }
        cursor := Min(region.end, end);
        if cursor == end {
          return true;
        }
      }
    }
    return false;
  }

  /** Whatever the regions, a range is only skipped when every byte of it is the
      system's. */
  lemma {:induction false} WalkIsSound(regions: seq<Region>, isSystem: string -> bool, cursor: nat, end: nat)
    requires Walk(regions, isSystem, cursor, end)
    ensures cursor < end
    ensures forall x :: cursor <= x < end ==> MappedBySystem(regions, isSystem, x)
    decreases |regions|
  {
    var r := regions[0];
    var tail := regions[1..];
    if r.end <= cursor {
      WalkIsSound(tail, isSystem, cursor, end);
    } else if r.end < end {
      WalkIsSound(tail, isSystem, r.end, end);
    }
    forall x | cursor <= x < end ensures MappedBySystem(regions, isSystem, x) {
      if r.end <= cursor || r.end <= x {
        assert MappedBySystem(tail, isSystem, x);
        var i :| 0 <= i < |tail| && tail[i].Has(x) && isSystem(tail[i].path);
        assert regions[i + 1] == tail[i];
      } else {
        assert regions[0].Has(x);
      }
    }
  }

  lemma MappedTail(regions: seq<Region>, x: int)
    requires regions != []
    ensures Mapped(regions, x) <==> regions[0].Has(x) || Mapped(regions[1..], x)
  {
    if Mapped(regions[1..], x) {
      var i :| 0 <= i < |regions[1..]| && regions[1..][i].Has(x);
      assert regions[i + 1].Has(x);
    }
    if Mapped(regions, x) {
      var i :| 0 <= i < |regions| && regions[i].Has(x);
      if i > 0 {
        assert regions[1..][i - 1].Has(x);
      }
    }
  }

  /** The range `[lo, hi)` is mapped throughout, and only the system's. */
  ghost predicate OnlySystem(regions: seq<Region>, isSystem: string -> bool, lo: int, hi: int) {
    && (forall x :: lo <= x < hi ==> Mapped(regions, x))
    && (forall r :: r in regions && r.Meets(lo, hi) ==> isSystem(r.path))
  }

  /** Without the first region, for a range that starts past it. */
  lemma OnlySystemPast(regions: seq<Region>, isSystem: string -> bool, lo: int, hi: int)
    requires regions != [] && regions[0].end <= lo
    ensures OnlySystem(regions, isSystem, lo, hi) <==> OnlySystem(regions[1..], isSystem, lo, hi)
  {
    hide Mapped;
    assert forall s :: s in regions <==> s == regions[0] || s in regions[1..];
    forall x ensures Mapped(regions, x) <==> regions[0].Has(x) || Mapped(regions[1..], x) {
      MappedTail(regions, x);
    }
  }

  /** From a byte in the first region on. */
  lemma OnlySystemFrom(regions: seq<Region>, isSystem: string -> bool, lo: int, hi: int)
    requires regions != [] && Laid(regions) && regions[0].Has(lo) && lo < hi
    ensures OnlySystem(regions, isSystem, lo, hi) <==>
              isSystem(regions[0].path) && (hi <= regions[0].end || OnlySystem(regions[1..], isSystem, regions[0].end, hi))
  {
    hide Mapped;
    var r := regions[0];
    assert forall s :: s in regions <==> s == r || s in regions[1..];
    assert forall s :: s in regions[1..] ==> r.end <= s.start;
    forall x ensures Mapped(regions, x) <==> r.Has(x) || Mapped(regions[1..], x) {
      MappedTail(regions, x);
    }
  }

  /** Over a process's map: exactly the non-empty ranges that are mapped
      throughout and meet no region but the system's. */
  lemma {:induction false} WalkIsExact(regions: seq<Region>, isSystem: string -> bool, cursor: nat, end: nat)
    requires Laid(regions)
    ensures Walk(regions, isSystem, cursor, end) <==> cursor < end && OnlySystem(regions, isSystem, cursor, end)
    decreases |regions|
  {
    hide OnlySystem;
    if regions == [] {
      NothingMapped(isSystem, cursor, end);
    } else {
      var r := regions[0];
      if r.end <= cursor {
        OnlySystemPast(regions, isSystem, cursor, end);
        WalkIsExact(regions[1..], isSystem, cursor, end);
      } else if r.start <= cursor < end {
        OnlySystemFrom(regions, isSystem, cursor, end);
        WalkIsExact(regions[1..], isSystem, r.end, end);
      } else if cursor < end {
        GapBelow(regions, isSystem, cursor, end);
      }
    }
  }

  lemma NothingMapped(isSystem: string -> bool, lo: int, hi: int)
    ensures lo < hi ==> !OnlySystem([], isSystem, lo, hi)
  {
    assert !Mapped([], lo);
  }

  lemma GapBelow(regions: seq<Region>, isSystem: string -> bool, lo: int, hi: int)
    requires regions != [] && Laid(regions) && lo < regions[0].start && lo < hi
    ensures !OnlySystem(regions, isSystem, lo, hi)
  {
    assert !Mapped(regions, lo);
  }

  lemma ExclusivelySystemIs(regions: seq<Region>, isSystem: string -> bool, start: u64, size: u32)
    requires Laid(regions)
    ensures ExclusivelySystem(regions, isSystem, start, size) <==>
              start + size <= U64_MAX && size != 0 && OnlySystem(regions, isSystem, start, start + size)
  {
    hide Walk, Laid, OnlySystem;
    if start + size <= U64_MAX {
      WalkIsExact(regions, isSystem, start, start + size);
    }
  }

  // ----- what a skipped range is attributed to -----

  /** How many regions start at or below `addr`, counting from the first. */
  function StartingBelow(regions: seq<Region>, addr: nat): (n: nat)
    ensures n <= |regions|
  {
    if regions == [] || regions[0].start > addr then 0 else 1 + StartingBelow(regions[1..], addr)
  }

  function Lookup(regions: seq<Region>, addr: nat): Option<string> {
    var n := StartingBelow(regions, addr);
    if n == 0 || addr >= regions[n - 1].end then None else Some(regions[n - 1].path)
  }

  lemma {:induction false} StartingBelowIs(regions: seq<Region>, addr: nat)
    requires Laid(regions)
    ensures forall i :: 0 <= i < |regions| ==> (regions[i].start <= addr <==> i < StartingBelow(regions, addr))
    decreases |regions|
  {
    if regions != [] {
      var tail := regions[1..];
      assert Laid(tail);
      StartingBelowIs(tail, addr);
      assert forall i :: 0 < i < |regions| ==> regions[i] == tail[i - 1];
    }
  }

  /** `should_skip_system`: the path of the region a skipped range starts in. */
  function ShouldSkip(regions: seq<Region>, isSystem: string -> bool, start: u64, size: u32): Option<string> {
    if ExclusivelySystem(regions, isSystem, start, size) then Lookup(regions, start) else None
  }

  /** A range is skipped exactly when it is mapped throughout and only the
      system's, and then under the path of a system region it starts in. */
  lemma SkipIs(regions: seq<Region>, isSystem: string -> bool, start: u64, size: u32)
    requires Laid(regions)
    ensures ShouldSkip(regions, isSystem, start, size).Some? <==>
              start + size <= U64_MAX && size != 0 && OnlySystem(regions, isSystem, start, start + size)
    ensures ShouldSkip(regions, isSystem, start, size).Some? ==>
              exists r :: r in regions && r.Has(start) && isSystem(r.path) && ShouldSkip(regions, isSystem, start, size).value == r.path
  {
    hide Walk, OnlySystem;
    ExclusivelySystemIs(regions, isSystem, start, size);
    if ExclusivelySystem(regions, isSystem, start, size) {
      WalkIsSound(regions, isSystem, start, start + size);
      assert MappedBySystem(regions, isSystem, start);
      var i :| 0 <= i < |regions| && regions[i].Has(start) && isSystem(regions[i].path);
      StartingBelowIs(regions, start);
      var n := StartingBelow(regions, start);
      assert i < n && regions[n - 1].start <= start < regions[i].end;
      assert i == n - 1;
      assert regions[i] in regions;
    }
  }
}
