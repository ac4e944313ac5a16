/**
 The layout planner (`validate_list`): every component's file size is
 rounded up to whole 4K blocks and the components are packed back to back
 from sector 1 on, sector 0 being reserved for the content-list header.
 */
module Layout {
  import opened BootBlob

  /** The padded length of a file: `(len + 4095) & ~4095`, which for a
      non-negative length is the next multiple of 4096. */
  function Pad4k(len: nat): (padded: nat)
    ensures padded % BLOCK_SIZE == 0
    ensures len <= padded < len + BLOCK_SIZE
  {
    var q := (len + 4095) / 4096;
    assert q * 4096 <= len + 4095 < q * 4096 + 4096;
    q * 4096
  }

  /** The padded length is the least multiple of 4096 that holds the file. */
  lemma Pad4kLeast(len: nat, m: nat)
    requires m % BLOCK_SIZE == 0 && len <= m
    ensures Pad4k(len) <= m
  {
  }

  /** Padding an already padded length changes nothing. */
  lemma Pad4kIdempotent(len: nat)
    ensures Pad4k(Pad4k(len)) == Pad4k(len)
  {
  }

  /** The number of 512-byte sectors of a padded image: `image_len / 512`. */
  function SectorCount(imageLen: nat): (lbaLen: nat)
  {
    imageLen / SECTOR_SIZE
  }

  /** A 4K-padded length is covered by its sector count exactly, and that
      count is a multiple of 8. */
  lemma SectorCountExact(imageLen: nat)
    requires imageLen % BLOCK_SIZE == 0
    ensures SectorCount(imageLen) * SECTOR_SIZE == imageLen
    ensures SectorCount(imageLen) % 8 == 0
  {
  }

  /** What the planner learns about one entry: the padded image length, or
      the reason the whole plan is abandoned. The checks run in the order
      of the loop body: the type-name table bound, then `stat`, then the
      assertion that the padded size survives the store into a `uint32_t`. */
  function Measure(e: Entry, fs: FileSystem): Result<nat>
  {
    if !(0 <= e.kind < 9) then Failure(TypeOutOfTable(e.path))
    else if e.path !in fs then Failure(CannotStat(e.path))
    else
      var padded := Pad4k(|fs[e.path]|);
      if padded >= WORD_LIMIT then Failure(ImageTooLarge(e.path))
      else Success(padded)
  }

  /** The largest file the 32-bit size assertion lets through: the last
      4K multiple below 2^32. */
  const MAX_FILE_SIZE: nat := WORD_LIMIT - BLOCK_SIZE

  /** Which entries the planner accepts, stated on the file itself: a type
      inside the name table and a file of at most 2^32 - 4096 bytes. An
      accepted entry gets the least 4K multiple that holds its file. A
      rejected one reports the first check it fails, in the order type,
      `stat`, size. */
  lemma MeasureOutcome(e: Entry, fs: FileSystem)
    ensures Measure(e, fs).Success? <==> 0 <= e.kind < 9 && e.path in fs && |fs[e.path]| <= MAX_FILE_SIZE
    ensures Measure(e, fs).Success? ==>
              && Measure(e, fs).value % BLOCK_SIZE == 0
              && |fs[e.path]| <= Measure(e, fs).value < |fs[e.path]| + BLOCK_SIZE
              && Measure(e, fs).value < WORD_LIMIT
    ensures !(0 <= e.kind < 9) ==> Measure(e, fs) == Failure(TypeOutOfTable(e.path))
    ensures 0 <= e.kind < 9 && e.path !in fs ==> Measure(e, fs) == Failure(CannotStat(e.path))
    ensures 0 <= e.kind < 9 && e.path in fs && |fs[e.path]| > MAX_FILE_SIZE ==>
              Measure(e, fs) == Failure(ImageTooLarge(e.path))
  {
    if 0 <= e.kind < 9 && e.path in fs {
      var len := |fs[e.path]|;
      if len <= MAX_FILE_SIZE {
        Pad4kLeast(len, MAX_FILE_SIZE);
      }
    }
  }

  /** Total number of sectors taken by a sequence of placed components. */
  function SumLba(layout: seq<Placed>): (total: nat)
  {
    if |layout| == 0 then 0 else SumLba(layout[..|layout| - 1]) + layout[|layout| - 1].lbaLen
  }

  lemma {:induction false} SumLbaCons(p: Placed, rest: seq<Placed>)
    ensures SumLba([p] + rest) == p.lbaLen + SumLba(rest)
    decreases |rest|
  {
    if |rest| > 0 {
      var last := |rest| - 1;
      assert ([p] + rest)[..|rest|] == [p] + rest[..last];
      SumLbaCons(p, rest[..last]);
    } else {
      assert [p] + rest == [p];
    }
  }

  lemma SumLbaSnoc(layout: seq<Placed>, p: Placed)
    ensures SumLba(layout + [p]) == SumLba(layout) + p.lbaLen
  {
  }

  /** The sector sum depends only on the sector counts. */
  lemma {:induction false} SumLbaSameLengths(a: seq<Placed>, b: seq<Placed>)
    requires |a| == |b|
    requires forall i :: 0 <= i < |a| ==> a[i].lbaLen == b[i].lbaLen
    ensures SumLba(a) == SumLba(b)
    decreases |a|
  {
    if |a| > 0 {
      SumLbaSameLengths(a[..|a| - 1], b[..|b| - 1]);
    }
  }

  /** The index of the entry that stops the planner: the first one that
      fails its checks. */
  ghost predicate FirstBad(entries: seq<Entry>, fs: FileSystem, i: int)
  {
    && 0 <= i < |entries|
    && Measure(entries[i], fs).Failure?
    && forall j :: 0 <= j < i ==> Measure(entries[j], fs).Success?
  }

  lemma FirstBadUnique(entries: seq<Entry>, fs: FileSystem, i: int, j: int)
    requires FirstBad(entries, fs, i) && FirstBad(entries, fs, j)
    ensures i == j
  {
  }

  /** The layout the planner promises for `entries`: one placed component
      per entry, in list order, each sized by its padded file length and
      starting right after everything placed before it. */
  ghost predicate Planned(entries: seq<Entry>, fs: FileSystem, layout: seq<Placed>)
  {
    && |layout| == |entries|
    && forall i :: 0 <= i < |layout| ==>
         && layout[i].entry == entries[i]
         && Measure(entries[i], fs) == Success(layout[i].imageLen)
         && layout[i].lbaLen == layout[i].imageLen / SECTOR_SIZE
         && layout[i].lbaPos == 1 + SumLba(layout[..i])
  }

  /** The loop of `validate_list` from a given cursor on: place the first
      entry at `cursor`, advance the cursor by its sector count, continue
      with the rest. The first failing entry ends the plan. */
  function PlanFrom(entries: seq<Entry>, fs: FileSystem, cursor: nat): (r: Result<seq<Placed>>)
    ensures r.Success? <==> forall i :: 0 <= i < |entries| ==> Measure(entries[i], fs).Success?
    ensures r.Failure? ==> exists i :: FirstBad(entries, fs, i) && r.error == Measure(entries[i], fs).error
    ensures r.Success? ==> |r.value| == |entries|
    ensures r.Success? ==> forall i :: 0 <= i < |entries| ==>
              && r.value[i].entry == entries[i]
              && Measure(entries[i], fs) == Success(r.value[i].imageLen)
              && r.value[i].lbaLen == r.value[i].imageLen / SECTOR_SIZE
              && r.value[i].lbaPos == cursor + SumLba(r.value[..i])
    decreases |entries|
  {
    if |entries| == 0 then Success([])
    else
      match Measure(entries[0], fs)
      case Failure(e) =>
        assert FirstBad(entries, fs, 0);
        Failure(e)
      case Success(len) =>
        var p := Placed(entries[0], len, cursor, SectorCount(len));
        match PlanFrom(entries[1..], fs, cursor + p.lbaLen)
        case Failure(e) =>
          FirstBadShift(entries, fs, e);
          Failure(e)
        case Success(rest) =>
          PlanPositions(p, rest, cursor);
          Success([p] + rest)
  }

  /** Helper for `PlanFrom`: a first failure in the tail, after a head
      that passed, is the first failure of the whole list. */
  lemma FirstBadShift(entries: seq<Entry>, fs: FileSystem, e: Error)
    requires |entries| > 0 && Measure(entries[0], fs).Success?
    requires exists k :: FirstBad(entries[1..], fs, k) && e == Measure(entries[1..][k], fs).error
    ensures exists i :: FirstBad(entries, fs, i) && e == Measure(entries[i], fs).error
  {
  }

  /** Helper for `PlanFrom`: prefixing one component shifts every later
      prefix sum by its sector count. */
  lemma PlanPositions(p: Placed, rest: seq<Placed>, cursor: nat)
    requires p.lbaPos == cursor
    requires forall j :: 0 <= j < |rest| ==> rest[j].lbaPos == cursor + p.lbaLen + SumLba(rest[..j])
    ensures forall i :: 0 <= i < |[p] + rest| ==> ([p] + rest)[i].lbaPos == cursor + SumLba(([p] + rest)[..i])
  {
    var layout := [p] + rest;
    forall i | 0 <= i < |layout|
      ensures layout[i].lbaPos == cursor + SumLba(layout[..i])
    {
      if i > 0 {
        assert layout[..i] == [p] + rest[..i - 1];
        SumLbaCons(p, rest[..i - 1]);
      }
    }
  }

  /** Helper for `PlanLoop`: appending the next entry, placed at the
      current cursor, extends a planned prefix. */
  lemma PlannedSnoc(entries: seq<Entry>, fs: FileSystem, layout: seq<Placed>, e: Entry, len: nat)
    requires Planned(entries, fs, layout)
    requires Measure(e, fs) == Success(len)
    ensures Planned(entries + [e], fs, layout + [Placed(e, len, 1 + SumLba(layout), SectorCount(len))])
  {
    var p := Placed(e, len, 1 + SumLba(layout), SectorCount(len));
    var l2 := layout + [p];
    assert l2[..|layout|] == layout;
    forall i | 0 <= i < |layout|
      ensures l2[..i] == layout[..i]
    {
    }
  }

  /** `validate_list`: refuse an empty list, otherwise plan from sector 1. */
  function Plan(entries: seq<Entry>, fs: FileSystem): (r: Result<seq<Placed>>)
    ensures |entries| == 0 ==> r == Failure(NoElements)
    ensures r.Success? <==> |entries| > 0 && forall i :: 0 <= i < |entries| ==> Measure(entries[i], fs).Success?
    ensures r.Success? ==> Planned(entries, fs, r.value)
    ensures r.Failure? && |entries| > 0 ==>
              exists i :: FirstBad(entries, fs, i) && r.error == Measure(entries[i], fs).error
  {
    if |entries| == 0 then Failure(NoElements) else PlanFrom(entries, fs, 1)
  }

  /** Two layouts that both meet the plan for the same entries and files
      are the same layout: planning is deterministic. */
  lemma PlannedUnique(entries: seq<Entry>, fs: FileSystem, a: seq<Placed>, b: seq<Placed>)
    requires Planned(entries, fs, a) && Planned(entries, fs, b)
    ensures a == b
  {
    forall i | 0 <= i < |a|
      ensures a[i] == b[i]
    {
      SumLbaSameLengths(a[..i], b[..i]);
    }
  }

  /** The invariants of a planned layout: 4K-multiple image lengths that
      pad the file size, exact sector counts that are multiples of 8, the
      first component at sector 1 and each later one right after its
      predecessor. */
  lemma PlannedShape(entries: seq<Entry>, fs: FileSystem, layout: seq<Placed>)
    requires Planned(entries, fs, layout)
    ensures forall i :: 0 <= i < |layout| ==>
              && entries[i].path in fs
              && layout[i].imageLen == Pad4k(|fs[entries[i].path]|)
              && layout[i].imageLen % BLOCK_SIZE == 0
              && |fs[entries[i].path]| <= layout[i].imageLen < |fs[entries[i].path]| + BLOCK_SIZE
              && layout[i].imageLen < WORD_LIMIT
              && layout[i].lbaLen * SECTOR_SIZE == layout[i].imageLen
              && layout[i].lbaLen % 8 == 0
    ensures |layout| > 0 ==> layout[0].lbaPos == 1
    ensures forall i :: 0 <= i < |layout| - 1 ==> layout[i + 1].lbaPos == layout[i].lbaPos + layout[i].lbaLen
  {
    forall i | 0 <= i < |layout|
      ensures layout[i].lbaLen * SECTOR_SIZE == layout[i].imageLen && layout[i].lbaLen % 8 == 0
    {
      SectorCountExact(layout[i].imageLen);
    }
    forall i | 0 <= i < |layout| - 1
      ensures layout[i + 1].lbaPos == layout[i].lbaPos + layout[i].lbaLen
    {
      assert layout[..i + 1] == layout[..i] + [layout[i]];
      SumLbaSnoc(layout[..i], layout[i]);
    }
  }

  /** The most sectors one component can take: a padded length below 2^32
      is at most 2^32 - 4096 bytes, which is 2^23 - 8 sectors. */
  const MAX_LBA_LEN: nat := 0x7F_FFF8

  /** A sum of sector counts each at most `bound` is at most `bound` times
      the number of components. */
  lemma {:induction false} SumLbaBound(layout: seq<Placed>, bound: nat)
    requires forall i :: 0 <= i < |layout| ==> layout[i].lbaLen <= bound
    ensures SumLba(layout) <= |layout| * bound
    decreases |layout|
  {
    if |layout| > 0 {
      var front := layout[..|layout| - 1];
      assert forall i :: 0 <= i < |front| ==> front[i] == layout[i];
      SumLbaBound(front, bound);
    }
  }

  /** No planned component takes more than `MAX_LBA_LEN` sectors. */
  lemma PlannedLbaLenBound(entries: seq<Entry>, fs: FileSystem, layout: seq<Placed>)
    requires Planned(entries, fs, layout)
    ensures forall i :: 0 <= i < |layout| ==> layout[i].lbaLen <= MAX_LBA_LEN
  {
    forall i | 0 <= i < |layout|
      ensures layout[i].lbaLen <= MAX_LBA_LEN
    {
      assert Measure(entries[i], fs).Success?;
    }
  }

  /** Every position of a planned layout of at most 32 components (all the
      header holds) fits the 32-bit `lba_pos` field: no component's sector
      number wraps in a run that writes a header. */
  lemma PlannedPositionsFit(entries: seq<Entry>, fs: FileSystem, layout: seq<Placed>)
    requires Planned(entries, fs, layout) && |layout| <= 32
    ensures forall i :: 0 <= i < |layout| ==> layout[i].lbaPos < WORD_LIMIT
  {
    PlannedLbaLenBound(entries, fs, layout);
    forall i | 0 <= i < |layout|
      ensures layout[i].lbaPos < WORD_LIMIT
    {
      var front := layout[..i];
      assert forall j :: 0 <= j < |front| ==> front[j] == layout[j];
      SumLbaBound(front, MAX_LBA_LEN);
    }
  }

  /** The cursor after the last of at most 32 planned components also
      fits in 32 bits. */
  lemma PlannedCursorFits(entries: seq<Entry>, fs: FileSystem, layout: seq<Placed>)
    requires Planned(entries, fs, layout) && |layout| <= 32
    ensures 1 + SumLba(layout) < WORD_LIMIT
  {
    PlannedLbaLenBound(entries, fs, layout);
    SumLbaBound(layout, MAX_LBA_LEN);
  }

  /** The planner as the C loop runs it: a cursor starting at sector 1, an
      early return on the first failure. It computes exactly `Plan`, and
      on success the cursor ends at 1 plus the total sector count. */
  method PlanLoop(entries: seq<Entry>, fs: FileSystem) returns (r: Result<seq<Placed>>, cursor: nat)
    ensures r == Plan(entries, fs)
    ensures r.Success? ==> cursor == 1 + SumLba(r.value)
  {
    cursor := 1;
    if |entries| == 0 {
      return Failure(NoElements), cursor;
    }
    var layout: seq<Placed> := [];
    var i := 0;
    while i < |entries|
      invariant 0 <= i <= |entries|
      invariant Planned(entries[..i], fs, layout)
      invariant cursor == 1 + SumLba(layout)
    {
      var m := Measure(entries[i], fs);
      if m.Failure? {
        assert FirstBad(entries, fs, i);
        ghost var k :| FirstBad(entries, fs, k) && Plan(entries, fs).error == Measure(entries[k], fs).error;
        FirstBadUnique(entries, fs, i, k);
        return Failure(m.error), cursor;
      }
      var p := Placed(entries[i], m.value, cursor, SectorCount(m.value));
      PlannedSnoc(entries[..i], fs, layout, entries[i], m.value);
      SumLbaSnoc(layout, p);
      assert entries[..i + 1] == entries[..i] + [entries[i]];
      layout := layout + [p];
      cursor := cursor + p.lbaLen;
      i := i + 1;
    }
    assert entries[..i] == entries;
    PlannedUnique(entries, fs, layout, Plan(entries, fs).value);
    r := Success(layout);
  }
}
