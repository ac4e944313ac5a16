/**
 The run of mkbootblob after option parsing: plan the layout, build the
 header, then write the header sector and every component. Each stage
 runs only when the one before it succeeded; every failure is fatal.
 The image a successful run writes is `Image`, and the lemmas below
 state what a bootloader can rely on when it reads it back.
 */
module MkBootBlob {
  import opened BootBlob
  import opened Layout
  import opened Header
  import opened Writer

  /** The whole output: the header sector, then every component's region. */
  function Image(layout: seq<Placed>, fs: FileSystem): (img: seq<byte>)
    requires |layout| <= MAX_RECORDS && Openable(layout, fs)
    ensures |img| == SECTOR_SIZE * (1 + SumLba(layout))
    ensures SECTOR_SIZE <= |img|
  {
    HeaderBytes(layout) + Payloads(layout, fs)
  }

  /** Every file of a planned layout was stat'ed, so it also opens. */
  lemma PlannedOpenable(entries: seq<Entry>, fs: FileSystem, layout: seq<Placed>)
    requires Planned(entries, fs, layout)
    ensures Openable(layout, fs)
  {
  }

  /** `main` from the planner on. Planning failures come first, then the
      header capacity; nothing is written unless both pass, and then the
      full image is written. The output ends exactly at the planner's
      final cursor, in sectors. */
  method Run(entries: seq<Entry>, fs: FileSystem) returns (written: seq<byte>, err: Option<Error>)
    ensures err.None? <==> Plan(entries, fs).Success? && |entries| <= MAX_RECORDS
    ensures Plan(entries, fs).Failure? ==> written == [] && err == Some(Plan(entries, fs).error)
    ensures Plan(entries, fs).Success? && |entries| > MAX_RECORDS ==> written == [] && err == Some(HeaderFull)
    ensures err.None? ==>
              && Openable(Plan(entries, fs).value, fs)
              && written == Image(Plan(entries, fs).value, fs)
              && |written| == SECTOR_SIZE * (1 + SumLba(Plan(entries, fs).value))
  {
    var plan, cursor := PlanLoop(entries, fs);
    if plan.Failure? {
      return [], Some(plan.error);
    }
    var layout := plan.value;
    var header := BuildHeader(layout);
    if header.Failure? {
      return [], Some(header.error);
    }
    PlannedOpenable(entries, fs, layout);
    written, err := WriteBlob(ToBytes(header.value), layout, fs);
  }

  /** The header sector of the image reads back, record by record, as the
      planned components: padded length, position, load address and type
      word, in list order; the words after the last record are zero. The
      position comes back exactly: it is stored modulo 2^32, but every
      position of a layout the header holds is below 2^32. */
  lemma ImageHeader(entries: seq<Entry>, fs: FileSystem, layout: seq<Placed>)
    requires Planned(entries, fs, layout) && |layout| <= MAX_RECORDS
    ensures Openable(layout, fs)
    ensures var words := ReadHeader(Image(layout, fs));
            && |words| == HEADER_WORDS
            && (forall i :: 0 <= i < |layout| ==>
                  && DecodeRecord(words, i).imageLen == layout[i].imageLen
                  && DecodeRecord(words, i).lbaPos == layout[i].lbaPos
                  && DecodeRecord(words, i).destAddr == entries[i].destAddr
                  && DecodeRecord(words, i).typeWord == TypeWord(entries[i].kind, entries[i].arcIndex))
            && forall k :: RECORD_WORDS * |layout| <= k < HEADER_WORDS ==> words[k] == 0
  {
    PlannedOpenable(entries, fs, layout);
    PlannedShape(entries, fs, layout);
    PlannedPositionsFit(entries, fs, layout);
    var img := Image(layout, fs);
    assert img[..SECTOR_SIZE] == ToBytes(HeaderWords(layout));
    ToFromBytes(HeaderWords(layout));
  }

  /** Bytes `start .. start + len` of `img` are `content` followed by
      zeros. */
  predicate HoldsAt(img: seq<byte>, start: nat, len: nat, content: seq<byte>)
  {
    && start + len <= |img|
    && |content| <= len
    && img[start .. start + len] == content + Zeros(len - |content|)
  }

  /** Component `i` of a planned layout occupies sectors `lba_pos ..
      lba_pos + lba_len - 1` of the image, and they hold its file followed
      by zeros up to the 4K-padded length. */
  lemma ImageComponent(entries: seq<Entry>, fs: FileSystem, layout: seq<Placed>, i: nat)
    requires Planned(entries, fs, layout) && |layout| <= MAX_RECORDS && i < |layout|
    ensures Openable(layout, fs)
    ensures HoldsAt(Image(layout, fs), SECTOR_SIZE * layout[i].lbaPos, layout[i].imageLen, fs[entries[i].path])
  {
    PlannedOpenable(entries, fs, layout);
    PlannedShape(entries, fs, layout);
    PayloadRegion(layout, fs, i);
    var off := SECTOR_SIZE * SumLba(layout[..i]);
    var len := SECTOR_SIZE * layout[i].lbaLen;
    assert Image(layout, fs) == HeaderBytes(layout) + Payloads(layout, fs);
    assert SECTOR_SIZE * layout[i].lbaPos == SECTOR_SIZE + off;
    assert len == layout[i].imageLen;
    SliceAfter(HeaderBytes(layout), Payloads(layout, fs), off, len);
    var content := fs[entries[i].path];
    PadToFits(content, layout[i].imageLen);
    assert Payload(layout[i], fs) == PadTo(content, len);
  }

  /** What a bootloader does with the image: read record `i` of the header
      sector, go to sector `lba_pos`, take `image_len` bytes. It finds
      component `i`'s file followed by zeros. */
  lemma ImageLocate(entries: seq<Entry>, fs: FileSystem, layout: seq<Placed>, i: nat)
    requires Planned(entries, fs, layout) && |layout| <= MAX_RECORDS && i < |layout|
    ensures Openable(layout, fs)
    ensures var img := Image(layout, fs);
            var rec := DecodeRecord(ReadHeader(img), i);
            HoldsAt(img, SECTOR_SIZE * rec.lbaPos, rec.imageLen, fs[entries[i].path])
  {
    ImageRecord(entries, fs, layout, i);
    ImageComponent(entries, fs, layout, i);
  }

  /** Helper for `ImageLocate`: where record `i` of the image's header
      points. */
  lemma ImageRecord(entries: seq<Entry>, fs: FileSystem, layout: seq<Placed>, i: nat)
    requires Planned(entries, fs, layout) && |layout| <= MAX_RECORDS && i < |layout|
    ensures Openable(layout, fs)
    ensures var rec := DecodeRecord(ReadHeader(Image(layout, fs)), i);
            rec.lbaPos == layout[i].lbaPos && rec.imageLen == layout[i].imageLen
  {
    ImageHeader(entries, fs, layout);
  }

  /** A slice of the second part of a concatenation. */
  lemma SliceAfter(a: seq<byte>, b: seq<byte>, off: nat, len: nat)
    requires off + len <= |b|
    ensures (a + b)[|a| + off .. |a| + off + len] == b[off .. off + len]
  {
  }

  /** Scenario: one kernel of exactly 4096 bytes is placed at sector 1 with
      8 sectors, and the image is 512 + 4096 bytes long. */
  lemma ScenarioOneBlock(kernel: seq<byte>)
    requires |kernel| == 4096
    ensures var e := Entry("kernel.bin", 0x0010_0000, 1, 0);
            var fs := map["kernel.bin" := kernel];
            && Plan([e], fs) == Success([Placed(e, 4096, 1, 8)])
            && |Image([Placed(e, 4096, 1, 8)], fs)| == 512 + 4096
  {
    var e := Entry("kernel.bin", 0x0010_0000, 1, 0);
    var fs := map["kernel.bin" := kernel];
    assert Pad4k(4096) == 4096;
    var p := Placed(e, 4096, 1, 8);
    assert [p][..0] == [];
    PlannedUnique([e], fs, [p], Plan([e], fs).value);
  }

  /** Scenario: a kernel of 5000 bytes followed by a boot logo of 100 bytes
      take sectors 1-16 and 17-24; the image is 512 + 8192 + 4096 bytes. */
  lemma ScenarioTwoComponents(kernel: seq<byte>, logo: seq<byte>)
    requires |kernel| == 5000 && |logo| == 100
    ensures var k := Entry("kernel.bin", 0x0010_0000, 1, 0);
            var l := Entry("logo.bin", 0x0020_0000, 2, 0);
            var fs := map["kernel.bin" := kernel, "logo.bin" := logo];
            var layout := [Placed(k, 8192, 1, 16), Placed(l, 4096, 17, 8)];
            && Plan([k, l], fs) == Success(layout)
            && |Image(layout, fs)| == 512 + 8192 + 4096
  {
    var k := Entry("kernel.bin", 0x0010_0000, 1, 0);
    var l := Entry("logo.bin", 0x0020_0000, 2, 0);
    var fs := map["kernel.bin" := kernel, "logo.bin" := logo];
    var layout := [Placed(k, 8192, 1, 16), Placed(l, 4096, 17, 8)];
    assert Pad4k(5000) == 8192;
    assert Pad4k(100) == 4096;
    assert layout[..0] == [];
    assert layout[..1] == [layout[0]];
    assert [layout[0]][..0] == [];
    assert layout[..1] == layout[..2][..1];
    PlannedUnique([k, l], fs, layout, Plan([k, l], fs).value);
  }

  /** Scenario: a one-byte file takes a full 4K block; its first sector is
      that byte followed by 511 zeros, and the rest of the block is zero. */
  lemma ScenarioOneByte(b: byte)
    ensures var e := Entry("kernel.bin", 0x0010_0000, 1, 0);
            var fs := map["kernel.bin" := [b]];
            var layout := [Placed(e, 4096, 1, 8)];
            && Plan([e], fs) == Success(layout)
            && Image(layout, fs)[512 .. 512 + 4096] == [b] + Zeros(4095)
  {
    var e := Entry("kernel.bin", 0x0010_0000, 1, 0);
    var fs := map["kernel.bin" := [b]];
    var p := Placed(e, 4096, 1, 8);
    assert Pad4k(1) == 4096;
    assert [p][..0] == [];
    PlannedUnique([e], fs, [p], Plan([e], fs).value);
    ImageComponent([e], fs, [p], 0);
  }

  /** Scenario: 33 components that all plan correctly are still refused,
      because their records do not fit in the header sector; `Run` then
      reports `HeaderFull` and writes nothing. */
  lemma ScenarioTooMany(kernel: seq<byte>, entries: seq<Entry>)
    requires |kernel| == 4096 && |entries| == 33
    requires forall i :: 0 <= i < |entries| ==> entries[i] == Entry("kernel.bin", 0, 1, 0)
    ensures var fs := map["kernel.bin" := kernel];
            Plan(entries, fs).Success? && |Plan(entries, fs).value| > MAX_RECORDS
  {
  }

  /** Scenario: a missing file stops planning with `CannotStat` naming it,
      even when it is not the first component. */
  lemma ScenarioMissingFile(kernel: seq<byte>)
    requires |kernel| == 1000
    ensures var k := Entry("kernel.bin", 0, 1, 0);
            var m := Entry("missing.bin", 0, 2, 0);
            Plan([k, m], map["kernel.bin" := kernel]) == Failure(CannotStat("missing.bin"))
  {
  }
}
