/**
 The content-list header (sector 0 of the image): 128 32-bit words,
 zeroed, then one 4-word record per component in list order,
 `image_len, lba_pos, dest_addr, type`. The C code fills the words of a
 512-byte buffer through a `uint32_t *` in host byte order; this model
 fixes that order to little-endian.
 */
module Header {
  import opened BootBlob

  /** Words in the header sector. */
  const HEADER_WORDS: nat := 128
  /** Words per component record. */
  const RECORD_WORDS: nat := 4
  /** Records that fit in one sector: 512 / 16. */
  const MAX_RECORDS: nat := 32

  /** The type word of a record: an archive (type 8) carries its slot
      number added to the type, every other type is stored as is. The
      sum is an `int` stored into a `uint32_t`. */
  function TypeWord(kind: i32, arcIndex: i32): (w: u32)
  {
    if kind == 8 then U32(kind + arcIndex) else U32(kind)
  }

  /** The reading side of the type word: values from 8 up name an archive
      slot (the word minus 8), smaller values are plain types. */
  function ArchiveSlot(w: u32): (slot: Option<nat>)
  {
    if w >= 8 then Some(w - 8) else None
  }

  /** Type words of every type the planner admits (0 to 8) can be read
      back: plain types are stored unchanged whatever the archive index,
      and an archive's slot comes back from the word. */
  lemma TypeWordRoundTrip(kind: i32, arcIndex: i32)
    requires 0 <= kind < 9
    ensures kind != 8 ==> TypeWord(kind, arcIndex) == kind && ArchiveSlot(TypeWord(kind, arcIndex)) == None
    ensures kind != 8 ==> forall other: i32 :: TypeWord(kind, other) == TypeWord(kind, arcIndex)
    ensures kind == 8 && -8 <= arcIndex ==> TypeWord(kind, arcIndex) == 8 + arcIndex
    ensures kind == 8 && 0 <= arcIndex ==> ArchiveSlot(TypeWord(kind, arcIndex)) == Some(arcIndex)
  {
  }

  /** The four words of one header record. */
  datatype Record = Record(imageLen: u32, lbaPos: u32, destAddr: u32, typeWord: u32)

  /** The record the encoder writes for a placed component; each field is
      stored into a `uint32_t` slot. */
  function RecordOf(p: Placed): (r: Record)
  {
    Record(U32(p.imageLen), U32(p.lbaPos), p.entry.destAddr, TypeWord(p.entry.kind, p.entry.arcIndex))
  }

  function RecordWords(r: Record): (ws: seq<u32>)
  {
    [r.imageLen, r.lbaPos, r.destAddr, r.typeWord]
  }

  /** Record `i` of a word sequence: words `4i .. 4i+3`. */
  function DecodeRecord(words: seq<u32>, i: nat): (r: Record)
    requires RECORD_WORDS * i + RECORD_WORDS <= |words|
    ensures RecordWords(r) == words[RECORD_WORDS * i .. RECORD_WORDS * i + RECORD_WORDS]
  {
    var w := RECORD_WORDS * i;
    Record(words[w], words[w + 1], words[w + 2], words[w + 3])
  }

  /** The records of a layout laid end to end. */
  function Records(layout: seq<Placed>): (ws: seq<u32>)
    ensures |ws| == RECORD_WORDS * |layout|
    ensures forall i :: 0 <= i < |layout| ==> DecodeRecord(ws, i) == RecordOf(layout[i])
  {
    if |layout| == 0 then []
    else
      var front := Records(layout[..|layout| - 1]);
      var ws := front + RecordWords(RecordOf(layout[|layout| - 1]));
      assert forall i :: 0 <= i < |layout| - 1 ==> DecodeRecord(ws, i) == DecodeRecord(front, i);
      ws
  }

  lemma RecordsSnoc(layout: seq<Placed>, p: Placed)
    ensures Records(layout + [p]) == Records(layout) + RecordWords(RecordOf(p))
  {
  }

  /** The header sector as words: one record per component, in list order,
      and zero everywhere else. */
  function HeaderWords(layout: seq<Placed>): (h: seq<u32>)
    requires |layout| <= MAX_RECORDS
    ensures |h| == HEADER_WORDS
    ensures forall i :: 0 <= i < |layout| ==> DecodeRecord(h, i) == RecordOf(layout[i])
    ensures forall k :: RECORD_WORDS * |layout| <= k < HEADER_WORDS ==> h[k] == 0
  {
    var recs := Records(layout);
    var h := recs + seq(HEADER_WORDS - |recs|, k => 0);
    assert forall i :: 0 <= i < |layout| ==> DecodeRecord(h, i) == DecodeRecord(recs, i);
    h
  }

  /** The header loop of `main`: a zeroed 128-word block, a write pointer
      checked against the sector size before each record, four words per
      component. It yields the header exactly when the layout has at most
      32 components, and stops with `HeaderFull` otherwise. */
  method BuildHeader(layout: seq<Placed>) returns (r: Result<seq<u32>>)
    ensures r.Success? <==> |layout| <= MAX_RECORDS
    ensures r.Success? ==> r.value == HeaderWords(layout)
    ensures r.Failure? ==> r.error == HeaderFull
  {
    var block: seq<u32> := seq(HEADER_WORDS, k => 0);
    var wp: nat := 0;
    var i := 0;
    FilledStart(layout, block);
    while i < |layout|
      invariant 0 <= i <= |layout| && i <= MAX_RECORDS
      invariant wp == RECORD_WORDS * i
      invariant Filled(layout, i, block)
    {
      if !(wp * 4 < 512) {
        return Failure(HeaderFull);
      }
      PutRecord(layout, i, block);
      block := Store(block, wp, RecordWords(RecordOf(layout[i])));
      wp := wp + RECORD_WORDS;
      i := i + 1;
    }
    HeaderComplete(layout, block);
    r := Success(block);
  }

  /** `words` stored into `block` from index `wp` on: the four
      `block32[wp++] = ...` assignments of one record. */
  function Store(block: seq<u32>, wp: nat, words: seq<u32>): (r: seq<u32>)
    requires wp + |words| <= |block|
    ensures |r| == |block|
  {
    block[..wp] + words + block[wp + |words|..]
  }

  /** The state of the header block after `i` records: those records in
      front, zeros behind. */
  ghost predicate Filled(layout: seq<Placed>, i: nat, block: seq<u32>)
  {
    && i <= |layout|
    && |block| == HEADER_WORDS
    && RECORD_WORDS * i <= HEADER_WORDS
    && block[..RECORD_WORDS * i] == Records(layout[..i])
    && forall k :: RECORD_WORDS * i <= k < HEADER_WORDS ==> block[k] == 0
  }

  /** Helper for `BuildHeader`: the zeroed block holds no records yet. */
  lemma FilledStart(layout: seq<Placed>, block: seq<u32>)
    requires |block| == HEADER_WORDS
    requires forall k :: 0 <= k < HEADER_WORDS ==> block[k] == 0
    ensures Filled(layout, 0, block)
  {
    assert layout[..0] == [];
  }

  /** Helper for `BuildHeader`: writing record `i` after the first `i`
      records extends the written prefix and keeps the rest zero. */
  lemma PutRecord(layout: seq<Placed>, i: nat, block: seq<u32>)
    requires i < |layout| && RECORD_WORDS * i + RECORD_WORDS <= HEADER_WORDS
    requires Filled(layout, i, block)
    ensures Filled(layout, i + 1, Store(block, RECORD_WORDS * i, RecordWords(RecordOf(layout[i]))))
  {
    var wp := RECORD_WORDS * i;
    var words := RecordWords(RecordOf(layout[i]));
    var next := Store(block, wp, words);
    assert next[..wp + RECORD_WORDS] == next[..wp] + next[wp..wp + RECORD_WORDS];
    assert layout[..i + 1] == layout[..i] + [layout[i]];
    RecordsSnoc(layout[..i], layout[i]);
    assert next[..wp + RECORD_WORDS] == Records(layout[..i + 1]);
    forall k | wp + RECORD_WORDS <= k < HEADER_WORDS
      ensures next[k] == 0
    {
      assert next[k] == next[wp + RECORD_WORDS..][k - wp - RECORD_WORDS];
    }
  }

  /** Helper for `BuildHeader`: a block holding all records followed by
      zeros is the header. */
  lemma HeaderComplete(layout: seq<Placed>, block: seq<u32>)
    requires |layout| <= MAX_RECORDS
    requires Filled(layout, |layout|, block)
    ensures block == HeaderWords(layout)
  {
    var wp := RECORD_WORDS * |layout|;
    assert layout[..|layout|] == layout;
    assert block == block[..wp] + block[wp..];
  }

  /** Little-endian bytes of one word. */
  function WordBytes(w: u32): (bs: seq<byte>)
  {
    [w % 256, (w / 256) % 256, (w / 65536) % 256, w / 16777216]
  }

  /** The word whose little-endian bytes are `b`. */
  function BytesWord(b: seq<byte>): (w: u32)
    requires |b| == 4
  {
    var b0, b1, b2, b3: int := b[0], b[1], b[2], b[3];
    b0 + 256 * b1 + 65536 * b2 + 16777216 * b3
  }

  lemma WordRoundTrip(w: u32)
    ensures BytesWord(WordBytes(w)) == w
  {
    assert w == w % 256 + 256 * (w / 256);
    assert w / 256 == (w / 256) % 256 + 256 * (w / 65536);
    assert w / 65536 == (w / 65536) % 256 + 256 * (w / 16777216);
  }

  lemma BytesRoundTrip(b: seq<byte>)
    requires |b| == 4
    ensures WordBytes(BytesWord(b)) == b
  {
    var w := BytesWord(b);
    var b0, b1, b2, b3: int := b[0], b[1], b[2], b[3];
    DigitSplit(b0, b1 + 256 * b2 + 65536 * b3);
    DigitSplit(b1, b2 + 256 * b3);
    DigitSplit(b2, b3);
    assert w / 256 / 256 == w / 65536;
    assert w / 65536 / 256 == w / 16777216;
  }

  /** One base-256 digit in front of the rest. */
  lemma DigitSplit(d: int, rest: nat)
    requires 0 <= d < 256
    ensures (d + 256 * rest) / 256 == rest && (d + 256 * rest) % 256 == d
  {
  }

  /** A word sequence as little-endian bytes. */
  function ToBytes(words: seq<u32>): (bs: seq<byte>)
    ensures |bs| == 4 * |words|
  {
    if |words| == 0 then [] else WordBytes(words[0]) + ToBytes(words[1..])
  }

  /** Bytes read back as little-endian words. */
  function FromBytes(bs: seq<byte>): (words: seq<u32>)
    requires |bs| % 4 == 0
    ensures 4 * |words| == |bs|
  {
    if |bs| == 0 then [] else [BytesWord(bs[..4])] + FromBytes(bs[4..])
  }

  lemma {:induction false} ToFromBytes(words: seq<u32>)
    ensures FromBytes(ToBytes(words)) == words
    decreases |words|
  {
    if |words| > 0 {
      var bs := ToBytes(words);
      assert bs[..4] == WordBytes(words[0]);
      assert bs[4..] == ToBytes(words[1..]);
      WordRoundTrip(words[0]);
      ToFromBytes(words[1..]);
    }
  }

  lemma {:induction false} FromToBytes(bs: seq<byte>)
    requires |bs| % 4 == 0
    ensures ToBytes(FromBytes(bs)) == bs
    decreases |bs|
  {
    if |bs| > 0 {
      var words := FromBytes(bs);
      assert words[0] == BytesWord(bs[..4]);
      assert words[1..] == FromBytes(bs[4..]);
      BytesRoundTrip(bs[..4]);
      FromToBytes(bs[4..]);
      assert bs == bs[..4] + bs[4..];
    }
  }

  /** What a reader takes from the front of an image: its first sector,
      as little-endian words. */
  function ReadHeader(img: seq<byte>): (words: seq<u32>)
    requires SECTOR_SIZE <= |img|
    ensures |words| == HEADER_WORDS
  {
    FromBytes(img[..SECTOR_SIZE])
  }

  /** The header sector as it goes to the output: 512 bytes whose records
      read back as the layout's records. */
  function HeaderBytes(layout: seq<Placed>): (bs: seq<byte>)
    requires |layout| <= MAX_RECORDS
    ensures |bs| == SECTOR_SIZE
    ensures forall i :: 0 <= i < |layout| ==> DecodeRecord(FromBytes(bs), i) == RecordOf(layout[i])
  {
    ToFromBytes(HeaderWords(layout));
    ToBytes(HeaderWords(layout))
  }
}
