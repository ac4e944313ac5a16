/**
 The blob writer: the header sector first, then for every component in
 list order exactly `lba_len` sectors read from its file, each short read
 zero-filled to a full sector. One 512-byte buffer serves the whole run,
 so a sector is built on top of whatever the previous write left in it.
 */
module Writer {
  import opened BootBlob
  import opened Layout

  /** What `read(fd, block, 512)` delivers at file offset `pos`: the next
      bytes of the file, at most a sector's worth, none at end of file. */
  function ReadChunk(content: seq<byte>, pos: nat): (chunk: seq<byte>)
    ensures |chunk| <= SECTOR_SIZE
    ensures pos <= |content| ==> |chunk| == Min(SECTOR_SIZE, |content| - pos) && chunk == content[pos..pos + |chunk|]
    ensures pos >= |content| ==> chunk == []
  {
    if pos >= |content| then [] else content[pos..Min(pos + SECTOR_SIZE, |content|)]
  }

  /** The buffer after a read of `chunk`: the bytes read over the front,
      the old contents behind them. */
  function ReadInto(block: seq<byte>, chunk: seq<byte>): (r: seq<byte>)
    requires |chunk| <= |block|
    ensures |r| == |block|
    ensures forall k :: 0 <= k < |r| ==> r[k] == if k < |chunk| then chunk[k] else block[k]
  {
    chunk + block[|chunk|..]
  }

  /** The short-read rule: a negative read length counts as zero, and the
      buffer past the bytes read is cleared before the sector is written. */
  function FillSector(block: seq<byte>, rlen: int): (sector: seq<byte>)
    requires |block| == SECTOR_SIZE && rlen <= SECTOR_SIZE
    ensures |sector| == SECTOR_SIZE
    ensures forall k :: 0 <= k < SECTOR_SIZE ==> sector[k] == if k < rlen then block[k] else 0
  {
    if rlen < SECTOR_SIZE then
      var n := if rlen < 0 then 0 else rlen;
      block[..n] + Zeros(SECTOR_SIZE - n)
    else block
  }

  /** The first `n` bytes of `content` followed by zeros: the reference
      for what a component region must hold. */
  function PadTo(content: seq<byte>, n: nat): (r: seq<byte>)
    ensures |r| == n
    ensures forall k :: 0 <= k < n ==> r[k] == if k < |content| then content[k] else 0
  {
    if n <= |content| then content[..n] else content + Zeros(n - |content|)
  }

  /** A file no longer than the padded length is kept whole and followed
      by zeros. */
  lemma PadToFits(content: seq<byte>, n: nat)
    requires |content| <= n
    ensures PadTo(content, n) == content + Zeros(n - |content|)
  {
  }

  /** Writing one more sector: whatever the stale buffer holds, the read at
      the current file offset followed by the zero fill extends the padded
      region by exactly one sector, and the offset advances by the bytes
      read. */
  lemma SectorStep(content: seq<byte>, lba: nat, stale: seq<byte>)
    requires |stale| == SECTOR_SIZE
    ensures var pos := Min(SECTOR_SIZE * lba, |content|);
            var chunk := ReadChunk(content, pos);
            && PadTo(content, SECTOR_SIZE * lba + SECTOR_SIZE)
               == PadTo(content, SECTOR_SIZE * lba) + FillSector(ReadInto(stale, chunk), |chunk|)
            && pos + |chunk| == Min(SECTOR_SIZE * (lba + 1), |content|)
  {
  }

  /** Every component's file can be opened. */
  ghost predicate Openable(layout: seq<Placed>, fs: FileSystem)
  {
    forall i :: 0 <= i < |layout| ==> layout[i].entry.path in fs
  }

  /** The index of the component whose file is the first that cannot be
      opened. */
  ghost predicate FirstUnopenable(layout: seq<Placed>, fs: FileSystem, i: int)
  {
    && 0 <= i < |layout|
    && layout[i].entry.path !in fs
    && Openable(layout[..i], fs)
  }

  /** The region of one component: its file cut or zero-padded to
      `lba_len` sectors. */
  function Payload(p: Placed, fs: FileSystem): (r: seq<byte>)
    requires p.entry.path in fs
    ensures |r| == p.lbaLen * SECTOR_SIZE
  {
    PadTo(fs[p.entry.path], p.lbaLen * SECTOR_SIZE)
  }

  /** The regions of all components, in list order. */
  function Payloads(layout: seq<Placed>, fs: FileSystem): (r: seq<byte>)
    requires Openable(layout, fs)
    ensures |r| == SECTOR_SIZE * SumLba(layout)
  {
    if |layout| == 0 then []
    else Payloads(layout[..|layout| - 1], fs) + Payload(layout[|layout| - 1], fs)
  }

  lemma OpenableAppend(a: seq<Placed>, b: seq<Placed>, fs: FileSystem)
    requires Openable(a, fs) && Openable(b, fs)
    ensures Openable(a + b, fs)
  {
    forall i | 0 <= i < |a + b|
      ensures (a + b)[i].entry.path in fs
    {
      if i >= |a| {
        assert (a + b)[i] == b[i - |a|];
      }
    }
  }

  lemma {:induction false} PayloadsAppend(a: seq<Placed>, b: seq<Placed>, fs: FileSystem)
    requires Openable(a, fs) && Openable(b, fs)
    ensures Openable(a + b, fs)
    ensures Payloads(a + b, fs) == Payloads(a, fs) + Payloads(b, fs)
    decreases |b|
  {
    OpenableAppend(a, b, fs);
    if |b| == 0 {
      assert a + b == a;
    } else {
      var front := b[..|b| - 1];
      assert (a + b)[..|a + b| - 1] == a + front;
      PayloadsAppend(a, front, fs);
    }
  }

  /** Component `i` occupies the sectors right after the regions of all
      components before it. */
  lemma PayloadRegion(layout: seq<Placed>, fs: FileSystem, i: nat)
    requires Openable(layout, fs) && i < |layout|
    ensures var start := SECTOR_SIZE * SumLba(layout[..i]);
            && start + SECTOR_SIZE * layout[i].lbaLen <= |Payloads(layout, fs)|
            && Payloads(layout, fs)[start .. start + SECTOR_SIZE * layout[i].lbaLen] == Payload(layout[i], fs)
  {
    var pre := layout[..i];
    var rest := layout[i + 1..];
    assert layout == pre + [layout[i]] + rest;
    PayloadsAppend(pre, [layout[i]], fs);
    PayloadsAppend(pre + [layout[i]], rest, fs);
  }

  lemma PayloadsSnoc(layout: seq<Placed>, fs: FileSystem, i: nat)
    requires i < |layout| && Openable(layout[..i], fs) && layout[i].entry.path in fs
    ensures Openable(layout[..i + 1], fs)
    ensures Payloads(layout[..i + 1], fs) == Payloads(layout[..i], fs) + Payload(layout[i], fs)
  {
    assert layout[..i + 1][..i] == layout[..i];
  }

  /** The copy loop for one component: `lba_len` times, read at the
      current file offset into the shared buffer, zero-fill the rest of it
      after a short read, and write it out. The sectors written are the
      file padded or cut to `lba_len` sectors, whatever the buffer held
      before; the buffer is handed on to the next component. */
  method CopySectors(content: seq<byte>, lbaLen: nat, block: seq<byte>) returns (sectors: seq<byte>, last: seq<byte>)
    requires |block| == SECTOR_SIZE
    ensures sectors == PadTo(content, SECTOR_SIZE * lbaLen)
    ensures |last| == SECTOR_SIZE
  {
    sectors := [];
    last := block;
    var pos: nat := 0;
    var lba: nat := 0;
    while lba < lbaLen
      invariant lba <= lbaLen
      invariant pos == Min(SECTOR_SIZE * lba, |content|)
      invariant sectors == PadTo(content, SECTOR_SIZE * lba)
      invariant |last| == SECTOR_SIZE
    {
      var chunk := ReadChunk(content, pos);
      SectorStep(content, lba, last);
      last := ReadInto(last, chunk);
      var rlen := |chunk|;
      last := FillSector(last, rlen);
      sectors := sectors + last;
      pos := pos + rlen;
      lba := lba + 1;
    }
  }

  /** The write phase of `main`: the header sector, then for every
      component in order its file copied sector by sector through one
      buffer, `lba_len` sectors each. If every file opens, the output is
      the header followed by every component's padded region; otherwise
      the run stops at the first file that does not open, with the header
      and the regions of the components before it already written. */
  method WriteBlob(header: seq<byte>, layout: seq<Placed>, fs: FileSystem) returns (written: seq<byte>, err: Option<Error>)
    requires |header| == SECTOR_SIZE
    ensures err.None? <==> Openable(layout, fs)
    ensures err.None? ==> written == header + Payloads(layout, fs)
    ensures err.Some? ==> exists i :: && FirstUnopenable(layout, fs, i)
                                      && err.value == CannotOpen(layout[i].entry.path)
                                      && written == header + Payloads(layout[..i], fs)
  {
    written := header;
    var block := header;
    var i := 0;
    while i < |layout|
      invariant 0 <= i <= |layout|
      invariant Openable(layout[..i], fs)
      invariant written == header + Payloads(layout[..i], fs)
      invariant |block| == SECTOR_SIZE
    {
      var path := layout[i].entry.path;
      if path !in fs {
        assert FirstUnopenable(layout, fs, i);
        return written, Some(CannotOpen(path));
      }
      var sectors;
      sectors, block := CopySectors(fs[path], layout[i].lbaLen, block);
      written := written + sectors;
      PayloadsSnoc(layout, fs, i);
      i := i + 1;
    }
    assert layout[..i] == layout;
    err := None;
  }
}
