# mkbootblob in Dafny

mkbootblob assembles a bootable firmware blob. Sector 0 is a content-list
header, and the component files follow it, each padded to whole 4K blocks.
This project models the tool's core after option parsing:

- **Layout planner** (`validate_list`, module `Layout`). Each file size is
  rounded up to a multiple of 4096, giving `image_len`. Each component then
  gets `lba_len = image_len / 512` sectors, starting at a cursor that begins
  at sector 1.
- **Header encoder** (the content-list loop of `main`, module `Header`). It
  fills a zeroed block of 128 32-bit words with one record per component:
  `image_len, lba_pos, dest_addr, type`. An archive's type word is
  `8 + arc_index`. The write pointer is checked before each record, which
  caps the header at 32 records.
- **Blob writer** (the copy loop of `main`, module `Writer`). It writes the
  header sector, then `lba_len` sectors per component. Every sector goes
  through one shared 512-byte buffer, and a short read is zero-filled.
- **The run** (module `MkBootBlob`). It plans, then builds the header, then
  writes. It also proves what a reader of the image can rely on: the
  header records decode back to the components, each component sits at its
  planned sector and holds its file followed by zeros, and the image is
  512 bytes times the final cursor long.

Modelling choices:

- The file system is a `map<string, seq<byte>>`. A path can be stat'ed and
  opened exactly when it is a key, and its size is the length of its
  contents.
- The source has three `assert`s. Each is modelled as a fatal outcome:
  - `TypeOutOfTable`: the type must index the 9-entry name table.
  - `ImageTooLarge`: the padded size must fit in a `uint32_t`.
  - `HeaderFull`: the header's write pointer must stay in the sector.
- The sector cursor is an unbounded `nat`. The header stores a position
  modulo 2^32, as the `uint32_t` field does. The type word is
  `(type + arc_index)` reduced modulo 2^32.
- The C code writes header words in host byte order. This model fixes that
  order to little-endian.
- `read` is modelled as returning the next `min(512, remaining)` bytes of
  the file.

## Model

| member | source | states |
|---|---|---|
| Layout.Pad4k | src/mkbootblob.c:64-65 | the padded length is a multiple of 4096, at least the file size and less than the file size plus 4096 |
| Layout.Pad4kLeast | src/mkbootblob.c:64-65 | the padded length is the smallest multiple of 4096 that holds the file |
| Layout.Pad4kIdempotent | src/mkbootblob.c:64-65 | padding an already padded length leaves it unchanged |
| Layout.SectorCountExact | src/mkbootblob.c:70 | for a 4K-padded length, `lba_len * 512 == image_len` exactly, and `lba_len` is a multiple of 8 |
| Layout.MeasureOutcome | src/mkbootblob.c:57-68 | an entry passes iff its type indexes the 9-entry table, its file stats and the file is at most 2^32 − 4096 bytes; then it gets the least 4K multiple holding the file, below 2^32; a rejected entry reports the first check it fails, in the order type, stat, size |
| Layout.PlanFrom | src/mkbootblob.c:54-72 | fails exactly when some entry fails, and then with the first failing entry's error; on success, entry i sits at the cursor plus the sectors of entries 0..i-1, with its padded size and `image_len / 512` sectors |
| Layout.Plan | src/mkbootblob.c:43-72 | an empty list gives `NoElements`; otherwise planning succeeds iff every entry passes; the layout meets `Planned` (positions are 1 plus the prefix sums of `lba_len`); a failure carries the first failing entry's error |
| Layout.PlannedUnique | src/mkbootblob.c:39-79 | planning is deterministic: two layouts that meet the plan for the same entries and files are equal |
| Layout.PlannedShape | src/mkbootblob.c:64-72 | in a planned layout every `image_len` is a 4K multiple padding its file and fits 32 bits; `lba_len * 512 == image_len`; `lba_len` is a multiple of 8; the first position is 1; each later position is the previous position plus the previous `lba_len` |
| Layout.SumLbaBound | src/mkbootblob.c:70-72 | a cursor advanced by sector counts each at most `b` moves at most `b` times the number of components |
| Layout.PlannedLbaLenBound | src/mkbootblob.c:64-70 | no planned component takes more than 2^23 − 8 sectors |
| Layout.PlannedPositionsFit | src/mkbootblob.c:64-72 | in a planned layout of at most 32 components, the number the header can hold, every `lba_pos` is below 2^32, so the `uint32_t` cursor never wraps |
| Layout.PlannedCursorFits | src/mkbootblob.c:70-72 | after at most 32 planned components the cursor itself is still below 2^32 |
| Layout.PlanLoop | src/mkbootblob.c:39-79 | the cursor loop with early return computes exactly `Plan`, and on success its cursor ends at 1 plus the total sector count |
| Header.TypeWordRoundTrip | src/mkbootblob.c:146-149 | a non-archive type is stored unchanged and ignores the archive index; an archive stores `8 + arc_index`, and reading the word back by range recovers that slot |
| Header.Records | src/mkbootblob.c:141-150 | laid end to end, the records have 4 words per component, and record i decodes to component i's fields |
| Header.HeaderWords | src/mkbootblob.c:138-150 | the header is 128 words; record i decodes to component i's `(image_len, lba_pos, dest_addr, type word)`; every word from 4n on is zero |
| Header.BuildHeader | src/mkbootblob.c:138-150 | the loop with its `wp * 4 < 512` check succeeds iff there are at most 32 components, then yields `HeaderWords`; otherwise it fails with `HeaderFull` |
| Header.WordRoundTrip | src/mkbootblob.c:89-90 | decoding a word's little-endian bytes gives back the word |
| Header.BytesRoundTrip | src/mkbootblob.c:89-90 | encoding the word of four bytes gives back the bytes |
| Header.ToFromBytes | src/mkbootblob.c:89-90 | a word sequence survives the trip to bytes and back |
| Header.FromToBytes | src/mkbootblob.c:89-90 | a byte sequence of whole words survives the trip to words and back |
| Header.ReadHeader | src/mkbootblob.c:138-159 | the first sector of an image, read back as words, is a full 128-word header |
| Header.HeaderBytes | src/mkbootblob.c:138-159 | the header as written is 512 bytes, and its records read back as the layout's records |
| Writer.FillSector | src/mkbootblob.c:175-180 | the written sector is 512 bytes; bytes below the read length come from the buffer and every other byte is zero; a negative length counts as 0 |
| Writer.PadTo | src/mkbootblob.c:174-185 | reference content of a component region: file byte k where the file has one, zero elsewhere |
| Writer.SectorStep | src/mkbootblob.c:174-185 | whatever the buffer held before, one read plus the zero fill extends the padded region by exactly one sector, and the file offset advances by the bytes read |
| Writer.CopySectors | src/mkbootblob.c:174-185 | one component's copy loop writes exactly `lba_len` sectors, and they are its file padded or cut to that length, whatever the shared buffer held before |
| Writer.PayloadRegion | src/mkbootblob.c:164-188 | component i's region starts right after the regions of components 0..i-1, and is its file padded or cut to `lba_len` sectors |
| Writer.WriteBlob | src/mkbootblob.c:159-188 | succeeds iff every file opens, and then writes the header followed by every component's padded region in order; otherwise it stops at the first file that does not open, with the header and the earlier regions already written |
| MkBootBlob.Image | src/mkbootblob.c:159-185 | the image is 512 × (1 + total `lba_len`) bytes, which is 512 × the planner's final cursor |
| MkBootBlob.Run | src/mkbootblob.c:129-188 | the run succeeds iff planning succeeds and there are at most 32 components; a planning error or a full header stops it before anything is written; on success it writes `Image`, whose length is 512 × the final cursor |
| MkBootBlob.ImageHeader | src/mkbootblob.c:138-159 | in the image's first sector, record i decodes to component i's padded length, exact position, load address and type word; words after the last record are zero |
| MkBootBlob.ImageComponent | src/mkbootblob.c:164-185 | component i's bytes `512·lba_pos .. 512·lba_pos + image_len` hold its file followed by zeros up to the padded length |
| MkBootBlob.ImageLocate | src/mkbootblob.c:138-185 | a reader that takes record i from the header sector, goes to sector `lba_pos` and reads `image_len` bytes finds component i's file followed by zeros |
| MkBootBlob.ScenarioOneBlock | src/mkbootblob.c:64-72 | a 4096-byte kernel gets `image_len` 4096, position 1 and 8 sectors; the image is 512 + 4096 bytes |
| MkBootBlob.ScenarioTwoComponents | src/mkbootblob.c:64-72 | kernel 5000 bytes, then logo 100 bytes: positions 1 and 17, 16 and 8 sectors; the image is 512 + 8192 + 4096 bytes |
| MkBootBlob.ScenarioOneByte | src/mkbootblob.c:174-185 | a 1-byte file occupies 4096 bytes of the image: that byte, then 4095 zeros |
| MkBootBlob.ScenarioTooMany | src/mkbootblob.c:142 | 33 valid components plan successfully, and the planned layout handed to the header encoder has more than 32 components |
| MkBootBlob.ScenarioMissingFile | src/mkbootblob.c:59-62 | a missing second file stops planning with `CannotStat` naming that file |

## Left out

- Option parsing (src/mkbootblob.c:94-127), including building the linked
  list. The model takes an already built `seq<Entry>`. Fields the C code
  leaves uninitialised after `malloc` (type, address, archive index) are
  plain inputs. The `strtol` truncations are not modelled.
- The printed summary table and the type name strings
  (src/mkbootblob.c:42, 50-52, 74, 76) are diagnostic output only. The
  assertion at line 57 bounds the type by the size of that table, and it
  IS modelled, as `TypeOutOfTable`.
- Layout.Pad4k: it is written as `((len + 4095) / 4096) * 4096`. For a
  non-negative length this equals `(len + 4095) & ~4095`, but that
  bit-level identity is not proved. The 64-bit `off_t` overflow of
  `len + 4095` near 2^63 is not modelled either.
- The `stat`, `open`, `read`, `write` and `close` calls are abstracted by
  the file-system map. Several behaviours are therefore not modelled:
  - a file that changes between `stat` and `read`;
  - a file that stats but cannot be opened;
  - partial reads in the middle of a file;
  - the `ifd <= 0` treatment of descriptor 0.
- Writer.WriteBlob: it never performs a negative read. `FillSector`
  handles a negative length on its own, but the copy loop only issues
  reads that succeed.
- Opening the output file (src/mkbootblob.c:152-157) and short writes
  (src/mkbootblob.c:159-162, 181-184) are not modelled. The output is
  opened without `O_TRUNC`, so an older, longer file keeps its tail; the
  model returns only the bytes this run writes.
- The sector cursor is a `nat`, so the `uint32_t` wrap-around of `lba_pos`
  (src/mkbootblob.c:43, 72) is not reproduced in the layout. It cannot
  occur in a run that writes a header: at most 32 components of at most
  2^23 − 8 sectors each keep every position below 2^32
  (`Layout.PlannedPositionsFit`). Only a plan of more than 32 components,
  which the header refuses, could wrap.
- Header.TypeWordRoundTrip: `type + arc_index` is reduced modulo 2^32 as a
  wrapped 32-bit sum. The signed `int` overflow, which is undefined in C,
  is not modelled separately.
- The static `lba_pos` in `validate_list` is modelled as a fresh cursor of
  1, because the function runs once per process.
- A component whose type is never set (type 0) is accepted and written
  with type word 0, as the code does; no error is raised for it.
