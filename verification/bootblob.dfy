/**
 Shared vocabulary of the mkbootblob model: the component list entry, the
 placed (planned) component, the file system view, and the fatal outcomes
 that end a run.

 The C program keeps components in a global linked list of `struct
 list_entry`; here the list is an ordered `seq<Entry>` and the fields the
 planner fills in live in a separate `Placed` value.
 */
module BootBlob {

  /** Bytes per output sector (one LBA). */
  const SECTOR_SIZE: nat := 512

  /** Components are allocated in 4K blocks. */
  const BLOCK_SIZE: nat := 4096

  /** Number of distinct values of a `uint32_t`. */
  const WORD_LIMIT: nat := 0x1_0000_0000

  type byte = x: int | 0 <= x < 256
  type u32 = x: int | 0 <= x < 0x1_0000_0000
  type i32 = x: int | -0x8000_0000 <= x < 0x8000_0000

  datatype Option<+T> = None | Some(value: T)

  /** Why a run of the tool stops; each one is a fatal exit of the program. */
  datatype Error =
    | NoElements                   // the component list is empty
    | TypeOutOfTable(path: string) // the type does not index the name table
    | CannotStat(path: string)     // the size of the file cannot be obtained
    | ImageTooLarge(path: string)  // the padded size does not fit in 32 bits
    | HeaderFull                   // more records than the header sector holds
    | CannotOpen(path: string)     // the file cannot be opened for reading

  datatype Result<+T> = Success(value: T) | Failure(error: Error)

  /** One component as the command line describes it: the file to embed,
      its load address, its numeric type and its archive slot. */
  datatype Entry = Entry(path: string, destAddr: u32, kind: i32, arcIndex: i32)

  /** A component after planning: its padded byte length and the first
      sector and number of sectors it occupies in the image. */
  datatype Placed = Placed(entry: Entry, imageLen: nat, lbaPos: nat, lbaLen: nat)

  /** The files the tool can see, by path. A path that is absent can be
      neither stat'ed nor opened; the size of a file is its length. */
  type FileSystem = map<string, seq<byte>>

  /** Conversion of an integer to `uint32_t`: reduction modulo 2^32. */
  function U32(x: int): (r: u32)
    ensures (x - r) % WORD_LIMIT == 0
    ensures 0 <= x < WORD_LIMIT ==> r == x
  {
    x % WORD_LIMIT
  }

  /** `n` zero bytes. */
  function Zeros(n: nat): (z: seq<byte>)
    ensures |z| == n
    ensures forall i :: 0 <= i < n ==> z[i] == 0
  {
    seq(n, i => 0)
  }

  function Min(a: int, b: int): (m: int)
  {
    if a <= b then a else b
  }
}
