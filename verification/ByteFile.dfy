/** The small byte file behind the back-compat devices: `mst_pciconf_bc_read`,
    `mst_pciconf_bc_write` and the append/truncate part of INIT (mst_pciconf_bc.c), and the same
    file with a fallback per minor number (mst_pci_bc.c). */
module ByteFile {
  import opened Errno

  const BUFFER_SIZE := 256
  const MAX_MINOR := 256

  type byte = x: int | 0 <= x < 256

  datatype File = File(buffer: seq<byte>, used: nat)

  predicate Bounded(f: File) {
    |f.buffer| == BUFFER_SIZE && f.used <= BUFFER_SIZE
  }

  function Min(a: nat, b: nat): nat {
    if a <= b then a else b
  }

  /** How many bytes a write of `count` bytes at `pos` takes. */
  function WriteRoom(pos: nat, count: nat): nat {
    if pos >= BUFFER_SIZE then 0 else Min(count, BUFFER_SIZE - pos)
  }

  function ReadRoom(f: File, pos: nat, count: nat): nat {
    if pos >= f.used then 0 else Min(count, f.used - pos)
  }

  /** `buffer` with `data` laid over it at `pos`. */
  function Splice(buffer: seq<byte>, pos: nat, data: seq<byte>): (r: seq<byte>)
    requires pos + |data| <= |buffer|
    ensures |r| == |buffer|
  {
    buffer[..pos] + data + buffer[pos + |data|..]
  }

  lemma SpliceTwice(buffer: seq<byte>, pos: nat, a: seq<byte>, b: seq<byte>)
    requires pos + |a| + |b| <= |buffer|
    ensures Splice(Splice(buffer, pos, a), pos + |a|, b) == Splice(buffer, pos, a + b)
  {
    var once := Splice(buffer, pos, a);
    assert once[..pos + |a|] == buffer[..pos] + a;
    assert once[pos + |a| + |b|..] == buffer[pos + |a| + |b|..];
  }

  lemma IsSplice(buffer: seq<byte>, pos: nat, data: seq<byte>, r: seq<byte>)
    requires pos + |data| <= |buffer| == |r|
    requires forall i :: 0 <= i < |r| ==> r[i] == if pos <= i < pos + |data| then data[i - pos] else buffer[i]
    ensures r == Splice(buffer, pos, data)
  {
  }

  lemma SpliceNothing(buffer: seq<byte>, pos: nat)
    requires pos <= |buffer|
    ensures Splice(buffer, pos, []) == buffer
  {
  }

  function WriteAt(f: File, pos: nat, data: seq<byte>): (r: File)
    requires Bounded(f)
    ensures Bounded(r)
  {
    var n := WriteRoom(pos, |data|);
    if pos >= BUFFER_SIZE then f
    else File(Splice(f.buffer, pos, data[..n]), if f.used < pos + n then pos + n else f.used)
  }

  function ReadAt(f: File, pos: nat, count: nat): seq<byte>
    requires Bounded(f)
  {
    if pos >= f.used then [] else f.buffer[pos..pos + ReadRoom(f, pos, count)]
  }

  /** A write inside the 256 bytes replaces the bytes it covers, as far as they go, and no others; and it
      never makes the file shorter. */
  lemma WriteAtBytes(f: File, pos: nat, data: seq<byte>)
    requires Bounded(f)
    ensures var r, n := WriteAt(f, pos, data), WriteRoom(pos, |data|);
            && (pos >= 256 ==> r == f && n == 0)
            && (pos < 256 ==>
                  && n == (if |data| <= 256 - pos then |data| else 256 - pos)
                  && r.used == (if f.used >= pos + n then f.used else pos + n)
                  && |r.buffer| == 256
                  && forall i :: 0 <= i < 256 ==>
                       r.buffer[i] == if pos <= i < pos + n then data[i - pos] else f.buffer[i])
  {
  }

  /** A read gives the bytes of the file from the position on, as many as there are, up to the count. */
  lemma ReadAtBytes(f: File, pos: nat, count: nat)
    requires Bounded(f)
    ensures |ReadAt(f, pos, count)| == ReadRoom(f, pos, count)
            == if pos >= f.used then 0 else if count <= f.used - pos then count else f.used - pos
    ensures forall i :: 0 <= i < |ReadAt(f, pos, count)| ==> ReadAt(f, pos, count)[i] == f.buffer[pos + i]
  {
  }

  datatype OpenFlags = OpenFlags(append: bool, truncate: bool, writeOnly: bool)

  /** The file after truncation. */
  function Emptied(f: File): File {
    f.(used := 0)
  }

  // ------------------------------------------------------------------
  // Chunks

  function Concat(chunks: seq<seq<byte>>): seq<byte> {
    if chunks == [] then [] else chunks[0] + Concat(chunks[1..])
  }

  /** Consecutive writes: each starts where the one before it stopped. */
  function WriteChunks(f: File, pos: nat, chunks: seq<seq<byte>>): (r: File)
    requires Bounded(f)
    ensures Bounded(r)
    decreases |chunks|
  {
    if chunks == [] then f
    else WriteChunks(WriteAt(f, pos, chunks[0]), pos + WriteRoom(pos, |chunks[0]|), chunks[1..])
  }

  lemma TwoWrites(f: File, pos: nat, a: seq<byte>, b: seq<byte>)
    requires Bounded(f)
    ensures WriteAt(WriteAt(f, pos, a), pos + WriteRoom(pos, |a|), b) == WriteAt(f, pos, a + b)
    ensures WriteRoom(pos, |a|) + WriteRoom(pos + WriteRoom(pos, |a|), |b|) == WriteRoom(pos, |a + b|)
  {
    if pos < BUFFER_SIZE {
      var n := WriteRoom(pos, |a|);
      var m := WriteRoom(pos + n, |b|);
      assert (a + b)[..n + m] == a[..n] + b[..m];
      SpliceTwice(f.buffer, pos, a[..n], b[..m]);
      SpliceNothing(Splice(f.buffer, pos, a[..n]), pos + n);
      assert m == 0 ==> a[..n] + b[..m] == a[..n];
      hide Splice;
    }
  }

  /** Any way of cutting data into consecutive writes leaves the same buffer and length as one
      write of all of it. */
  lemma {:induction false} ChunkedWrites(f: File, pos: nat, chunks: seq<seq<byte>>)
    requires Bounded(f) && chunks != []
    ensures WriteChunks(f, pos, chunks) == WriteAt(f, pos, Concat(chunks))
    decreases |chunks|
  {
    if |chunks| == 1 {
      assert Concat(chunks) == chunks[0];
    } else {
      var f' := WriteAt(f, pos, chunks[0]);
      var pos' := pos + WriteRoom(pos, |chunks[0]|);
      ChunkedWrites(f', pos', chunks[1..]);
      TwoWrites(f, pos, chunks[0], Concat(chunks[1..]));
    }
  }

  /** No write at all is not the same as a write of nothing: beyond the end, the latter extends
      the file. */
  lemma EmptyWriteExtends(f: File, pos: nat)
    requires Bounded(f) && f.used < pos < BUFFER_SIZE
    ensures WriteChunks(f, pos, []) == f && WriteAt(f, pos, []) == f.(used := pos)
  {
    SpliceNothing(f.buffer, pos);
    assert WriteRoom(pos, 0) == 0;
  }

  function Sum(sizes: seq<nat>): nat {
    if sizes == [] then 0 else sizes[0] + Sum(sizes[1..])
  }

  function ReadChunks(f: File, pos: nat, sizes: seq<nat>): seq<byte>
    requires Bounded(f)
    decreases |sizes|
  {
    if sizes == [] then []
    else ReadAt(f, pos, sizes[0]) + ReadChunks(f, pos + ReadRoom(f, pos, sizes[0]), sizes[1..])
  }

  lemma SlicesMeet(s: seq<byte>, a: nat, b: nat, c: nat)
    requires a <= b <= c <= |s|
    ensures s[a..b] + s[b..c] == s[a..c]
  {
  }

  lemma EndOfReads(f: File, pos: nat, count: nat, more: nat)
    requires pos <= f.used
    ensures var n := ReadRoom(f, pos, count);
            pos + n <= Min(f.used, pos + n + more) == Min(f.used, pos + (count + more)) <= f.used
  {
  }

  lemma ReadIsSlice(f: File, pos: nat, count: nat)
    requires Bounded(f) && pos <= f.used
    ensures pos + ReadRoom(f, pos, count) <= f.used
    ensures ReadAt(f, pos, count) == f.buffer[pos..pos + ReadRoom(f, pos, count)]
  {
  }

  lemma ReadChunksNext(f: File, pos: nat, sizes: seq<nat>)
    requires Bounded(f) && sizes != []
    ensures ReadChunks(f, pos, sizes)
         == ReadAt(f, pos, sizes[0]) + ReadChunks(f, pos + ReadRoom(f, pos, sizes[0]), sizes[1..])
    ensures Sum(sizes) == sizes[0] + Sum(sizes[1..])
  {
    hide ReadAt, ReadRoom;
  }

  lemma ReadChunksNone(f: File, pos: nat)
    requires Bounded(f) && pos <= f.used
    ensures ReadChunks(f, pos, []) == f.buffer[pos..Min(f.used, pos + Sum([]))]
  {
  }

  /** Consecutive reads of any sizes give the bytes from the position on, up to the end of the
      file; from 0, with enough of them, the whole file. */
  lemma {:induction false} ChunkedReads(f: File, pos: nat, sizes: seq<nat>)
    requires Bounded(f) && pos <= f.used
    ensures ReadChunks(f, pos, sizes) == f.buffer[pos..Min(f.used, pos + Sum(sizes))]
    decreases |sizes|
  {
    if sizes == [] {
      ReadChunksNone(f, pos);
    } else {
      var n := ReadRoom(f, pos, sizes[0]);
      var end := Min(f.used, pos + n + Sum(sizes[1..]));
      EndOfReads(f, pos, sizes[0], Sum(sizes[1..]));
      ReadIsSlice(f, pos, sizes[0]);
      ReadChunksNext(f, pos, sizes);
      hide ReadAt, ReadRoom, Min, Sum, ReadChunks;
      ChunkedReads(f, pos + n, sizes[1..]);
      SlicesMeet(f.buffer, pos, pos + n, end);
    }
  }

  lemma {:induction false} SumOfPositive(sizes: seq<nat>)
    requires forall n :: n in sizes ==> n > 0
    ensures Sum(sizes) >= |sizes|
  {
    if sizes != [] {
      assert sizes[0] in sizes;
      assert forall n :: n in sizes[1..] ==> n in sizes;
      SumOfPositive(sizes[1..]);
    }
  }

  /** Reading from 0 in positive sizes, 256 times at most, gives the whole file. */
  lemma ReadsTheWholeFile(f: File, sizes: seq<nat>)
    requires Bounded(f) && |sizes| >= BUFFER_SIZE && forall n :: n in sizes ==> n > 0
    ensures ReadChunks(f, 0, sizes) == f.buffer[..f.used]
  {
    SumOfPositive(sizes);
    ChunkedReads(f, 0, sizes);
  }

  /** After truncation, what is written from 0 in any chunks is read back from 0 in any chunks,
      up to the size of the buffer. */
  lemma ChunkedRoundTrip(f: File, chunks: seq<seq<byte>>, sizes: seq<nat>)
    requires Bounded(f) && Sum(sizes) >= BUFFER_SIZE
    ensures ReadChunks(WriteChunks(Emptied(f), 0, chunks), 0, sizes)
              == Concat(chunks)[..Min(|Concat(chunks)|, BUFFER_SIZE)]
  {
    if chunks != [] {
      ChunkedWrites(Emptied(f), 0, chunks);
    }
    ChunkedReads(WriteChunks(Emptied(f), 0, chunks), 0, sizes);
  }

  // ------------------------------------------------------------------
  // The device's file

  class DeviceFile {
    const buffer: array<byte>
    var used: nat

    ghost predicate Valid()
      reads this
    {
      buffer.Length == BUFFER_SIZE && used <= BUFFER_SIZE
    }

    ghost function Contents(): (f: File)
      requires Valid()
      reads this, buffer
      ensures Bounded(f)
    {
      File(buffer[..], used)
    }

    constructor ()
      ensures Valid() && used == 0 && fresh(buffer)
    {
      buffer := new byte[BUFFER_SIZE](_ => 0);
      used := 0;
    }

    /** A read at `pos`. `faults` says that the copy to the user fails. */
    method Read(pos: nat, count: nat, faults: bool) returns (result: int, data: seq<byte>, pos': nat)
      requires Valid()
      ensures result < 0 <==> faults && pos < used
      ensures result < 0 ==> result == -EFAULT && pos' == pos && data == []
      ensures result >= 0 ==>
                && result == ReadRoom(Contents(), pos, count) && pos' == pos + result
                && data == ReadAt(Contents(), pos, count)
    {
      if pos >= used {
        return 0, [], pos;
      }
      var n := count;
      if pos + n > used {
        n := used - pos;
      }
      if faults {
        return -EFAULT, [], pos;
      }
      return n, buffer[pos..pos + n], pos + n;
    }

    /** A write at `pos`. When the copy from the user faults after `copied` bytes, the rest of the
        range is cleared, and neither the length nor the position moves. */
    method Write(pos: nat, data: seq<byte>, faults: bool, copied: nat) returns (result: int, pos': nat)
      requires Valid()
      modifies this`used, buffer
      ensures Valid()
      ensures result < 0 <==> faults && pos < BUFFER_SIZE
      ensures result < 0 ==>
                && result == -EFAULT && pos' == pos && used == old(used)
                && buffer[..pos] == old(buffer[..pos])
                && (forall j :: 0 <= j < WriteRoom(pos, |data|) ==>
                      buffer[pos + j] == if j < copied then data[j] else 0)
                && buffer[pos + WriteRoom(pos, |data|)..] == old(buffer[pos + WriteRoom(pos, |data|)..])
      ensures result >= 0 ==>
                && result == WriteRoom(pos, |data|) && pos' == pos + result
                && Contents() == WriteAt(old(Contents()), pos, data)
    {
      if pos >= BUFFER_SIZE {
        return 0, pos;
      }
      var n := |data|;
      if pos + n > BUFFER_SIZE {
        n := BUFFER_SIZE - pos;
      }
      ghost var before := buffer[..];
      for i := 0 to n
        invariant Valid() && used == old(used)
        invariant forall j :: 0 <= j < BUFFER_SIZE && !(pos <= j < pos + i) ==> buffer[j] == before[j]
        invariant forall j :: pos <= j < pos + i ==>
                    buffer[j] == if !faults || j - pos < copied then data[j - pos] else 0
      {
        buffer[pos + i] := if !faults || i < copied then data[i] else 0;
      }
      if faults {
        assert n == WriteRoom(pos, |data|);
        assert buffer[..pos] == before[..pos] && buffer[pos + n..] == before[pos + n..];
        return -EFAULT, pos;
      }
      IsSplice(before, pos, data[..n], buffer[..]);
      pos' := pos + n;
      if used < pos' {
        used := pos';
      }
      result := n;
    }

    /** The part of INIT that touches the file. Appending only moves the position, to the end of the
        file; anything else leaves the position where it was, and truncating or write-only opens
        make the file empty. The bytes stay in the buffer in any case. */
    method Init(pos: nat, flags: OpenFlags) returns (pos': nat)
      requires Valid()
      modifies this`used
      ensures Valid()
      ensures buffer[..] == old(buffer[..])
      ensures flags.append ==> pos' == old(used) && Contents() == old(Contents())
      ensures !flags.append ==> pos' == pos
      ensures !flags.append && (flags.truncate || flags.writeOnly) ==> Contents() == Emptied(old(Contents()))
      ensures !flags.truncate && !flags.writeOnly ==> Contents() == old(Contents())
    {
      pos' := pos;
      if flags.append {
        pos' := used;
      } else if flags.truncate || flags.writeOnly {
        used := 0;
      }
    }
  }

  /** The files of mst_pci_bc.c: the file of the device if there is one, and one per minor number
      for opens that found none. */
  class MinorFiles {
    const files: seq<DeviceFile>

    ghost predicate Valid()
      reads files, set f | f in files :: f.buffer
    {
      && |files| == MAX_MINOR
      && (forall f :: f in files ==> f.Valid())
      && (forall i, j :: 0 <= i < j < |files| ==> files[i] != files[j] && files[i].buffer != files[j].buffer)
    }

    constructor (files: seq<DeviceFile>)
      ensures this.files == files
      ensures |files| == 256 && (forall f :: f in files ==> f.Valid())
                && (forall i, j :: 0 <= i < j < |files| ==> files[i] != files[j] && files[i].buffer != files[j].buffer)
              ==> Valid()
    {
      this.files := files;
    }

    predicate Separate(device: DeviceFile?) {
      device != null ==> device !in files && forall f :: f in files ==> f.buffer != device.buffer
    }

    function Selected(device: DeviceFile?, minor: nat): DeviceFile
      requires minor < |files|
    {
      if device != null then device else files[minor]
    }

    method Read(device: DeviceFile?, minor: nat, pos: nat, count: nat, faults: bool)
      returns (result: int, data: seq<byte>, pos': nat)
      requires Valid() && minor < MAX_MINOR && (device != null ==> device.Valid())
      ensures result >= 0 ==>
                && result == ReadRoom(Selected(device, minor).Contents(), pos, count) && pos' == pos + result
                && data == ReadAt(Selected(device, minor).Contents(), pos, count)
      ensures result < 0 <==> faults && pos < Selected(device, minor).used
      ensures result < 0 ==> result == -EFAULT && pos' == pos && data == []
    {
      result, data, pos' := Selected(device, minor).Read(pos, count, faults);
    }

    /** A write goes to the selected file and to no other. */
    method Write(device: DeviceFile?, minor: nat, pos: nat, data: seq<byte>, faults: bool, copied: nat)
      returns (result: int, pos': nat)
      requires Valid() && minor < MAX_MINOR && Separate(device) && (device != null ==> device.Valid())
      modifies Selected(device, minor)`used, Selected(device, minor).buffer
      ensures Valid() && (device != null ==> device.Valid())
      ensures result >= 0 ==>
                && result == WriteRoom(pos, |data|) && pos' == pos + result
                && Selected(device, minor).Contents() == WriteAt(old(Selected(device, minor).Contents()), pos, data)
      ensures result < 0 <==> faults && pos < BUFFER_SIZE
      ensures result < 0 ==>
                && result == -EFAULT && pos' == pos
                && Selected(device, minor).used == old(Selected(device, minor).used)
      ensures forall k :: 0 <= k < MAX_MINOR && (device != null || k != minor) ==>
                files[k].Contents() == old(files[k].Contents())
    {
      result, pos' := Selected(device, minor).Write(pos, data, faults, copied);
    }
  }
}
