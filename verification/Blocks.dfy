/** What a block transfer means: device memory is a map from (space, address) to dwords, and
    a call moves consecutive dwords until it is done or an address is refused. Every gateway
    in this project is proved against these functions. */
module Blocks {
  import opened Bits
  import opened Registers

  datatype Key = Key(space: nat, address: nat)

  type Memory = map<Key, U32>

  function Get(memory: Memory, key: Key): U32 {
    if key in memory then memory[key] else 0
  }

  /** The number of iterations of `for (counter = 0; counter < size; counter += 4)`. */
  function DwordCount(size: int): nat {
    if size <= 0 then 0 else (size + 3) / 4
  }

  /** `offset + counter` in unsigned arithmetic, at the i-th iteration. */
  function DwordAddress(offset: U32, i: nat): U32 {
    (offset + 4 * i) % WORD_LIMIT
  }

  /** Memory after the first `k` dwords of a block write. */
  function Written(memory: Memory, space: nat, offset: U32, data: seq<U32>, k: nat): Memory
    requires k <= |data|
  {
    if k == 0 then memory
    else Written(memory, space, offset, data, k - 1)[Key(space, DwordAddress(offset, k - 1)) := data[k - 1]]
  }

  /** The caller's buffer after the first `k` dwords of a block read. */
  function Fetched(memory: Memory, space: nat, offset: U32, buffer: seq<U32>, k: nat): (r: seq<U32>)
    requires k <= |buffer|
    ensures |r| == |buffer|
  {
    seq(|buffer|, i requires 0 <= i < |buffer| =>
      if i < k then Get(memory, Key(space, DwordAddress(offset, i))) else buffer[i])
  }

  lemma FetchedNothing(memory: Memory, space: nat, offset: U32, buffer: seq<U32>)
    ensures Fetched(memory, space, offset, buffer, 0) == buffer
  {
  }

  lemma FetchedStep(memory: Memory, space: nat, offset: U32, buffer: seq<U32>, k: nat)
    requires k < |buffer|
    ensures Fetched(memory, space, offset, buffer, k)[k := Get(memory, Key(space, DwordAddress(offset, k)))]
         == Fetched(memory, space, offset, buffer, k + 1)
  {
  }

  /** The number of leading dwords, out of `n`, whose addresses are not refused. */
  function Accepted(offset: U32, i: nat, n: nat): (r: nat)
    requires i <= n
    ensures i <= r <= n
    ensures forall j :: i <= j < r ==> DwordAddress(offset, j) < ADDRESS_LIMIT
    ensures r < n ==> DwordAddress(offset, r) >= ADDRESS_LIMIT
    decreases n - i
  {
    if i == n || DwordAddress(offset, i) >= ADDRESS_LIMIT then i else Accepted(offset, i + 1, n)
  }

  /** The count is the only one with those two properties. */
  lemma {:induction false} AcceptedUnique(offset: U32, i: nat, n: nat, k: nat)
    requires i <= k <= n
    requires forall j :: i <= j < k ==> DwordAddress(offset, j) < ADDRESS_LIMIT
    requires k < n ==> DwordAddress(offset, k) >= ADDRESS_LIMIT
    ensures Accepted(offset, i, n) == k
    decreases k - i
  {
    if i < k {
      AcceptedUnique(offset, i + 1, n, k);
    }
  }

  /** What a block call leaves behind: its return value, its buffer and the memory. */
  datatype Outcome = Outcome(error: int, buffer: seq<U32>, memory: Memory)

  /** The return value when `k` of `n` dwords went through: the byte index of the refused one. */
  function TransferError(k: nat, n: nat): int {
    if k == n then 0 else 4 * k
  }

  function BlockRead(memory: Memory, space: nat, offset: U32, size: int, buffer: seq<U32>): Outcome
    requires DwordCount(size) <= |buffer|
  {
    var n := DwordCount(size);
    var k := Accepted(offset, 0, n);
    Outcome(TransferError(k, n), Fetched(memory, space, offset, buffer, k), memory)
  }

  function BlockWrite(memory: Memory, space: nat, offset: U32, size: int, data: seq<U32>): Outcome
    requires DwordCount(size) <= |data|
  {
    var n := DwordCount(size);
    var k := Accepted(offset, 0, n);
    Outcome(TransferError(k, n), data, Written(memory, space, offset, data, k))
  }

  // ------------------------------------------------------------------
  // Laws of block transfers.

  /** The number of dwords that 32-bit addresses can tell apart. */
  const DWORD_LIMIT := 0x4000_0000

  /** The dwords of one block have distinct addresses, wrapped or not. */
  lemma AddressesDistinct(offset: U32, i: nat, j: nat)
    requires i < j <= i + DWORD_LIMIT - 1
    ensures DwordAddress(offset, i) != DwordAddress(offset, j)
  {
  }

  lemma PlainAddress(offset: U32, i: nat)
    requires offset + 4 * i < ADDRESS_LIMIT + 4
    ensures DwordAddress(offset, i) == offset + 4 * i
  {
  }

  /** A block write changes exactly the addressed dwords of its space. */
  lemma {:induction false} WrittenAt(memory: Memory, space: nat, offset: U32, data: seq<U32>, k: nat, key: Key)
    requires k <= |data| && k <= DWORD_LIMIT
    ensures (forall j :: 0 <= j < k ==> key != Key(space, DwordAddress(offset, j))) ==>
              Get(Written(memory, space, offset, data, k), key) == Get(memory, key)
    ensures forall j :: 0 <= j < k && key == Key(space, DwordAddress(offset, j)) ==>
              Get(Written(memory, space, offset, data, k), key) == data[j]
  {
    hide DwordAddress;
    if k > 0 {
      WrittenAt(memory, space, offset, data, k - 1, key);
      forall j | 0 <= j < k - 1 ensures DwordAddress(offset, j) != DwordAddress(offset, k - 1) {
        AddressesDistinct(offset, j, k - 1);
      }
    }
  }

  /** Reading a block back after writing it returns what was written, up to the refused dword,
      and leaves the rest of the reader's buffer alone. */
  lemma ReadAfterWrite(memory: Memory, space: nat, offset: U32, size: int, data: seq<U32>, buffer: seq<U32>)
    requires DwordCount(size) <= DWORD_LIMIT && DwordCount(size) <= |data| && |buffer| == |data|
    ensures var w := BlockWrite(memory, space, offset, size, data);
            var r := BlockRead(w.memory, space, offset, size, buffer);
            var k := Accepted(offset, 0, DwordCount(size));
            r.error == w.error && r.memory == w.memory && r.buffer == data[..k] + buffer[k..]
  {
    var n := DwordCount(size);
    var k := Accepted(offset, 0, n);
    var m := Written(memory, space, offset, data, k);
    var r := Fetched(m, space, offset, buffer, k);
    forall i | 0 <= i < |r| ensures r[i] == (data[..k] + buffer[k..])[i] {
      if i < k {
        WrittenAt(memory, space, offset, data, k, Key(space, DwordAddress(offset, i)));
      }
    }
  }

  /** How far a transfer gets: up to the 30-bit limit, and nowhere from beyond it. */
  lemma HowFar(offset: U32, size: int)
    ensures offset >= ADDRESS_LIMIT ==> Accepted(offset, 0, DwordCount(size)) == 0
    ensures offset < ADDRESS_LIMIT ==>
              Accepted(offset, 0, DwordCount(size)) ==
              var room := (ADDRESS_LIMIT - offset + 3) / 4;
              if DwordCount(size) <= room then DwordCount(size) else room
  {
    var n := DwordCount(size);
    if offset < ADDRESS_LIMIT {
      var room := (ADDRESS_LIMIT - offset + 3) / 4;
      var k := if n <= room then n else room;
      forall j | 0 <= j < k ensures DwordAddress(offset, j) < ADDRESS_LIMIT {
        assert offset + 4 * j < ADDRESS_LIMIT;
      }
      assert k < n ==> DwordAddress(offset, k) >= ADDRESS_LIMIT by {
        assert offset + 4 * room >= ADDRESS_LIMIT;
      }
      AcceptedUnique(offset, 0, n, k);
    }
  }

  /** Partial reads: one that starts below the limit returns 0 exactly when every dword lies
      below it, and otherwise the byte index of the first one that does not, leaving the buffer
      alone from there on. One that starts beyond the limit reads nothing and also returns 0. */
  lemma PartialRead(memory: Memory, space: nat, offset: U32, size: int, buffer: seq<U32>)
    requires DwordCount(size) <= |buffer|
    ensures var r := BlockRead(memory, space, offset, size, buffer);
            var n := DwordCount(size);
            && (offset >= ADDRESS_LIMIT ==> r.error == 0 && r.buffer == buffer)
            && (offset < ADDRESS_LIMIT ==>
                 && (r.error == 0 <==> offset + 4 * n < ADDRESS_LIMIT + 4)
                 && (r.error != 0 ==> ADDRESS_LIMIT <= offset + r.error < ADDRESS_LIMIT + 4 && r.error % 4 == 0)
                 && (forall i :: 0 <= i < |buffer| ==>
                      r.buffer[i] == if i < n && offset + 4 * i < ADDRESS_LIMIT
                                     then Get(memory, Key(space, offset + 4 * i)) else buffer[i]))
  {
    HowFar(offset, size);
    forall i: nat | offset + 4 * i < ADDRESS_LIMIT ensures DwordAddress(offset, i) == offset + 4 * i {
      PlainAddress(offset, i);
    }
    hide Accepted, DwordAddress;
  }

  /** Partial writes: same return value, and exactly the dwords below the limit are stored. */
  lemma PartialWrite(memory: Memory, space: nat, offset: U32, size: int, data: seq<U32>, key: Key)
    requires DwordCount(size) <= |data|
    ensures var w := BlockWrite(memory, space, offset, size, data);
            var n := DwordCount(size);
            var i := (key.address - offset) / 4;
            var addressed := key.space == space && offset <= key.address < ADDRESS_LIMIT
                             && (key.address - offset) % 4 == 0 && i < n;
            && w.error == BlockRead(memory, space, offset, size, data).error
            && (offset >= ADDRESS_LIMIT ==> w.memory == memory)
            && Get(w.memory, key) == if addressed then data[i] else Get(memory, key)
  {
    HowFar(offset, size);
    var k := Accepted(offset, 0, DwordCount(size));
    hide Accepted, DwordAddress, Written;
    assert k == 0 ==> Written(memory, space, offset, data, k) == memory by {
      NothingWritten(memory, space, offset, data);
    }
    if offset < ADDRESS_LIMIT {
      WrittenBelowLimit(memory, space, offset, data, k, key);
    }
  }

  lemma NothingWritten(memory: Memory, space: nat, offset: U32, data: seq<U32>)
    ensures Written(memory, space, offset, data, 0) == memory
  {
  }

  lemma {:induction false} WrittenBelowLimit(memory: Memory, space: nat, offset: U32, data: seq<U32>, k: nat, key: Key)
    requires k <= |data| && offset + 4 * k < ADDRESS_LIMIT + 4
    ensures Get(Written(memory, space, offset, data, k), key) ==
            if key.space == space && offset <= key.address < offset + 4 * k && (key.address - offset) % 4 == 0
            then data[(key.address - offset) / 4] else Get(memory, key)
  {
    if k > 0 {
      WrittenBelowLimit(memory, space, offset, data, k - 1, key);
      PlainAddress(offset, k - 1);
    }
  }
}
