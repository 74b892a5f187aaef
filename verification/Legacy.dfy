/** nnt_pci_conf_access_no_vsec.c: devices without the vendor-specific capability. Two kinds of
    gateway exist behind the same pair of registers, and the driver probes for the kind.

    The device is inferred from the code. A plain gateway has a readable address register and
    moves a dword when the data register is accessed. A write-only gateway latches data first;
    writing an address with bit 0 clear stores the latched dword there, writing one with bit 0
    set loads the dword into the data register, and its address register reads as a constant. */
module Legacy {
  import opened Bits
  import opened Blocks

  const DEVICE_ID_OFFSET: U32 := 0xf0014
  const WO_REG_ADDR_DATA: U32 := 0xbadacce5

  datatype LegacyState = LegacyState(address: U32, data: U32, memory: Memory)

  class LegacyPort {
    const writeOnly: bool
    /** The address space the gateway stands for. */
    const space: nat
    /** The error code of the n-th access; 0 when it succeeds. */
    const fails: nat -> int

    var state: LegacyState
    var accesses: nat

    constructor (writeOnly: bool, space: nat, fails: nat -> int, state: LegacyState)
      ensures this.writeOnly == writeOnly && this.space == space && this.fails == fails && this.state == state
    {
      this.writeOnly, this.space, this.fails, this.state, accesses := writeOnly, space, fails, state, 0;
    }

    ghost predicate Healthy() {
      forall n :: fails(n) == 0
    }

    function AddressWritten(s: LegacyState, value: U32): LegacyState {
      if !writeOnly then s.(address := value)
      else if value % 2 == 1 then s.(data := Get(s.memory, Key(space, value - 1)))
      else s.(memory := s.memory[Key(space, value) := s.data])
    }

    function DataWritten(s: LegacyState, value: U32): LegacyState {
      if writeOnly then s.(data := value)
      else s.(memory := s.memory[Key(space, s.address) := value])
    }

    method WriteAddress(value: U32) returns (error: int)
      modifies this
      ensures error == fails(old(accesses)) && accesses == old(accesses) + 1
      ensures state == if error == 0 then AddressWritten(old(state), value) else old(state)
    {
      error := fails(accesses);
      accesses := accesses + 1;
      if error == 0 {
        state := AddressWritten(state, value);
      }
    }

    method WriteData(value: U32) returns (error: int)
      modifies this
      ensures error == fails(old(accesses)) && accesses == old(accesses) + 1
      ensures state == if error == 0 then DataWritten(old(state), value) else old(state)
    {
      error := fails(accesses);
      accesses := accesses + 1;
      if error == 0 {
        state := DataWritten(state, value);
      }
    }

    method ReadAddress() returns (error: int, value: U32)
      modifies this`accesses
      ensures error == fails(old(accesses)) && accesses == old(accesses) + 1
      ensures value == if writeOnly then 0xbadacce5 else state.address
    {
      error, value := fails(accesses), if writeOnly then 0xbadacce5 else state.address;
      accesses := accesses + 1;
    }

    method ReadData() returns (error: int, value: U32)
      modifies this`accesses
      ensures error == fails(old(accesses)) && accesses == old(accesses) + 1
      ensures value == if writeOnly then state.data else Get(state.memory, Key(space, state.address))
    {
      error, value := fails(accesses),
        if writeOnly then state.data else Get(state.memory, Key(space, state.address));
      accesses := accesses + 1;
    }
  }

  /** The driver's view of such a device. */
  class LegacyDevice {
    const port: LegacyPort
    /** `wo_address`: nonzero selects the write-only register order. */
    var woAddress: int

    constructor (port: LegacyPort)
      ensures this.port == port && woAddress == 0
    {
      this.port, woAddress := port, 0;
    }

    /** The probe found the kind of gateway that is there. */
    predicate Matched()
      reads this
    {
      woAddress != 0 <==> port.writeOnly
    }

    /** The write-only register order on a gateway that is not write-only: what a failed probe of a
        plain gateway leads to. */
    predicate Mistaken()
      reads this
    {
      woAddress != 0 && !port.writeOnly
    }

    /** Offsets whose bit 0 does not collide with the write-only gateway's read bit. */
    predicate Addressable(offset: U32) {
      port.writeOnly ==> offset % 2 == 0
    }

    /** Where a read goes: the write-only gateway takes bit 0 for its read bit. */
    function ReadAt(offset: U32): U32 {
      if port.writeOnly then offset - offset % 2 else offset
    }

    /** `is_wo_gw`. The probe is itself an address write, and on a write-only gateway it stores
        whatever data is latched. A refused access of either kind is reported by its code, which
        is not 0 either. */
    method IsWoGw() returns (answer: int)
      modifies port
      ensures port.accesses == old(port.accesses) + (if port.fails(old(port.accesses)) != 0 then 1 else 2)
      ensures var n := old(port.accesses);
              && (answer != 0 <==> port.writeOnly || port.fails(n) != 0 || port.fails(n + 1) != 0)
              && (port.fails(n) != 0 ==> answer == port.fails(n) && port.state == old(port.state))
              && (port.fails(n) == 0 ==> port.state == port.AddressWritten(old(port.state), 0xf0014))
              && (port.fails(n) == 0 && port.fails(n + 1) != 0 ==> answer == port.fails(n + 1))
              && (port.fails(n) == 0 && port.fails(n + 1) == 0 && port.writeOnly ==> answer == 1)
    {
      var data: U32;
      answer := port.WriteAddress(DEVICE_ID_OFFSET);
      if answer != 0 {
        return;
      }
      answer, data := port.ReadAddress();
      if answer != 0 {
        return;
      }
      if data == WO_REG_ADDR_DATA {
        answer := 1;
      }
    }

    /** `init_pciconf_no_vsec`. It always returns 0, and it sets `wo_address` exactly on write-only
        gateways and after a refused access of the probe. */
    method InitPciconfNoVsec() returns (error: int)
      modifies this, port
      ensures error == 0 && port.accesses >= old(port.accesses)
      ensures var n := old(port.accesses);
              && (woAddress != 0 <==> port.writeOnly || port.fails(n) != 0 || port.fails(n + 1) != 0)
              && port.state == if port.fails(n) != 0 then old(port.state)
                               else port.AddressWritten(old(port.state), 0xf0014)
    {
      woAddress := IsWoGw();
      error := 0;
    }

    /** `read_no_vsec`. With the write-only order on a plain gateway it reads the odd address above. */
    method ReadNoVsec(offset: U32) returns (error: int, data: U32)
      modifies port
      ensures port.Healthy() ==> error == 0
      ensures Matched() ==>
                && port.state.memory == old(port.state.memory)
                && (error == 0 ==> data == Get(port.state.memory, Key(port.space, ReadAt(offset))))
      ensures Mistaken() ==>
                && port.state.memory == old(port.state.memory)
                && (error == 0 ==> data == Get(port.state.memory, Key(port.space, offset - offset % 2 + 1)))
    {
      var address := offset;
      data := 0;
      if woAddress != 0 {
        SetBitZero(offset);
        address := Or(offset, 1);
      }
      error := port.WriteAddress(address);
      if error != 0 {
        return;
      }
      error, data := port.ReadData();
    }

    /** `write_no_vsec`. With the write-only order on a plain gateway the dword goes to the address
        that was written before this call. */
    method WriteNoVsec(offset: U32, data: U32) returns (error: int)
      modifies port
      ensures port.Healthy() ==> error == 0
      ensures Matched() && Addressable(offset) ==>
                port.state.memory == if error == 0 then old(port.state.memory)[Key(port.space, offset) := data]
                                     else old(port.state.memory)
      ensures Matched() && !Addressable(offset) ==> port.state.memory == old(port.state.memory)
      ensures Mistaken() && error == 0 ==>
                && port.state.memory == old(port.state.memory)[Key(port.space, old(port.state.address)) := data]
                && port.state.address == offset
      ensures Mistaken() && error != 0 ==>
                port.state.memory in {old(port.state.memory),
                                      old(port.state.memory)[Key(port.space, old(port.state.address)) := data]}
    {
      if woAddress != 0 {
        error := port.WriteData(data);
        if error != 0 {
          return;
        }
        error := port.WriteAddress(offset);
      } else {
        error := port.WriteAddress(offset);
        if error != 0 {
          return;
        }
        error := port.WriteData(data);
      }
    }

    /** The block loop of reads: `moved` dwords went through, and if that is not all of them an access
        was refused and the byte index it had reached is returned, with the rest of the buffer
        untouched. */
    method ReadPciconfNoVsec(offset: U32, size: int, data: array<U32>) returns (error: int, ghost moved: nat)
      requires DwordCount(size) <= data.Length
      modifies port, data
      ensures moved <= DwordCount(size) && error == TransferError(moved, DwordCount(size))
      ensures port.Healthy() ==> moved == DwordCount(size)
      ensures Matched() ==>
                && data[..] == Fetched(old(port.state.memory), port.space, ReadAt(offset), old(data[..]), moved)
                && port.state.memory == old(port.state.memory)
      ensures data[moved..] == old(data[moved..])
    {
      hide Blocks.DwordAddress, LegacyPort.Healthy;
      ghost var base, buffer := port.state.memory, data[..];
      ghost var n := DwordCount(size);
      moved := 0;
      error := 0;
      var counter := 0;
      FetchedNothing(base, port.space, ReadAt(offset), buffer);
      hide Blocks.Fetched;
      while counter < size
        invariant counter == 4 * moved && moved <= n && (moved < n <==> counter < size)
        invariant woAddress == old(woAddress) && data[moved..] == buffer[moved..] && error == 0
        invariant Matched() ==>
                    && port.state.memory == base
                    && data[..] == Fetched(base, port.space, ReadAt(offset), buffer, moved)
      {
        DwordParity(offset, counter / 4);
        var failed, dword := ReadNoVsec(DwordAddress(offset, counter / 4));
        if failed != 0 {
          error := counter;
          return;
        }
        ghost var was := data[..];
        data[counter / 4] := dword;
        assert data[..] == was[moved := dword];
        FetchedStep(base, port.space, ReadAt(offset), buffer, moved);
        moved := moved + 1;
        counter := counter + 4;
      }
    }

    /** The block loop of writes: `moved` dwords went through, and no other was stored. On a write-only
        gateway an odd offset stores nothing at all. The write-only order on a plain gateway stores
        the whole block one dword too early: its first dword goes to the last address written before
        the call, and for the last address of the block nothing is stored. */
    method WritePciconfNoVsec(offset: U32, size: int, data: array<U32>) returns (error: int, ghost moved: nat)
      requires DwordCount(size) <= data.Length
      modifies port
      ensures moved <= DwordCount(size) && error == TransferError(moved, DwordCount(size))
      ensures port.Healthy() ==> moved == DwordCount(size)
      ensures Matched() && Addressable(offset) ==>
                port.state.memory == Written(old(port.state.memory), port.space, offset, data[..], moved)
      ensures Matched() && !Addressable(offset) ==> port.state.memory == old(port.state.memory)
      ensures Mistaken() ==> StoredTooEarly(old(port.state), port.state, port.space, offset, data[..], moved,
                                            moved == DwordCount(size))
    {
      hide Blocks.DwordAddress, LegacyPort.Healthy;
      ghost var s, base := port.state, port.state.memory;
      ghost var n := DwordCount(size);
      moved := 0;
      error := 0;
      var counter := 0;
      NothingTooEarly(s, port.space, offset, data[..]);
      hide TooEarly;
      while counter < size
        invariant counter == 4 * moved && moved <= n && (moved < n <==> counter < size)
        invariant woAddress == old(woAddress) && error == 0
        invariant Matched() && Addressable(offset) ==>
                    port.state.memory == Written(base, port.space, offset, data[..], moved)
        invariant Matched() && !Addressable(offset) ==> port.state.memory == base
        invariant Mistaken() ==> TooEarly(s, port.state, port.space, offset, data[..], moved)
      {
        DwordParity(offset, counter / 4);
        ghost var was := port.state;
        var failed := WriteNoVsec(DwordAddress(offset, counter / 4), data[counter / 4]);
        if failed != 0 {
          error := counter;
          return;
        }
        if Mistaken() {
          TooEarlyNext(s, was, port.state, port.space, offset, data[..], moved);
        }
        moved := moved + 1;
        counter := counter + 4;
      }
    }
  }

  /** `k` dwords went through too early, and if the transfer did not complete the next one may have
      been stored as well. */
  ghost predicate StoredTooEarly(s: LegacyState, s': LegacyState, space: nat, offset: U32, data: seq<U32>, k: nat,
                                 complete: bool)
    requires k <= |data|
  {
    || TooEarly(s, s', space, offset, data, k)
    || (!complete && k < |data|
        && exists t :: TooEarly(s, t, space, offset, data, k)
             && s'.memory in {t.memory, t.memory[Key(space, t.address) := data[k]]})
  }

  /** `k` dwords have been stored, each at the address that belongs to the one before it. */
  predicate TooEarly(s: LegacyState, s': LegacyState, space: nat, offset: U32, data: seq<U32>, k: nat)
    requires k <= |data|
  {
    if k == 0 then s' == s
    else
      && s'.address == DwordAddress(offset, k - 1)
      && s'.memory == Written(s.memory[Key(space, s.address) := data[0]], space, offset, data[1..], k - 1)
  }

  lemma NothingTooEarly(s: LegacyState, space: nat, offset: U32, data: seq<U32>)
    ensures TooEarly(s, s, space, offset, data, 0)
  {
  }

  lemma TooEarlyNext(s: LegacyState, s': LegacyState, s'': LegacyState, space: nat, offset: U32, data: seq<U32>, k: nat)
    requires k < |data| && TooEarly(s, s', space, offset, data, k)
    requires s''.memory == s'.memory[Key(space, s'.address) := data[k]] && s''.address == DwordAddress(offset, k)
    ensures TooEarly(s, s'', space, offset, data, k + 1)
  {
    hide Blocks.DwordAddress;
  }

  /** The dwords of a block are odd or even together, and so are the addresses below them. */
  lemma DwordParity(offset: U32, i: nat)
    ensures DwordAddress(offset, i) % 2 == offset % 2
    ensures DwordAddress(offset - offset % 2, i) == DwordAddress(offset, i) - offset % 2
  {
    var turns := (offset + 4 * i) / WORD_LIMIT;
    var address := DwordAddress(offset, i);
    assert address == offset + 4 * i - 0x1_0000_0000 * turns;
    SameParity(offset, 2 * i - 0x8000_0000 * turns);
    var lower := offset - offset % 2 + 4 * i;
    assert lower == WORD_LIMIT * turns + (address - offset % 2);
    ModuloUnique(lower, WORD_LIMIT, turns, address - offset % 2);
  }

  lemma SameParity(x: nat, k: int)
    requires x + 2 * k >= 0
    ensures (x + 2 * k) % 2 == x % 2
  {
  }

  lemma SetBitZero(offset: U32)
    ensures Or(offset, 1) == offset - offset % 2 + 1
  {
    assert Or(offset / 2, 0) == offset / 2;
  }

  /** A block call through a gateway that refuses no address. */
  function LegacyRead(memory: Memory, space: nat, offset: U32, size: int, buffer: seq<U32>): Outcome
    requires DwordCount(size) <= |buffer|
  {
    Outcome(0, Fetched(memory, space, offset, buffer, DwordCount(size)), memory)
  }

  function LegacyWrite(memory: Memory, space: nat, offset: U32, size: int, data: seq<U32>): Outcome
    requires DwordCount(size) <= |data|
  {
    Outcome(0, data, Written(memory, space, offset, data, DwordCount(size)))
  }
}
