/** The three register orders implement one memory: any sequence of block calls is answered alike by
    the driver's VSEC path, by its path for plain gateways and by its path for write-only ones. */
module OneSpecification {
  import opened Bits
  import opened Registers
  import opened Blocks
  import opened Gateway
  import opened GatewayAtomicity
  import opened Legacy
  import opened VsecPort
  import opened VsecDriver

  datatype BlockOp =
    | ReadOp(offset: U32, size: int, buffer: seq<U32>)
    | WriteOp(offset: U32, size: int, buffer: seq<U32>)

  predicate Fits(op: BlockOp) {
    DwordCount(op.size) <= |op.buffer|
  }

  /** Every dword of the call lies below the 30-bit limit. */
  predicate BelowLimit(op: BlockOp) {
    DwordCount(op.size) == 0 || op.offset + 4 * (DwordCount(op.size) - 1) < ADDRESS_LIMIT
  }

  /** What the caller of one block call sees. */
  datatype Answer = Answer(error: int, buffer: seq<U32>)

  function VsecCall(space: U32, op: BlockOp): Call
    requires Fits(op)
  {
    match op
    case ReadOp(offset, size, buffer) => ReadBlock(space, offset, size, buffer)
    case WriteOp(offset, size, buffer) => WriteBlock(space, offset, size, buffer)
  }

  function VsecStep(chip: Chip, memory: Memory, space: U32, op: BlockOp): (Answer, Memory)
    requires Fits(op)
  {
    var (report, memory') := Effect(chip, memory, VsecCall(space, op));
    (Answer(report.error, report.buffer), memory')
  }

  function LegacyStep(memory: Memory, space: nat, op: BlockOp): (Answer, Memory)
    requires Fits(op)
  {
    var o := match op
      case ReadOp(offset, size, buffer) => LegacyRead(memory, space, offset, size, buffer)
      case WriteOp(offset, size, buffer) => LegacyWrite(memory, space, offset, size, buffer);
    (Answer(o.error, o.buffer), o.memory)
  }

  function VsecRun(chip: Chip, memory: Memory, space: U32, ops: seq<BlockOp>): (seq<Answer>, Memory)
    requires forall op :: op in ops ==> Fits(op)
    decreases |ops|
  {
    if ops == [] then ([], memory)
    else
      var (answer, memory') := VsecStep(chip, memory, space, ops[0]);
      var (answers, memory'') := VsecRun(chip, memory', space, ops[1..]);
      ([answer] + answers, memory'')
  }

  function LegacyRun(memory: Memory, space: nat, ops: seq<BlockOp>): (seq<Answer>, Memory)
    requires forall op :: op in ops ==> Fits(op)
    decreases |ops|
  {
    if ops == [] then ([], memory)
    else
      var (answer, memory') := LegacyStep(memory, space, ops[0]);
      var (answers, memory'') := LegacyRun(memory', space, ops[1..]);
      ([answer] + answers, memory'')
  }

  lemma BelowLimitAcceptsAll(op: BlockOp)
    requires BelowLimit(op)
    ensures Accepted(op.offset, 0, DwordCount(op.size)) == DwordCount(op.size)
  {
    var n := DwordCount(op.size);
    forall j | 0 <= j < n ensures DwordAddress(op.offset, j) < ADDRESS_LIMIT {
      assert op.offset + 4 * j < ADDRESS_LIMIT;
    }
    AcceptedUnique(op.offset, 0, n, n);
  }

  /** On a supported space, the sequential effects of block calls below the 30-bit limit are those
      of a memory without that limit. */
  lemma {:induction false} SameAnswers(chip: Chip, memory: Memory, space: U32, ops: seq<BlockOp>)
    requires Supports(chip.status, SelectedSpace(space))
    requires forall op :: op in ops ==> Fits(op) && BelowLimit(op)
    ensures VsecRun(chip, memory, space, ops) == LegacyRun(memory, SelectedSpace(space), ops)
    decreases |ops|
  {
    if ops != [] {
      BelowLimitAcceptsAll(ops[0]);
      SameAnswers(chip, VsecStep(chip, memory, space, ops[0]).1, space, ops[1..]);
    }
  }

  /** A memory on which a call that does not stay below the limit has another effect through the VSEC
      gateway than through the others: from the limit on nothing is moved at all, without an error. */
  lemma SeparatingMemory(chip: Chip, space: U32, op: BlockOp) returns (memory: Memory)
    requires Supports(chip.status, SelectedSpace(space)) && Fits(op) && !BelowLimit(op)
    ensures VsecStep(chip, memory, space, op) != LegacyStep(memory, SelectedSpace(space), op)
  {
    HowFar(op.offset, op.size);
    memory := map[];
    if op.offset >= ADDRESS_LIMIT {
      var n := DwordCount(op.size);
      if op.ReadOp? {
        var other := if op.buffer[0] == 0 then 1 else 0;
        var key := Key(SelectedSpace(space), op.offset);
        memory := map[key := other];
        assert DwordAddress(op.offset, 0) == op.offset;
        assert Fetched(memory, SelectedSpace(space), op.offset, op.buffer, n)[0] == other;
        assert Fetched(memory, SelectedSpace(space), op.offset, op.buffer, 0)[0] == op.buffer[0];
      } else {
        var last := Key(SelectedSpace(space), DwordAddress(op.offset, n - 1));
        assert last in Written(memory, SelectedSpace(space), op.offset, op.buffer, n);
        assert Written(memory, SelectedSpace(space), op.offset, op.buffer, 0) == memory;
      }
    }
  }

  /** The limit is what separates the gateways: on a supported space a call, at whatever offset, has
      the same return value, buffer and effect on every memory if and only if all its dwords lie below
      the limit. */
  lemma SameExactlyBelowLimit(chip: Chip, space: U32, op: BlockOp)
    requires Supports(chip.status, SelectedSpace(space)) && Fits(op)
    ensures (forall memory :: VsecStep(chip, memory, space, op) == LegacyStep(memory, SelectedSpace(space), op))
            <==> BelowLimit(op)
  {
    if BelowLimit(op) {
      forall memory ensures VsecStep(chip, memory, space, op) == LegacyStep(memory, SelectedSpace(space), op) {
        BelowLimitAcceptsAll(op);
      }
    } else {
      var memory := SeparatingMemory(chip, space, op);
      hide VsecStep, LegacyStep;
    }
  }

  /** The return value alone does not tell: it also agrees from the limit on, where the VSEC path moves
      nothing and the other one the whole block. */
  lemma SameErrorExactly(chip: Chip, memory: Memory, space: U32, op: BlockOp)
    requires Supports(chip.status, SelectedSpace(space)) && Fits(op)
    ensures VsecStep(chip, memory, space, op).0.error == LegacyStep(memory, SelectedSpace(space), op).0.error
            <==> BelowLimit(op) || op.offset >= ADDRESS_LIMIT
  {
    HowFar(op.offset, op.size);
    if BelowLimit(op) {
      BelowLimitAcceptsAll(op);
    }
  }

  /** A block stored with the effect of any of the gateways is fetched with the effect of any. */
  lemma RoundTripEffects(chip: Chip, memory: Memory, space: U32, offset: U32, size: int,
                         data: seq<U32>, buffer: seq<U32>)
    requires Supports(chip.status, SelectedSpace(space))
    requires DwordCount(size) <= DWORD_LIMIT && |data| == |buffer| && DwordCount(size) <= |data|
    requires BelowLimit(WriteOp(offset, size, data))
    ensures var written := VsecStep(chip, memory, space, WriteOp(offset, size, data)).1;
            && written == LegacyStep(memory, SelectedSpace(space), WriteOp(offset, size, data)).1
            && VsecStep(chip, written, space, ReadOp(offset, size, buffer))
               == LegacyStep(written, SelectedSpace(space), ReadOp(offset, size, buffer))
               == (Answer(0, data[..DwordCount(size)] + buffer[DwordCount(size)..]), written)
  {
    BelowLimitAcceptsAll(WriteOp(offset, size, data));
    ReadAfterWrite(memory, SelectedSpace(space), offset, size, data, buffer);
  }

  // ------------------------------------------------------------------
  // The three gateways side by side

  /** A copy of the buffer of a call. */
  method BufferOf(op: BlockOp) returns (data: array<U32>)
    ensures fresh(data) && data[..] == op.buffer
  {
    data := new U32[|op.buffer|](i requires 0 <= i < |op.buffer| => op.buffer[i]);
  }

  /** The caller's side of the VSEC gateway: nobody else uses it, it is idle and in time, and the
      space is supported. */
  ghost predicate VsecReady(port: Port, space: U32)
    reads port
  {
    && port.Valid() && port.RacesEnd() && Undisturbed(port, port.state) && Reliable(port, port.state)
    && Supports(port.state.device.status, SelectedSpace(space))
  }

  /** One call through `read_pciconf` or `write_pciconf`. */
  method CallVsec(port: Port, space: U32, op: BlockOp) returns (answer: Answer)
    requires VsecReady(port, space) && Fits(op)
    modifies port
    ensures VsecReady(port, space)
    ensures (answer, port.state.device.memory)
         == VsecStep(ChipOf(old(port.state.device)), old(port.state.device.memory), space, op)
    ensures ChipOf(port.state.device) == ChipOf(old(port.state.device))
  {
    hide Effect, VsecPort.Port.RacesEnd, VsecPort.Port.Healthy, VsecPort.Port.Alone, VsecPort.Port.Timely, LockedAt;
    var data := BufferOf(op);
    var error: int;
    ghost var p: Passage;
    match op {
      case ReadOp(offset, size, _) =>
        error, p := ReadPciconf(port, space, offset, size, data);
      case WriteOp(offset, size, _) =>
        error, p := WritePciconf(port, space, offset, size, data);
        WriteKeepsBuffer(ChipOf(port.lockedAt.device), port.lockedAt.device.memory, space, op);
    }
    answer := Answer(error, data[..]);
  }

  lemma WriteKeepsBuffer(chip: Chip, memory: Memory, space: U32, op: BlockOp)
    requires Fits(op) && op.WriteOp?
    ensures VsecStep(chip, memory, space, op).0.buffer == op.buffer
  {
  }

  /** A device whose probe found the kind of gateway that is there. */
  ghost predicate LegacyReady(device: LegacyDevice, space: U32)
    reads device
  {
    device.port.Healthy() && device.Matched() && device.port.space == SelectedSpace(space)
  }

  /** One call through `read_pciconf_no_vsec` or `write_pciconf_no_vsec`. */
  method CallLegacy(device: LegacyDevice, space: U32, op: BlockOp) returns (answer: Answer)
    requires LegacyReady(device, space) && Fits(op) && op.offset % 2 == 0
    modifies device.port
    ensures LegacyReady(device, space)
    ensures (answer, device.port.state.memory) == LegacyStep(old(device.port.state.memory), SelectedSpace(space), op)
  {
    var data := BufferOf(op);
    var error: int;
    ghost var moved: nat;
    match op {
      case ReadOp(offset, size, _) =>
        error, moved := device.ReadPciconfNoVsec(offset, size, data);
      case WriteOp(offset, size, _) =>
        error, moved := device.WritePciconfNoVsec(offset, size, data);
    }
    answer := Answer(error, data[..]);
  }

  /** The calls, one after another, through all three. */
  method CallAll(port: Port, plain: LegacyDevice, writeOnly: LegacyDevice, space: U32, ops: seq<BlockOp>)
    returns (vsec: seq<Answer>, direct: seq<Answer>, latched: seq<Answer>)
    requires VsecReady(port, space) && LegacyReady(plain, space) && LegacyReady(writeOnly, space)
    requires plain.port != writeOnly.port
    requires forall op :: op in ops ==> Fits(op) && BelowLimit(op) && op.offset % 2 == 0
    requires port.state.device.memory == plain.port.state.memory == writeOnly.port.state.memory
    modifies port, plain.port, writeOnly.port
    decreases |ops|
    ensures VsecReady(port, space) && LegacyReady(plain, space) && LegacyReady(writeOnly, space)
    ensures vsec == direct == latched
    ensures port.state.device.memory == plain.port.state.memory == writeOnly.port.state.memory
    ensures (vsec, port.state.device.memory) == LegacyRun(old(port.state.device.memory), SelectedSpace(space), ops)
  {
    vsec, direct, latched := [], [], [];
    if ops != [] {
      var op := ops[0];
      BelowLimitAcceptsAll(op);
      StepsAgree(ChipOf(port.state.device), port.state.device.memory, space, op);
      hide VsecStep, LegacyStep, VsecReady;
      var a := CallVsec(port, space, op);
      var b := CallLegacy(plain, space, op);
      var c := CallLegacy(writeOnly, space, op);
      vsec, direct, latched := CallAll(port, plain, writeOnly, space, ops[1..]);
      vsec, direct, latched := [a] + vsec, [b] + direct, [c] + latched;
    }
  }

  lemma StepsAgree(chip: Chip, memory: Memory, space: U32, op: BlockOp)
    requires Fits(op) && BelowLimit(op) && Supports(chip.status, SelectedSpace(space))
    ensures VsecStep(chip, memory, space, op) == LegacyStep(memory, SelectedSpace(space), op)
  {
    BelowLimitAcceptsAll(op);
  }

  /** One specification, three gateways. The two devices without the capability are initialised,
      whatever `wo_address` was before; then any sequence of block reads and writes at even offsets
      below the 30-bit limit gives the same return values, buffers and memories through the VSEC path
      on a supported space, through the plain order and through the write-only order. The memories
      are compared from the state after initialisation, because the probe of a write-only gateway
      stores its latched dword. */
  method OneMemory(port: Port, plain: LegacyDevice, writeOnly: LegacyDevice, space: U32, ops: seq<BlockOp>)
    returns (vsec: seq<Answer>, direct: seq<Answer>, latched: seq<Answer>)
    requires VsecReady(port, space)
    requires plain.port.Healthy() && !plain.port.writeOnly && plain.port.space == SelectedSpace(space)
    requires writeOnly.port.Healthy() && writeOnly.port.writeOnly && writeOnly.port.space == SelectedSpace(space)
    requires forall op :: op in ops ==> Fits(op) && BelowLimit(op) && op.offset % 2 == 0
    requires port.state.device.memory == plain.port.state.memory
          == writeOnly.port.AddressWritten(writeOnly.port.state, 0xf0014).memory
    modifies port, plain, plain.port, writeOnly, writeOnly.port
    ensures vsec == direct == latched
    ensures port.state.device.memory == plain.port.state.memory == writeOnly.port.state.memory
    ensures (vsec, port.state.device.memory) == LegacyRun(old(port.state.device.memory), SelectedSpace(space), ops)
  {
    hide LegacyRun, VsecReady;
    var _ := plain.InitPciconfNoVsec();
    var _ := writeOnly.InitPciconfNoVsec();
    vsec, direct, latched := CallAll(port, plain, writeOnly, space, ops);
  }

  /** A block written through the three gateways is read back through each of them. */
  method CrossGatewayRoundTrip(port: Port, plain: LegacyDevice, writeOnly: LegacyDevice, space: U32,
                               offset: U32, size: int, data: seq<U32>, buffer: seq<U32>)
    returns (vsec: Answer, direct: Answer, latched: Answer)
    requires VsecReady(port, space) && LegacyReady(plain, space) && LegacyReady(writeOnly, space)
    requires plain.port != writeOnly.port
    requires DwordCount(size) <= DWORD_LIMIT && |data| == |buffer| && DwordCount(size) <= |data|
    requires BelowLimit(WriteOp(offset, size, data)) && offset % 2 == 0
    requires port.state.device.memory == plain.port.state.memory == writeOnly.port.state.memory
    modifies port, plain.port, writeOnly.port
    ensures vsec == direct == latched == Answer(0, data[..DwordCount(size)] + buffer[DwordCount(size)..])
    ensures port.state.device.memory == plain.port.state.memory == writeOnly.port.state.memory
  {
    var write, read := WriteOp(offset, size, data), ReadOp(offset, size, buffer);
    ghost var chip, memory := ChipOf(port.state.device), port.state.device.memory;
    RoundTripEffects(chip, memory, space, offset, size, data, buffer);
    hide VsecStep, LegacyStep, VsecReady, LegacyReady, LegacyRun;
    var a1, b1, c1 := CallAll(port, plain, writeOnly, space, [write]);
    var a2, b2, c2 := CallAll(port, plain, writeOnly, space, [read]);
    OneCall(memory, SelectedSpace(space), write);
    OneCall(LegacyStep(memory, SelectedSpace(space), write).1, SelectedSpace(space), read);
    assert a2 == [LegacyStep(LegacyStep(memory, SelectedSpace(space), write).1, SelectedSpace(space), read).0];
    return a2[0], b2[0], c2[0];
  }

  lemma OneCall(memory: Memory, space: nat, op: BlockOp)
    requires Fits(op)
    ensures LegacyRun(memory, space, [op]).0 == [LegacyStep(memory, space, op).0]
    ensures LegacyRun(memory, space, [op]).1 == LegacyStep(memory, space, op).1
  {
    hide LegacyStep;
    var memory' := LegacyStep(memory, space, op).1;
    assert [op][1..] == [];
    assert LegacyRun(memory', space, []) == ([], memory');
  }
}
