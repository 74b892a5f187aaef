/** Atomicity of the locked calls: whatever the interleaving, memory and every call's report are
    those of running the calls one after another in the order their tickets were accepted. */
module GatewayAtomicity {
  import opened Bits
  import opened Errno
  import opened Registers
  import opened Blocks
  import opened Gateway
  import opened GatewayMutex

  // ------------------------------------------------------------------
  // The calls run one at a time

  /** The part of the device that no call changes. */
  datatype Chip = Chip(status: map<nat, nat>, config: map<nat, U32>)

  function ChipOf(d: Device): Chip {
    Chip(d.status, d.config)
  }

  /** The address space a 32-bit space number selects. */
  function SelectedSpace(space: U32): nat {
    space % 0x1_0000
  }

  function FoundSpaces(chip: Chip, spaces: seq<U32>): (r: seq<bool>)
    ensures |r| == |spaces|
  {
    seq(|spaces|, i requires 0 <= i < |spaces| => Supports(chip.status, SelectedSpace(spaces[i])))
  }

  /** What a call alone on the device does to memory, and what it returns. */
  function Effect(chip: Chip, memory: Memory, call: Call): (Report, Memory) {
    match call
    case ReadBlock(space, offset, size, buffer) =>
      if !Supports(chip.status, SelectedSpace(space)) then (Report(-EINVAL, buffer, [false]), memory)
      else
        var o := BlockRead(memory, SelectedSpace(space), offset, size, buffer);
        (Report(o.error, o.buffer, [true]), o.memory)
    case WriteBlock(space, offset, size, buffer) =>
      if !Supports(chip.status, SelectedSpace(space)) then (Report(-EINVAL, buffer, [false]), memory)
      else
        var o := BlockWrite(memory, SelectedSpace(space), offset, size, buffer);
        (Report(o.error, o.buffer, [true]), o.memory)
    case ReadDword(register) =>
      (Report(0, if register.Other? then [ConfigWord(chip.config, register.offset)] else [], []), memory)
    case ProbeSpaces(spaces) =>
      (Report(0, [], FoundSpaces(chip, spaces)), memory)
  }

  function MemoryAfter(chip: Chip, memory: Memory, calls: seq<Call>): Memory {
    if calls == [] then memory
    else Effect(chip, MemoryAfter(chip, memory, calls[..|calls| - 1]), calls[|calls| - 1]).1
  }

  function ReportsOf(chip: Chip, memory: Memory, calls: seq<Call>): seq<Report> {
    if calls == [] then []
    else
      var before := calls[..|calls| - 1];
      ReportsOf(chip, memory, before)
        + [Effect(chip, MemoryAfter(chip, memory, before), calls[|calls| - 1]).0]
  }

  // ------------------------------------------------------------------
  // Where the owner stands, relative to the memory it found

  ghost predicate Fresh(l: Local) {
    l.index == 0 && l.buffer == CallBuffer(l.call) && l.found == [] && l.error == 0
  }

  ghost predicate Settled(d: Device, base: Memory) {
    !d.busy && d.memory == base
  }

  ghost predicate Selecting(d: Device, l: Local, base: Memory) {
    && Settled(d, base)
    && l.index == 0 && l.buffer == CallBuffer(l.call) && l.error == 0
    && |l.found| <= |Spaces(l.call)| && !l.call.ReadDword?
    && l.found == FoundSpaces(ChipOf(d), Spaces(l.call))[..|l.found|]
    && (!l.call.ProbeSpaces? ==> l.found == [])
  }

  function Limit(l: Local): nat
    requires l.call.ReadBlock? || l.call.WriteBlock?
  {
    Accepted(l.call.offset, 0, DwordCount(l.call.size))
  }

  function DwordKey(l: Local): Key
    requires l.call.ReadBlock? || l.call.WriteBlock?
  {
    Key(SelectedSpace(l.call.space), DwordAddress(l.call.offset, l.index))
  }

  /** `index` dwords are through; `pending` says whether a write of the next one may be under way. */
  ghost predicate Transferring(d: Device, l: Local, base: Memory) {
    && (l.call.ReadBlock? || l.call.WriteBlock?)
    && l.error == 0 && l.found == [true]
    && Supports(d.status, SelectedSpace(l.call.space))
    && SpaceOf(d.control) == SelectedSpace(l.call.space)
    && l.index <= Limit(l)
    && (l.call.ReadBlock? ==>
          && d.memory == base
          && l.buffer == Fetched(base, SelectedSpace(l.call.space), l.call.offset, l.call.buffer, l.index))
    && (l.call.WriteBlock? ==> l.buffer == l.call.buffer)
  }

  ghost predicate HasWritten(d: Device, l: Local, base: Memory, k: nat)
    requires l.call.WriteBlock?
  {
    && k <= |l.call.buffer|
    && d.memory == Written(base, SelectedSpace(l.call.space), l.call.offset, l.call.buffer, k)
  }

  ghost predicate OwnerOk(d: Device, l: Local, base: Memory) {
    match l.pc
    case TicketCheck => Fresh(l) && Settled(d, base)
    case ControlRead => Selecting(d, l, base) && |l.found| < |Spaces(l.call)|
    case ControlWrite => Selecting(d, l, base) && |l.found| < |Spaces(l.call)|
    case ControlCheck => Selecting(d, l, base) && |l.found| < |Spaces(l.call)|
                         && SpaceOf(d.control) == SelectedSpace(CurrentSpace(l))
    case ReadAddress => Transferring(d, l, base) && l.call.ReadBlock? && l.index < Limit(l) && !d.busy
    case ReadPoll => Transferring(d, l, base) && l.call.ReadBlock? && l.index < Limit(l)
                     && AddressOf(d.address) == DwordKey(l).address
                     && (FlagOf(d.address) == if d.busy then 0 else 1)
                     && (!d.busy ==> d.data == Get(base, DwordKey(l)))
    case ReadData => Transferring(d, l, base) && l.call.ReadBlock? && l.index < Limit(l)
                     && !d.busy && d.data == Get(base, DwordKey(l))
    case WriteData => Transferring(d, l, base) && l.call.WriteBlock? && l.index < Limit(l)
                      && !d.busy && HasWritten(d, l, base, l.index)
    case WriteAddress => Transferring(d, l, base) && l.call.WriteBlock? && l.index < Limit(l)
                         && !d.busy && HasWritten(d, l, base, l.index) && d.data == l.buffer[l.index]
    case WritePoll => Transferring(d, l, base) && l.call.WriteBlock? && l.index < Limit(l)
                      && AddressOf(d.address) == DwordKey(l).address
                      && d.data == l.buffer[l.index]
                      && (FlagOf(d.address) == if d.busy then 1 else 0)
                      && HasWritten(d, l, base, if d.busy then l.index else l.index + 1)
    case DwordRead => Fresh(l) && Settled(d, base) && l.call.ReadDword?
    case Clear => !d.busy && Effect(ChipOf(d), base, l.call) == (ReportOf(l), d.memory)
    case _ => false
  }

  // ------------------------------------------------------------------
  // One step of the owner

  /** The head of the block loop, with `index` dwords through. */
  lemma AtLoopHead(d: Device, l: Local, base: Memory)
    requires Transferring(d, l, base) && !d.busy
    requires l.call.WriteBlock? ==> HasWritten(d, l, base, l.index)
    ensures OwnerOk(d, NextDword(l), base)
  {
    hide Registers.SetRwAddress, Registers.SpaceOf, Blocks.DwordAddress, Blocks.Accepted, Blocks.Fetched;
    PackedAddress(DwordAddress(l.call.offset, l.index), READ_OPERATION);
  }

  lemma AtNextSpace(d: Device, l: Local, base: Memory)
    requires Selecting(d, l, base) && !(l.call.ReadBlock? || l.call.WriteBlock?)
    ensures OwnerOk(d, NextSpace(l), base)
  {
    hide Registers.SetRwAddress;
    if |l.found| == |Spaces(l.call)| {
      assert l.found == FoundSpaces(ChipOf(d), Spaces(l.call));
    }
  }

  lemma AtEntry(d: Device, l: Local, base: Memory)
    requires Fresh(l) && Settled(d, base)
    ensures OwnerOk(d, EnterCritical(l), base)
  {
    if !l.call.ReadDword? && !l.call.ReadBlock? && !l.call.WriteBlock? {
      assert Selecting(d, l, base) by {
        assert l.found == FoundSpaces(ChipOf(d), Spaces(l.call))[..0];
      }
      AtNextSpace(d, l, base);
    }
    hide Registers.SetRwAddress;
  }

  lemma StatusOfMerged(control: U32, status: nat)
    requires status < 8
    ensures StatusOf(WithStatus(control, status)) == status
  {
    Powers();
    hide Merge, Extract, Pow2;
    ExtractOfMerge(control, status, STATUS_BIT_OFFSET, STATUS_BIT_LEN);
    assert status % 8 == status;
  }

  lemma StatusReadBack(d: Device)
    ensures StatusOf(ControlWord(d)) == SpaceStatus(d.status, SpaceOf(d.control))
  {
    StatusOfMerged(d.control, SpaceStatus(d.status, SpaceOf(d.control)));
    hide Registers.StatusOf, Registers.SpaceOf, Gateway.WithStatus, Gateway.SpaceStatus;
  }

  lemma ControlReadStep(d: Device, l: Local, base: Memory)
    requires OwnerOk(d, l, base) && l.pc in {ControlRead, ControlWrite}
    ensures OwnerOk(CriticalStep(d, l).0, CriticalStep(d, l).1, base)
  {
    hide Registers.SelectSpace, Registers.StatusOf, Registers.SpaceOf, Gateway.ControlWord;
    if l.pc == ControlWrite {
      SelectSpaceFields(l.value, CurrentSpace(l));
    }
  }

  lemma ControlCheckStep(d: Device, l: Local, base: Memory)
    requires OwnerOk(d, l, base) && l.pc == ControlCheck
    ensures OwnerOk(CriticalStep(d, l).0, CriticalStep(d, l).1, base)
  {
    hide Registers.StatusOf, Registers.SpaceOf, Registers.SetRwAddress, Gateway.ControlWord;
    StatusReadBack(d);
    var ok := Supports(d.status, SelectedSpace(CurrentSpace(l)));
    var l' := l.(value := ControlWord(d), found := l.found + [ok]);
    assert !l.call.ProbeSpaces? ==> l'.found == [ok];
    if l.call.ProbeSpaces? {
      assert l'.found == FoundSpaces(ChipOf(d), Spaces(l.call))[..|l'.found|];
      AtNextSpace(d, l', base);
    } else if ok {
      assert l'.buffer == Fetched(base, SelectedSpace(l.call.space), l.call.offset, l.call.buffer, 0);
      AtLoopHead(d, l', base);
    }
  }

  /** What a transfer word says of the dword at hand. */
  lemma TransferWordFields(l: Local, rw: U32)
    requires (l.call.ReadBlock? || l.call.WriteBlock?) && rw < 2
    requires DwordAddress(l.call.offset, l.index) < ADDRESS_LIMIT
    ensures AddressOf(TransferWord(l, rw)) == DwordKey(l).address && FlagOf(TransferWord(l, rw)) == rw
  {
    var address := DwordAddress(l.call.offset, l.index);
    PackedAddress(address, rw);
    PackedAddressRecovers(address, rw);
    hide Registers.SetRwAddress, Registers.FlagOf, Registers.AddressOf, Blocks.DwordAddress;
  }

  lemma ReadStarts(d: Device, l: Local, base: Memory)
    requires OwnerOk(d, l, base) && l.pc == ReadAddress
    ensures OwnerOk(CriticalStep(d, l).0, CriticalStep(d, l).1, base)
  {
    var word := TransferWord(l, READ_OPERATION);
    TransferWordFields(l, READ_OPERATION);
    hide Registers.FlagOf, Registers.AddressOf, Registers.SpaceOf, Gateway.TransferWord;
    hide Blocks.Fetched, Blocks.DwordAddress, Blocks.Accepted, Gateway.Supports;
    assert CriticalStep(d, l) == (StartTransfer(d, word), l.(pc := ReadPoll, polls := 0));
    hide Gateway.CriticalStep;
  }

  lemma ReadDelivers(d: Device, l: Local, base: Memory)
    requires OwnerOk(d, l, base) && l.pc == ReadData
    ensures OwnerOk(CriticalStep(d, l).0, CriticalStep(d, l).1, base)
  {
    var l' := l.(buffer := l.buffer[l.index := d.data], index := l.index + 1);
    FetchedStep(base, SelectedSpace(l.call.space), l.call.offset, l.call.buffer, l.index);
    hide Registers.FlagOf, Registers.AddressOf, Registers.SpaceOf, Registers.SetRwAddress;
    hide Blocks.Fetched, Blocks.DwordAddress, Gateway.Supports;
    AtLoopHead(d, l', base);
    assert CriticalStep(d, l) == (d, NextDword(l')) by {
      hide OwnerOk, Gateway.SpaceSelected, Gateway.TransferWord, Registers.SelectSpace, Registers.StatusOf, NextDword;
    }
    hide OwnerOk, Gateway.NextDword, Gateway.CriticalStep;
  }

  lemma ReadStep(d: Device, l: Local, base: Memory)
    requires OwnerOk(d, l, base) && l.pc in {ReadAddress, ReadPoll, ReadData}
    requires l.pc == ReadPoll && l.polls + 1 >= 0x10000 ==> FlagOf(d.address) == 1
    ensures OwnerOk(CriticalStep(d, l).0, CriticalStep(d, l).1, base)
  {
    if l.pc == ReadAddress {
      ReadStarts(d, l, base);
    } else if l.pc == ReadData {
      ReadDelivers(d, l, base);
    } else {
      hide Registers.FlagOf, Registers.AddressOf, Registers.SpaceOf, Blocks.Fetched, Blocks.DwordAddress;
    }
  }

  lemma WriteStarts(d: Device, l: Local, base: Memory)
    requires OwnerOk(d, l, base) && l.pc == WriteAddress
    ensures OwnerOk(CriticalStep(d, l).0, CriticalStep(d, l).1, base)
  {
    var word := TransferWord(l, WRITE_OPERATION);
    TransferWordFields(l, WRITE_OPERATION);
    hide Registers.FlagOf, Registers.AddressOf, Registers.SpaceOf, Gateway.TransferWord;
    hide Blocks.Written, Blocks.DwordAddress, Blocks.Accepted, Gateway.Supports;
    assert CriticalStep(d, l) == (StartTransfer(d, word), l.(pc := WritePoll, polls := 0));
    hide Gateway.CriticalStep;
  }

  lemma WriteHandsOver(d: Device, l: Local, base: Memory)
    requires OwnerOk(d, l, base) && l.pc == WriteData
    ensures OwnerOk(CriticalStep(d, l).0, CriticalStep(d, l).1, base)
  {
    hide Registers.FlagOf, Registers.AddressOf, Registers.SpaceOf;
    hide Blocks.Written, Blocks.DwordAddress, Blocks.Accepted, Gateway.Supports;
    assert CriticalStep(d, l) == (d.(data := l.buffer[l.index]), l.(pc := WriteAddress));
    hide Gateway.CriticalStep;
  }

  lemma WritePolled(d: Device, l: Local, base: Memory)
    requires OwnerOk(d, l, base) && l.pc == WritePoll && FlagOf(d.address) == 0
    ensures OwnerOk(CriticalStep(d, l).0, CriticalStep(d, l).1, base)
  {
    var l' := l.(index := l.index + 1);
    hide Registers.FlagOf, Registers.AddressOf, Registers.SpaceOf, Registers.SetRwAddress;
    hide Blocks.Written, Blocks.DwordAddress, Gateway.Supports;
    AtLoopHead(d, l', base);
    assert CriticalStep(d, l) == (d, NextDword(l'));
    hide OwnerOk, Gateway.NextDword;
  }

  lemma WriteStep(d: Device, l: Local, base: Memory)
    requires OwnerOk(d, l, base) && l.pc in {WriteData, WriteAddress, WritePoll}
    requires l.pc == WritePoll && l.polls + 1 >= 0x10000 ==> FlagOf(d.address) == 0
    ensures OwnerOk(CriticalStep(d, l).0, CriticalStep(d, l).1, base)
  {
    if l.pc == WriteData {
      WriteHandsOver(d, l, base);
    } else if l.pc == WriteAddress {
      WriteStarts(d, l, base);
    } else if FlagOf(d.address) == 0 {
      WritePolled(d, l, base);
    } else {
      hide Registers.FlagOf, Registers.AddressOf, Registers.SpaceOf, Blocks.Written, Blocks.DwordAddress;
    }
  }

  /** Completion flips the flag and keeps the address. */
  lemma CompletedAddress(word: U32)
    ensures AddressOf(word) + FLAG < WORD_LIMIT
    ensures AddressOf(AddressOf(word) + FLAG) == AddressOf(word) && FlagOf(AddressOf(word) + FLAG) == 1
    ensures AddressOf(AddressOf(word)) == AddressOf(word) && FlagOf(AddressOf(word)) == 0
  {
    hide Registers.FlagOf, Registers.AddressOf;
    FlagAndAddress(word);
    FlagAndAddress(AddressOf(word));
    FlagAndAddress(AddressOf(word) + FLAG);
  }

  /** The device finishing under the owner is what the owner waits for. */
  lemma CompleteStep(d: Device, l: Local, base: Memory)
    requires OwnerOk(d, l, base)
    ensures OwnerOk(CompleteTransfer(d), l, base)
  {
    hide Registers.FlagOf, Registers.AddressOf, Registers.SpaceOf;
    CompletedAddress(d.address);
  }

  /** The owner's position does not depend on the semaphore and the ticket counter. */
  lemma TicketsAside(d: Device, l: Local, base: Memory, semaphore: nat, counter: nat)
    requires OwnerOk(d, l, base)
    ensures OwnerOk(d.(semaphore := semaphore, counter := counter), l, base)
  {
    hide Registers.FlagOf, Registers.AddressOf, Registers.SpaceOf, Gateway.Supports, Gateway.CallBuffer;
    hide Blocks.Written, Blocks.Fetched, Blocks.Accepted, Blocks.DwordAddress, FoundSpaces, Effect;
  }

  // ------------------------------------------------------------------
  // The invariant of clean runs

  /** `wait_on_flag` gives up: the device did not complete within its polls. */
  predicate Late(s: State, e: Event) {
    e.Access? && e.agent in s.agents
    && var l := s.agents[e.agent];
       l.polls + 1 >= 0x10000
       && (|| (l.pc == ReadPoll && FlagOf(s.device.address) != 1)
           || (l.pc == WritePoll && FlagOf(s.device.address) != 0))
  }

  /** No lock attempt fails, no access is refused and the device completes in time. */
  predicate Clean(s: State, events: seq<Event>)
    decreases |events|
  {
    events != [] ==>
      !LockFails(s, events[0]) && !events[0].Refuse? && !Late(s, events[0])
      && Clean(Next(s, events[0]), events[1..])
  }

  /** A clean run has no event of these three kinds. */
  lemma {:induction false} CleanExactly(s: State, events: seq<Event>)
    ensures Clean(s, events) <==>
            forall i :: 0 <= i < |events| ==>
              var t := Run(s, events[..i]);
              !LockFails(t, events[i]) && !events[i].Refuse? && !Late(t, events[i])
    decreases |events|
  {
    hide Next, LockFails, Late;
    if events != [] {
      var s1, rest := Next(s, events[0]), events[1..];
      CleanExactly(s1, rest);
      assert events[..0] == [] && Run(s, []) == s;
      forall i | 0 <= i < |rest| ensures Run(s, events[..i + 1]) == Run(s1, rest[..i]) && events[i + 1] == rest[i] {
        assert events[..i + 1][0] == events[0] && events[..i + 1][1..] == rest[..i];
      }
      if Clean(s, events) {
        forall i | 0 <= i < |events|
          ensures var t := Run(s, events[..i]);
                  !LockFails(t, events[i]) && !events[i].Refuse? && !Late(t, events[i])
        {
          if i > 0 {
            assert Run(s, events[..i - 1 + 1]) == Run(s1, rest[..i - 1]) && events[i] == rest[i - 1];
          }
        }
      }
      if forall i :: 0 <= i < |events| ==>
           var t := Run(s, events[..i]);
           !LockFails(t, events[i]) && !events[i].Refuse? && !Late(t, events[i])
      {
        forall i | 0 <= i < |rest|
          ensures var t := Run(s1, rest[..i]);
                  !LockFails(t, rest[i]) && !rest[i].Refuse? && !Late(t, rest[i])
        {
          assert Run(s, events[..i + 1]) == Run(s1, rest[..i]) && events[i + 1] == rest[i];
        }
      }
    }
  }

  /** A late device is one whose driver leaves its polls without having seen the flag. */
  lemma LateExactly(s: State, e: Event)
    ensures Late(s, e) <==>
            && e.Access? && e.agent in s.agents
            && var l := s.agents[e.agent];
               && ((l.pc == ReadPoll && FlagOf(s.device.address) == 0)
                   || (l.pc == WritePoll && FlagOf(s.device.address) == 1))
               && Next(s, e).agents[e.agent].pc != l.pc
  {
    FieldsInArithmetic(s.device.address);
    hide Registers.FlagOf, Registers.SetRwAddress, Gateway.TransferWord, Gateway.ControlWord, Registers.SelectSpace;
  }

  /** A lock fails when an agent that was in it comes to its clear with an error. */
  lemma LockFailsExactly(s: State, e: Event)
    requires forall a :: a in s.agents && InLock(s.agents[a]) ==> Fresh(s.agents[a])
    ensures LockFails(s, e) <==>
            && (e.Access? || e.Refuse?) && e.agent in s.agents && InLock(s.agents[e.agent])
            && var l := Next(s, e).agents[e.agent];
               l.pc == Clear && l.error != 0
  {
    hide Registers.SetRwAddress;
  }

  ghost predicate Atomic(s: State, chip: Chip, memory: Memory) {
    && Exclusive(s) && Owned(s)
    && ChipOf(s.device) == chip
    && (forall a :: a in s.agents && InLock(s.agents[a]) ==> Fresh(s.agents[a]))
    && |s.reports| <= |s.accepted| == |s.owners| && s.finishers == s.owners[..|s.reports|]
    && s.reports == ReportsOf(chip, memory, s.accepted[..|s.reports|])
    && var base := MemoryAfter(chip, memory, s.accepted[..|s.reports|]);
       && (s.device.semaphore == 0 ==> |s.accepted| == |s.reports| && Settled(s.device, base))
       && (s.device.semaphore != 0 ==>
             && |s.accepted| == |s.reports| + 1
             && (forall a :: a in s.agents && Owns(s.device, s.agents[a]) ==>
                   a == s.owners[|s.reports|] && s.agents[a].call == s.accepted[|s.reports|]
                   && OwnerOk(s.device, s.agents[a], base)))
  }

  /** An agent that does not own the semaphore moved, and only the ticket counter may differ. */
  lemma BystanderMoves(s: State, s': State, a: nat, chip: Chip, memory: Memory)
    requires Atomic(s, chip, memory) && Exclusive(s') && Owned(s')
    requires a in s'.agents && s'.agents == s.agents[a := s'.agents[a]]
    requires a in s.agents ==> !Owns(s.device, s.agents[a])
    requires s'.device == s.device.(counter := s'.device.counter)
    requires s'.accepted == s.accepted && s'.reports == s.reports
    requires s'.owners == s.owners && s'.finishers == s.finishers
    requires InLock(s'.agents[a]) && Fresh(s'.agents[a]) && !Owns(s'.device, s'.agents[a])
    ensures Atomic(s', chip, memory)
  {
    var base := MemoryAfter(chip, memory, s.accepted[..|s.reports|]);
    forall b | b in s'.agents && Owns(s'.device, s'.agents[b])
      ensures b == s'.owners[|s'.reports|] && s'.agents[b].call == s'.accepted[|s'.reports|]
      ensures OwnerOk(s'.device, s'.agents[b], base)
    {
      TicketsAside(s.device, s.agents[b], base, s.device.semaphore, s'.device.counter);
    }
    hide OwnerOk;
  }

  /** The owner moved. */
  lemma OwnerMoves(s: State, s': State, a: nat, chip: Chip, memory: Memory)
    requires Atomic(s, chip, memory) && Exclusive(s') && Owned(s')
    requires a in s.agents && Owns(s.device, s.agents[a])
    requires a in s'.agents && s'.agents == s.agents[a := s'.agents[a]]
    requires s'.device.semaphore == s.device.semaphore && ChipOf(s'.device) == chip
    requires s'.accepted == s.accepted && s'.reports == s.reports
    requires s'.owners == s.owners && s'.finishers == s.finishers
    requires s'.agents[a].call == s.agents[a].call && s'.agents[a].ticket == s.agents[a].ticket
    requires !InLock(s'.agents[a])
    requires OwnerOk(s'.device, s'.agents[a], MemoryAfter(chip, memory, s.accepted[..|s.reports|]))
    ensures Atomic(s', chip, memory)
  {
    forall b | b in s'.agents && Owns(s'.device, s'.agents[b]) ensures b == a {
      OnlyOwner(s', a, b);
    }
    hide OwnerOk;
  }

  lemma OnlyOwner(s: State, a: nat, b: nat)
    requires Exclusive(s) && a in s.agents && b in s.agents
    requires Owns(s.device, s.agents[a]) && Owns(s.device, s.agents[b])
    ensures a == b
  {
  }

  /** The semaphore accepted the ticket of an agent. */
  lemma TicketAccepted(s: State, a: nat, chip: Chip, memory: Memory)
    requires Atomic(s, chip, memory) && a in s.agents && s.agents[a].pc == TicketWrite
    requires s.device.semaphore == 0
    ensures Atomic(Next(s, Access(a)), chip, memory)
  {
    var s' := Next(s, Access(a));
    NextExclusive(s, Access(a));
    assert Standing(s.device, s.agents[a]) && Fresh(s.agents[a]);
    assert s'.accepted[..|s'.reports|] == s.accepted[..|s.reports|];
    assert s'.owners[..|s'.reports|] == s.owners[..|s.reports|];
    hide ReportsOf, MemoryAfter;
    forall b | b in s'.agents && Owns(s'.device, s'.agents[b]) ensures b == a {
      OnlyOwner(s', a, b);
    }
  }

  /** The owner read its ticket back. */
  lemma TicketReadBack(s: State, a: nat, chip: Chip, memory: Memory)
    requires Atomic(s, chip, memory) && a in s.agents && s.agents[a].pc == TicketCheck
    requires s.agents[a].ticket == s.device.semaphore
    ensures Atomic(Next(s, Access(a)), chip, memory)
  {
    var l := s.agents[a];
    var s' := Next(s, Access(a));
    NextExclusive(s, Access(a));
    assert Standing(s.device, l) && Fresh(l) && Owns(s.device, l);
    AtEntry(s.device, l, MemoryAfter(chip, memory, s.accepted[..|s.reports|]));
    EnterKeeps(l);
    hide EnterCritical, OwnerOk;
    OwnerMoves(s, s', a, chip, memory);
  }

  lemma LockStepAtomic(s: State, a: nat, chip: Chip, memory: Memory)
    requires Atomic(s, chip, memory) && a in s.agents && InLock(s.agents[a])
    requires !LockFails(s, Access(a))
    ensures Atomic(Next(s, Access(a)), chip, memory)
  {
    var l := s.agents[a];
    if l.pc == TicketWrite && s.device.semaphore == 0 {
      TicketAccepted(s, a, chip, memory);
    } else if l.pc == TicketCheck && l.ticket == s.device.semaphore {
      TicketReadBack(s, a, chip, memory);
    } else {
      NextExclusive(s, Access(a));
      assert Standing(s.device, l) && Fresh(l);
      hide EnterCritical, OwnerOk;
      BystanderMoves(s, Next(s, Access(a)), a, chip, memory);
    }
  }

  lemma CriticalStepAtomic(s: State, a: nat, chip: Chip, memory: Memory)
    requires Atomic(s, chip, memory) && a in s.agents && InCritical(s.agents[a]) && s.agents[a].pc != Clear
    requires !Late(s, Access(a))
    ensures Atomic(Next(s, Access(a)), chip, memory)
  {
    var l := s.agents[a];
    var s' := Next(s, Access(a));
    var base := MemoryAfter(chip, memory, s.accepted[..|s.reports|]);
    NextExclusive(s, Access(a));
    assert Standing(s.device, l);
    assert Owns(s.device, l);
    CriticalStepKeeps(s.device, l);
    CriticalStepKeepsChip(s.device, l);
    OwnerSteps(s.device, l, base);
    hide CriticalStep, OwnerOk;
    OwnerMoves(s, s', a, chip, memory);
  }

  lemma CriticalStepKeepsChip(d: Device, l: Local)
    requires InCritical(l) && l.pc != Clear
    ensures ChipOf(CriticalStep(d, l).0) == ChipOf(d)
  {
    hide Registers.SelectSpace, Gateway.ControlWord, Registers.StatusOf, Registers.FlagOf, Registers.SetRwAddress;
  }

  lemma OwnerSteps(d: Device, l: Local, base: Memory)
    requires InCritical(l) && l.pc != Clear && OwnerOk(d, l, base)
    requires l.polls + 1 >= 0x10000 && l.pc == ReadPoll ==> FlagOf(d.address) == 1
    requires l.polls + 1 >= 0x10000 && l.pc == WritePoll ==> FlagOf(d.address) == 0
    ensures OwnerOk(CriticalStep(d, l).0, CriticalStep(d, l).1, base)
  {
    if l.pc in {ControlRead, ControlWrite} {
      ControlReadStep(d, l, base);
    } else if l.pc == ControlCheck {
      ControlCheckStep(d, l, base);
    } else if l.pc in {ReadAddress, ReadPoll, ReadData} {
      ReadStep(d, l, base);
    } else if l.pc in {WriteData, WriteAddress, WritePoll} {
      WriteStep(d, l, base);
    } else {
      hide Gateway.ControlWord;
    }
  }

  lemma ClearAtomic(s: State, a: nat, chip: Chip, memory: Memory)
    requires Atomic(s, chip, memory) && a in s.agents && s.agents[a].pc == Clear
    ensures Atomic(Next(s, Access(a)), chip, memory)
  {
    var s' := Next(s, Access(a));
    NextExclusive(s, Access(a));
    assert Standing(s.device, s.agents[a]);
    assert Owns(s.device, s.agents[a]);
    var k := |s.reports|;
    assert s'.accepted[..k + 1][..k] == s.accepted[..k];
    assert s.accepted == s'.accepted[..k + 1];
    assert s'.finishers == s'.owners[..k + 1];
  }

  lemma CompleteAtomic(s: State, chip: Chip, memory: Memory)
    requires Atomic(s, chip, memory)
    ensures Atomic(Next(s, Complete), chip, memory)
  {
    var s' := Next(s, Complete);
    var base := MemoryAfter(chip, memory, s.accepted[..|s.reports|]);
    NextExclusive(s, Complete);
    CompleteKeeps(s.device);
    forall b | b in s'.agents && Owns(s'.device, s'.agents[b])
      ensures b == s'.owners[|s'.reports|] && s'.agents[b].call == s'.accepted[|s'.reports|]
      ensures OwnerOk(s'.device, s'.agents[b], base)
    {
      CompleteStep(s.device, s.agents[b], base);
    }
    hide OwnerOk;
  }

  lemma NextAtomic(s: State, e: Event, chip: Chip, memory: Memory)
    requires Atomic(s, chip, memory)
    requires !LockFails(s, e) && !e.Refuse? && !Late(s, e)
    ensures Atomic(Next(s, e), chip, memory)
  {
    match e
    case Start(agent, call) =>
      if agent !in s.agents {
        NextExclusive(s, e);
        BystanderMoves(s, Next(s, e), agent, chip, memory);
      }
    case Access(agent) =>
      if agent in s.agents {
        if s.agents[agent].pc == Clear {
          ClearAtomic(s, agent, chip, memory);
        } else if InLock(s.agents[agent]) {
          LockStepAtomic(s, agent, chip, memory);
        } else {
          CriticalStepAtomic(s, agent, chip, memory);
        }
      }
    case Complete =>
      CompleteAtomic(s, chip, memory);
  }

  lemma {:induction false} RunAtomic(s: State, events: seq<Event>, chip: Chip, memory: Memory)
    requires Atomic(s, chip, memory) && Clean(s, events)
    ensures Atomic(Run(s, events), chip, memory)
    decreases |events|
  {
    if events != [] {
      NextAtomic(s, events[0], chip, memory);
      RunAtomic(Next(s, events[0]), events[1..], chip, memory);
    }
  }

  /** Atomicity: for any number of agents and any interleaving of their accesses with each other
      and with the device, on a clean run every finished call returned to its agent what it
      returns when the accepted calls run one after another in the order of their tickets, and
      whenever the semaphore is free memory is what they leave. */
  lemma Atomicity(s: State, events: seq<Event>)
    requires Initial(s) && Clean(s, events)
    ensures var r := Run(s, events);
            var chip := ChipOf(s.device);
            && |r.reports| <= |r.accepted| <= |r.reports| + 1
            && r.reports == ReportsOf(chip, s.device.memory, r.accepted[..|r.reports|])
            && |r.owners| == |r.accepted| && r.finishers == r.owners[..|r.reports|]
            && (r.device.semaphore == 0 ==>
                  |r.reports| == |r.accepted|
                  && r.device.memory == MemoryAfter(chip, s.device.memory, r.accepted))
  {
    InitialExclusive(s);
    RunAtomic(s, events, ChipOf(s.device), s.device.memory);
    var r := Run(s, events);
    if r.device.semaphore == 0 {
      assert r.accepted[..|r.reports|] == r.accepted;
    }
  }
}
