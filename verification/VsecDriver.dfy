/** nnt_pci_conf_access.c: the semaphore, the address spaces and the block transfers. */
module VsecDriver {
  import opened Bits
  import opened Errno
  import opened Registers
  import opened Blocks
  import opened Gateway
  import opened GatewayMutex
  import opened GatewayAtomicity
  import opened Accesses
  import opened AgentViews
  import opened VsecPort

  method ClearVsecSemaphore(port: Port) returns (error: int)
    requires port.Valid()
    modifies port
    ensures port.Valid()
    ensures |port.trace| == |old(port.trace)| + 1 && old(port.trace) <= port.trace
    ensures port.trace[|old(port.trace)|] in {Put(Semaphore, 0), Failed}
    ensures error != 0 ==> port.state == old(port.state) && port.trace[|old(port.trace)|] == Failed
    ensures error == 0 ==>
              && port.trace[|old(port.trace)|] == Put(Semaphore, 0)
              && port.state == old(port.state).(device := old(port.state.device).(semaphore := 0), held := false)
    ensures port.Healthy() ==> error == 0
    ensures port.lockedAt == old(port.lockedAt)
    ensures ClearSeen(old(port.Look()), port.Look())
  {
    hide WriteSeen, ClearSeen, VsecPort.Port.Look;
    ghost var v := port.Look();
    error := port.PciWrite(Semaphore, 0);
    ClearFollows(v, error, port.Look());
  }

  /** Offers a ticket: read the counter, write it to the semaphore, read the semaphore back. */
  method GetSemaphoreTicket(port: Port, lockValue0: nat, counter0: nat)
    returns (error: int, lockValue: nat, counter: nat)
    requires port.Valid() && !port.state.held
    modifies port
    ensures port.Valid()
    ensures Waited(old(port.state), port.state)
    ensures port.Alone() ==> OnlyTickets(old(port.state), port.state)
    ensures TicketAccesses(port.trace, |old(port.trace)|)
    ensures error == 0 && port.state.held ==> port.lockedAt == port.state
    ensures var n := |old(port.trace)|;
            error == 0 ==>
              && port.trace == old(port.trace)
                   + [Got(Counter, counter), Put(Semaphore, counter), Got(Semaphore, lockValue)]
              && 0 < counter < port.state.device.counter
              && (lockValue == counter <==> !port.rival(n + 1))
              && (port.state.held <==> lockValue == counter)
    ensures old(port.trace) <= port.trace && |port.trace| <= |old(port.trace)| + 3
    ensures port.Healthy() ==> error == 0
    ensures TicketSeen(old(port.Look()), counter, lockValue, error, port.Look())
  {
    hide ReadSeen, WriteSeen, TicketSeen, VsecPort.Port.Look;
    ghost var v := port.Look();
    lockValue, counter := lockValue0, counter0;
    error, counter := port.PciRead(Counter);
    ghost var v1 := port.Look();
    if error != 0 {
      CounterRefused(v, error, counter, counter, lockValue, v1);
      return;
    }
    port.TicketOffered(port.state, |port.trace|, counter);
    hide VsecPort.Port.WriteEffect, VsecPort.Port.DeviceMoves;
    error := port.PciWrite(Semaphore, counter);
    ghost var v2 := port.Look();
    if error != 0 {
      OfferRefused(v, counter, v1, error, lockValue, v2);
      return;
    }
    port.SemaphoreReadEffect(port.state, |port.trace|);
    hide VsecPort.Port.ReadEffect;
    error, lockValue := port.PciRead(Semaphore);
    TicketFollows(v, counter, v1, v2, error, lockValue, port.Look());
  }

  /** The conditions under which the lock is certain. */
  ghost predicate Undisturbed(port: Port, s: PortState) {
    port.Healthy() && port.Alone() && !s.held
  }

  function RacesLeft(quiet: nat, accesses: nat): nat {
    if accesses < quiet then quiet - accesses else 0
  }

  /** The state of the do/while loop at its head: `seg` is what it has accessed since the trace was
      `t0`, and `stuck` says that the caller held the semaphore before it began. */
  ghost predicate InLoop(port: Port, s0: PortState, t0: seq<Entry>, seg: seq<Entry>,
                         retries: nat, counter: nat, again: bool)
    reads port
  {
    && port.Valid() && WaitedFor(s0, port.state, Undisturbed(port, s0))
    && port.trace == t0 + seg && EndsWithSemaphoreRead(seg) && TicketAccesses(port.trace, |t0|)
    && counter < port.state.device.counter
    && (s0.held ==> again && port.state.held && counter == 0)
    && (!s0.held ==> (again <==> !port.state.held))
    && (again <==> !TicketMatches(seg)) && (!again ==> port.lockedAt == port.state)
    && BusyReads(seg) == retries <= 0x1001
    && (!again ==> retries <= 0x1000)
    && (Undisturbed(port, s0) && again ==> retries == 0)
  }

  /** One turn of the do/while loop. `again` is its test, `counter != lock_value`. */
  method LockTurn(port: Port, retries0: nat, counter0: nat,
                  ghost s0: PortState, ghost t0: seq<Entry>, ghost seg0: seq<Entry>, ghost v0: View)
    returns (error: int, again: bool, retries: nat, counter: nat, ghost seg: seq<Entry>)
    requires InLoop(port, s0, t0, seg0, retries0, counter0, true) && port.RacesEnd()
    requires retries0 <= 0x1000
    requires TurnSeen(v0, retries0, counter0, true, port.Look())
    modifies port
    ensures error == 0 ==>
              && InLoop(port, s0, t0, seg, retries, counter, again)
              && |port.trace| > |old(port.trace)|
              && (retries == retries0 && again ==> |old(port.trace)| < port.quiet)
              && retries >= retries0
    ensures error != 0 ==>
              && !port.Healthy() && port.Valid() && Waited(s0, port.state)
              && t0 <= port.trace && TicketAccesses(port.trace, |t0|)
    ensures error == 0 ==> TurnSeen(v0, retries, counter, again, port.Look())
    ensures error != 0 ==> LockSeen(v0, error, port.Look())
  {
    hide ReadSeen, TicketSeen, TurnSeen, LockSeen, VsecPort.Port.Look;
    hide VsecPort.BusyReads, VsecPort.TicketMatches, VsecPort.Port.ReadEffect, Gateway.CompleteTransfer;
    hide VsecPort.Port.Alone, VsecPort.TicketAccesses;
    var lockValue: nat;
    again, retries, counter, seg := true, retries0, counter0, seg0;
    ghost var s, t, v1 := port.state, port.trace, port.Look();
    port.SemaphoreReadEffect(s, |t|);
    if Undisturbed(port, s0) {
      NobodyElse(port, |t|);
      NobodyElse(port, |t| + 2);
    }
    error, lockValue := port.PciRead(Semaphore);
    ghost var v2 := port.Look();
    if error != 0 {
      TurnRefused(v0, retries, counter, v1, error, lockValue, v2);
      OneTicketAccess(t, |t0|, Failed);
      return;
    }
    OneTicketAccess(t, |t0|, Got(Semaphore, lockValue));
    AppendSemaphoreRead(seg, lockValue);
    seg := seg + [Got(Semaphore, lockValue)];
    if lockValue != 0 {
      BusyTurn(v0, retries, counter, v1, lockValue, v2);
      retries := retries + 1;
    } else {
      t := port.trace;
      ghost var counter0 := counter;
      error, lockValue, counter := GetSemaphoreTicket(port, lockValue, counter);
      FreeTurn(v0, retries, counter0, v1, v2, counter, lockValue, error, port.Look());
      MoreTicketAccesses(t, |t0|, port.trace);
      if error != 0 {
        return;
      }
      AppendTicket(seg, counter, lockValue);
      seg := seg + [Got(Counter, counter), Put(Semaphore, counter), Got(Semaphore, lockValue)];
    }
    again := counter != lockValue;
  }

  /** The lock. The loop ends because only finitely many ticket races are lost and only busy reads
      count as retries; without refused accesses it returns 0 exactly when a read-back matches its
      ticket, and -EINVAL exactly after 0x1001 busy reads. A caller that still holds the semaphore,
      because an earlier clear was refused, never gets it. */
  method LockVsecSemaphore(port: Port) returns (error: int)
    requires port.Valid() && port.RacesEnd()
    modifies port
    ensures port.Valid()
    ensures Waited(old(port.state), port.state)
    ensures old(port.trace) <= port.trace && TicketAccesses(port.trace, |old(port.trace)|)
    ensures error == 0 ==> port.state.held && !old(port.state.held) && port.lockedAt == port.state
    ensures port.Healthy() ==>
              && error in {0, -22}
              && (error == 0 <==> TicketMatches(port.trace[|old(port.trace)|..]))
              && (error == 0 <==> port.state.held && !old(port.state.held))
              && (error == -EINVAL <==> BusyReads(port.trace[|old(port.trace)|..]) == 0x1001)
    ensures Undisturbed(port, old(port.state)) ==> error == 0 && OnlyTickets(old(port.state), port.state)
    ensures LockSeen(old(port.Look()), error, port.Look())
  {
    var counter: nat := 0;
    var retries: nat := 0;
    error := 0;
    ghost var s0, t0 := port.state, port.trace;
    ghost var seg: seq<Entry> := [];
    var again := true;
    ghost var v0 := port.Look();
    TurnsBegin(v0);
    EmptyTrace();
    assert InLoop(port, s0, t0, seg, retries, counter, again);
    hide VsecPort.BusyReads, VsecPort.TicketMatches, VsecPort.Port.Healthy, InLoop;
    hide TurnSeen, LockSeen, VsecPort.Port.Look;
    while again
      invariant error == 0 && InLoop(port, s0, t0, seg, retries, counter, again)
      invariant TurnSeen(v0, retries, counter, again, port.Look())
      decreases if again then 1 else 0, RacesLeft(port.quiet, |port.trace|), 0x1001 - retries
    {
      if retries > SEMAPHORE_MAX_RETRIES {
        LoopLeft(port, s0, t0, seg, retries, counter, again);
        LockEnds(v0, retries, counter, again, port.Look());
        return -EINVAL;
      }
      error, again, retries, counter, seg :=
        LockTurn(port, retries, counter, s0, t0, seg, v0);
      if error != 0 {
        return;
      }
    }
    LoopLeft(port, s0, t0, seg, retries, counter, again);
    LockEnds(v0, retries, counter, again, port.Look());
  }

  lemma LoopLeft(port: Port, s0: PortState, t0: seq<Entry>, seg: seq<Entry>, retries: nat, counter: nat, again: bool)
    requires InLoop(port, s0, t0, seg, retries, counter, again)
    ensures port.trace[|t0|..] == seg && t0 <= port.trace && port.Valid()
    ensures WaitedFor(s0, port.state, Undisturbed(port, s0)) && TicketAccesses(port.trace, |t0|)
    ensures again <==> !TicketMatches(seg)
    ensures !again ==> port.state.held && !s0.held && port.lockedAt == port.state && retries <= 0x1000
    ensures again ==> port.state.held == s0.held
    ensures BusyReads(seg) == retries <= 0x1001
    ensures Undisturbed(port, s0) && again ==> retries == 0
  {
  }

  ghost predicate WaitedFor(s: PortState, s': PortState, calm: bool) {
    Waited(s, s') && (calm ==> OnlyTickets(s, s'))
  }

  lemma NobodyElse(port: Port, n: nat)
    requires port.Alone()
    ensures !port.rival(n) && port.others(n).Untouched?
  {
  }

  lemma OneTicketAccess(t: seq<Entry>, n: nat, e: Entry)
    requires TicketAccesses(t, n) && (e.Failed? || e.register in {Semaphore, Counter})
    ensures TicketAccesses(t + [e], n)
  {
  }

  lemma ClearIsTicketAccess(t: seq<Entry>, n: nat, t': seq<Entry>)
    requires TicketAccesses(t, n) && |t'| == |t| + 1 && t <= t' && t'[|t|] in {Put(Semaphore, 0), Failed}
    ensures TicketAccesses(t', n)
  {
  }

  lemma MoreTicketAccesses(t: seq<Entry>, n: nat, t': seq<Entry>)
    requires TicketAccesses(t, n) && t <= t' && TicketAccesses(t', |t|)
    ensures TicketAccesses(t', n)
  {
  }

  lemma EmptyTrace()
    ensures BusyReads([]) == 0 && !TicketMatches([])
  {
  }

  /** How the lock went, told from the accesses it made. */
  ghost predicate LockedAt(port: Port, before: seq<Entry>, trace: seq<Entry>, start: nat, locked: bool) {
    && |before| <= start <= |trace|
    && (port.Healthy() ==>
          && (locked <==> TicketMatches(trace[|before|..start]))
          && (!locked <==> BusyReads(trace[|before|..start]) == 0x1001))
  }

  /** What a read of a register gives to the holder of the semaphore; the device may move while its
      address register is looked at. */
  ghost function Shown(port: Port, s: PortState, register: Register): nat {
    ReadRegister(if register == Address then port.DeviceMoves(s).device else s.device, register).1
  }

  /** `read_dword`. It returns what the register showed when the semaphore was taken. */
  method ReadDword(port: Port, register: Register)
    returns (error: int, data: nat, ghost start: nat, ghost locked: bool)
    requires port.Valid() && port.RacesEnd()
    modifies port
    ensures port.Valid() && old(port.trace) <= port.trace && EndsWithClear(port.trace)
    ensures LockedAt(port, old(port.trace), port.trace, start, locked)
    ensures |port.trace| == start + (if locked then 2 else 1)
    ensures !locked ==> error != 0 && data == 0
    ensures Undisturbed(port, old(port.state)) ==> locked && OnlyTickets(old(port.state), port.lockedAt)
    ensures locked ==>
              && Waited(old(port.state), port.lockedAt)
              && (error == 0 ==> data == Shown(port, port.lockedAt, register))
    ensures port.Healthy() ==>
              && error == (if locked then 0 else -EINVAL)
              && (locked && register.Other? ==>
                    data == ConfigWord(old(port.state.device.config), register.offset))
    ensures old(port.Idle()) ==>
              && port.Idle()
              && var report := Report(error, if error == 0 && register.Other? then [Word(data)] else [], []);
                 port.Returned() == old(port.Returned()) + [Done(AnyCall.ReadDword(register), report)]
  {
    hide Gateway.CompleteTransfer, Gateway.ControlWord, VsecPort.BusyReads, VsecPort.TicketMatches;
    hide BeginSeen, LockSeen, ReadSeen, ClearSeen, VsecPort.Port.Following, VsecPort.Port.Idle, VsecPort.Port.Returned;
    ghost var v := port.Look();
    port.Announce(AnyCall.ReadDword(register));
    ghost var v1 := port.Look();
    data := 0;
    error := LockVsecSemaphore(port);
    ghost var v2 := port.Look();
    start, locked := |port.trace|, error == 0;
    ghost var seg := port.trace[|old(port.trace)|..];
    if error == 0 {
      CompleteKeeps(port.state.device);
      error, data := port.PciRead(register);
    }
    ghost var v3 := port.Look();
    var _ := ClearVsecSemaphore(port);
    if locked {
      DwordFollows(v, register, v1, v2, error, data, v3, port.Look());
    } else {
      DwordUnlocked(v, register, v1, error, v2, port.Look());
    }
    assert port.trace[|old(port.trace)|..start] == seg;
  }

  /** The last access is the clear of the semaphore, made or refused. */
  ghost predicate EndsWithClear(trace: seq<Entry>) {
    trace != [] && trace[|trace| - 1] in {Put(Semaphore, 0), Failed}
  }

  // ------------------------------------------------------------------
  // Past the lock

  /** Polls the address register until its flag has the expected value or the polls run out; in
      both cases it returns 0. If the device answers within the polls, it has finished the
      transfer it was busy with; if it does not, it is where it was, and the caller is not told. */
  method WaitOnFlag(port: Port, expected: nat) returns (error: int)
    requires port.Valid()
    modifies port
    ensures port.Valid() && port.lockedAt == old(port.lockedAt)
    ensures old(port.trace) <= port.trace && |port.trace| <= |old(port.trace)| + 0x10000
    ensures port.state.held == old(port.state.held)
    ensures port.state.device in {old(port.state.device), CompleteTransfer(old(port.state.device))}
    ensures port.Healthy() ==> error == 0
    ensures error == 0 && old(port.state.device.busy)
              && FlagOf(old(port.state.device.address)) != expected
              && FlagOf(CompleteTransfer(old(port.state.device)).address) == expected ==>
              port.state.device == if old(port.state.remaining) < 0x10000
                                   then CompleteTransfer(old(port.state.device)) else old(port.state.device)
    ensures PollSeen(old(port.Look()), expected, error, port.Look())
  {
    hide Registers.FlagOf, Registers.AddressOf, Registers.SpaceOf;
    hide ReadSeen, PollSeen, PollingSeen, VsecPort.Port.Look;
    ghost var v := port.Look();
    PollsBegin(v, expected);
    ghost var d := port.state.device;
    ghost var t := port.trace;
    ghost var pending := port.state.remaining;
    var flag: nat;
    error := -1;
    for retries := 0 to IFC_MAX_RETRIES
      invariant port.Valid() && t <= port.trace && |port.trace| <= |t| + retries
      invariant port.state.held == old(port.state.held)
      invariant port.state.device in {d, CompleteTransfer(d)}
      invariant d.busy && FlagOf(d.address) != expected && FlagOf(CompleteTransfer(d).address) == expected ==>
                  port.state.device == d && port.state.remaining + retries == pending
      invariant retries > 0 ==> error == 0
      invariant port.lockedAt == old(port.lockedAt)
      invariant retries < 0x10000 ==> PollingSeen(v, expected, retries, port.Look())
      invariant retries == 0x10000 ==> PollSeen(v, expected, 0, port.Look())
    {
      port.TransferEffects(port.state, |port.trace|, 0);
      hide VsecPort.Port.ReadEffect, VsecPort.Port.Healthy;
      ghost var v1 := port.Look();
      error, flag := port.PciRead(Address);
      PollFollows(v, expected, retries, v1, error, flag, port.Look());
      if error != 0 {
        return;
      }
      flag := FlagOf(flag);
      if flag == expected {
        return 0;
      }
    }
  }

  /** Nothing but the control register differs. */
  ghost predicate OnlyControl(s: PortState, s': PortState) {
    s' == s.(device := s.device.(control := s'.device.control))
  }

  /** Selects a space and asks whether it is supported. Whatever is refused, a return of 0 means
      that the space is supported and selected. */
  method SetAddressSpace(port: Port, space: U32) returns (error: int)
    requires port.Valid()
    modifies port
    ensures port.Valid()
    ensures old(port.trace) <= port.trace && |port.trace| <= |old(port.trace)| + 3
    ensures OnlyControl(old(port.state), port.state)
    ensures error == 0 ==> Supports(port.state.device.status, SelectedSpace(space))
                           && SpaceOf(port.state.device.control) == SelectedSpace(space)
    ensures port.lockedAt == old(port.lockedAt)
    ensures port.Healthy() ==>
              && error == (if Supports(port.state.device.status, SelectedSpace(space)) then 0 else -EINVAL)
              && port.state.device.control == SelectSpace(ControlWord(old(port.state.device)), space)
    ensures SelectSeen(old(port.Look()), space, error, port.Look())
  {
    ghost var v := port.Look();
    hide ReadSeen, WriteSeen, SelectSeen, VsecPort.Port.Look;
    hide Registers.SelectSpace, Registers.SpaceOf, Registers.StatusOf, Gateway.ControlWord, Gateway.CompleteTransfer;
    var value: nat;
    error, value := port.PciRead(Control);
    ghost var v1 := port.Look();
    if error != 0 {
      FirstRefused(v, space, error, value, v1);
      return;
    }
    SelectSpaceFields(value, space);
    ghost var first := value;
    error := port.PciWrite(Control, SelectSpace(value, space));
    ghost var v2 := port.Look();
    if error != 0 {
      SelectFollows(v, space, first, v1, error, v2, 0, 0, v2);
      return;
    }
    StatusReadBack(port.state.device);
    error, value := port.PciRead(Control);
    SelectFollows(v, space, first, v1, 0, v2, error, value, port.Look());
    if error != 0 {
      return;
    }
    if StatusOf(value) == 0 {
      error := -EINVAL;
    }
  }

  /** Between the lock and the clear: the registers of a transfer and memory may differ. */
  ghost predicate OnlyTransfer(s: PortState, s': PortState) {
    && s'.held == s.held
    && s'.device == s.device.(address := s'.device.address, data := s'.device.data,
                              busy := s'.device.busy, memory := s'.device.memory)
  }

  /** The conditions under which a transfer is certain: no access is refused, the device answers
      within the polls, and it is idle. */
  ghost predicate Reliable(port: Port, s: PortState) {
    port.Healthy() && port.Timely() && !s.device.busy
  }

  ghost function KeyOf(s: PortState, address: nat): Key {
    Key(SpaceOf(s.device.control), address)
  }

  /** The n-th access started a transfer. */
  ghost predicate StartedAt(trace: seq<Entry>, n: nat, address: U32, rw: U32) {
    && n < |trace| && SetRwAddress(address, rw).Packed?
    && trace[n] == Put(Address, SetRwAddress(address, rw).word)
  }

  /** What a read of one dword delivers: the dword, or what the data register held before. */
  ghost predicate ReadUnless(late: bool, s: PortState, s': PortState, address: nat, data: U32) {
    && s'.device.busy == late && s'.device.data == data
    && data == if late then s.device.data else Get(s.device.memory, KeyOf(s, address))
  }

  ghost predicate WrittenUnless(late: bool, s: PortState, s': PortState, address: nat, data: U32) {
    && s'.device.busy == late
    && s'.device.memory == if late then s.device.memory else s.device.memory[KeyOf(s, address) := data]
  }

  /** A started read, finished. */
  lemma ReadCompletes(d: Device, address: U32)
    requires SetRwAddress(address, READ_OPERATION).Packed?
    ensures var d' := CompleteTransfer(StartTransfer(d, SetRwAddress(address, READ_OPERATION).word));
            && FlagOf(SetRwAddress(address, READ_OPERATION).word) == 0 && FlagOf(d'.address) == 1
            && d' == d.(address := d'.address, busy := false,
                        data := Get(d.memory, Key(SpaceOf(d.control), address)))
  {
    PackedAddressRecovers(address, READ_OPERATION);
    CompletedAddress(SetRwAddress(address, READ_OPERATION).word);
    hide Registers.SetRwAddress, Registers.FlagOf, Registers.AddressOf, Registers.SpaceOf;
  }

  /** A started write, finished. */
  lemma WriteCompletes(d: Device, address: U32)
    requires SetRwAddress(address, WRITE_OPERATION).Packed?
    ensures var d' := CompleteTransfer(StartTransfer(d, SetRwAddress(address, WRITE_OPERATION).word));
            && FlagOf(SetRwAddress(address, WRITE_OPERATION).word) == 1 && FlagOf(d'.address) == 0
            && d' == d.(address := d'.address, busy := false,
                        memory := d.memory[Key(SpaceOf(d.control), address) := d.data])
  {
    PackedAddressRecovers(address, WRITE_OPERATION);
    CompletedAddress(SetRwAddress(address, WRITE_OPERATION).word);
    hide Registers.SetRwAddress, Registers.FlagOf, Registers.AddressOf, Registers.SpaceOf;
  }

  /** `read` of one dword. It returns 0 whether or not the device answers within the polls; a
      device that does not leaves the caller with what the data register held before. */
  method Read(port: Port, address: U32) returns (error: int, data: U32)
    requires port.Valid()
    modifies port
    ensures port.Valid() && port.lockedAt == old(port.lockedAt)
    ensures old(port.trace) <= port.trace && |port.trace| <= |old(port.trace)| + 0x10002
    ensures OnlyTransfer(old(port.state), port.state)
    ensures port.state.device.memory == old(port.state.device.memory)
    ensures address >= ADDRESS_LIMIT ==> error == -1 && port.state == old(port.state) && port.trace == old(port.trace)
    ensures port.Healthy() && address < ADDRESS_LIMIT ==> error == 0
    ensures error == 0 ==>
              && StartedAt(port.trace, |old(port.trace)|, address, READ_OPERATION)
              && ReadUnless(port.delay(|old(port.trace)|) >= 0x10000,
                            old(port.state), port.state, address, data)
    ensures DwordReadSeen(old(port.Look()), address, error, data, port.Look())
  {
    hide Registers.FlagOf, Registers.AddressOf, Registers.SpaceOf;
    hide ReadSeen, WriteSeen, PollSeen, VsecPort.Port.Look;
    ghost var v := port.Look();
    data := 0;
    PackedAddress(address, READ_OPERATION);
    var offset := SetRwAddress(address, READ_OPERATION);
    if offset.Refused? {
      return -1, data;
    }
    ReadCompletes(port.state.device, address);
    CompleteKeeps(StartTransfer(port.state.device, offset.word));
    hide Registers.SetRwAddress, Gateway.CompleteTransfer;
    port.TransferEffects(port.state, |port.trace|, offset.word);
    hide VsecPort.Port.WriteEffect, VsecPort.Port.ReadEffect, VsecPort.Port.DeviceMoves, VsecPort.Port.Healthy;
    hide DwordReadSeen;
    error := port.PciWrite(Address, offset.word);
    ghost var v1 := port.Look();
    if error != 0 {
      ReadRefused(v, address, error, data, v1);
      return;
    }
    error := WaitOnFlag(port, 1);
    ghost var v2 := port.Look();
    if error != 0 {
      ReadFollows(v, address, v1, error, v2, 0, 0, data, v2);
      return;
    }
    var value: nat;
    port.TransferEffects(port.state, |port.trace|, 0);
    error, value := port.PciRead(Data);
    ReadFollows(v, address, v1, 0, v2, error, value, if error == 0 then value else data, port.Look());
    if error != 0 {
      return;
    }
    data := value;
  }

  /** `write` of one dword. It returns 0 in both cases too; the dword is stored exactly when the
      device answers within the polls. After a refused access it may have been stored or not. */
  method Write(port: Port, address: U32, data: U32) returns (error: int)
    requires port.Valid()
    modifies port
    ensures port.Valid() && port.lockedAt == old(port.lockedAt)
    ensures old(port.trace) <= port.trace && |port.trace| <= |old(port.trace)| + 0x10002
    ensures OnlyTransfer(old(port.state), port.state)
    ensures address >= ADDRESS_LIMIT ==> error == -1 && port.state == old(port.state) && port.trace == old(port.trace)
    ensures port.Healthy() && address < ADDRESS_LIMIT ==> error == 0
    ensures error == 0 ==>
              && StartedAt(port.trace, |old(port.trace)| + 1, address, WRITE_OPERATION)
              && WrittenUnless(port.delay(|old(port.trace)| + 1) >= 0x10000,
                               old(port.state), port.state, address, data)
    ensures error != 0 ==>
              port.state.device.memory in {old(port.state.device.memory),
                                           old(port.state.device.memory)[KeyOf(old(port.state), address) := data]}
    ensures DwordWrittenSeen(old(port.Look()), address, data, error, port.Look())
  {
    hide Registers.FlagOf, Registers.AddressOf, Registers.SpaceOf;
    hide ReadSeen, WriteSeen, PollSeen, VsecPort.Port.Look;
    ghost var v := port.Look();
    PackedAddress(address, WRITE_OPERATION);
    var offset := SetRwAddress(address, WRITE_OPERATION);
    if offset.Refused? {
      return -1;
    }
    WriteCompletes(port.state.device.(data := data), address);
    CompleteKeeps(StartTransfer(port.state.device.(data := data), offset.word));
    hide Registers.SetRwAddress, Gateway.CompleteTransfer;
    port.TransferEffects(port.state, |port.trace|, data);
    hide VsecPort.Port.WriteEffect, VsecPort.Port.ReadEffect, VsecPort.Port.DeviceMoves, VsecPort.Port.Healthy;
    hide DwordWrittenSeen;
    error := port.PciWrite(Data, data);
    ghost var v1 := port.Look();
    if error != 0 {
      WriteRefused(v, address, data, error, v1);
      return;
    }
    port.TransferEffects(port.state, |port.trace|, offset.word);
    error := port.PciWrite(Address, offset.word);
    ghost var v2 := port.Look();
    if error != 0 {
      WriteFollows(v, address, data, v1, error, v2, 0, v2);
      return;
    }
    error := WaitOnFlag(port, 0);
    WriteFollows(v, address, data, v1, 0, v2, error, port.Look());
  }

  // ------------------------------------------------------------------
  // The block loops

  /** Transfer `n` was not finished within the polls that the driver spends on it. */
  ghost predicate Late(port: Port, n: nat) {
    port.delay(n) >= 0x10000
  }

  /** The address, the data and the polls of so many dwords. */
  function AccessesFor(dwords: nat): nat {
    dwords * 0x10002
  }

  lemma AccessesForIs(dwords: nat)
    ensures AccessesFor(dwords) == dwords * 0x10002
  {
  }

  lemma DwordsLeft(size: int, k: nat)
    ensures 4 * k < size <==> k < DwordCount(size)
  {
  }

  lemma AccessesForNext(k: nat, n: nat)
    requires k <= n
    ensures AccessesFor(k) <= AccessesFor(n)
    ensures k < n ==> AccessesFor(k) + 0x10002 == AccessesFor(k + 1) <= AccessesFor(n)
  {
  }

  /** What dword `i` of a block read is, when its transfer was started by access `starts[i]`: the one
      in memory if the device was in time. Otherwise it is what the data register still held, which
      is the dword before it. */
  ghost function Delivered(port: Port, s: PortState, offset: U32, data: seq<U32>, starts: seq<nat>, i: nat): U32
    requires i < |starts| <= |data|
  {
    if !Late(port, starts[i]) then Get(s.device.memory, KeyOf(s, DwordAddress(offset, i)))
    else if i == 0 then s.device.data
    else data[i - 1]
  }

  /** A block read that began in state `s` has put `|starts|` dwords into the buffer. */
  ghost predicate ReadSoFar(port: Port, s: PortState, offset: U32, buffer: seq<U32>, data: seq<U32>,
                            trace: seq<Entry>, starts: seq<nat>) {
    && |starts| <= |data| == |buffer| && data[|starts|..] == buffer[|starts|..]
    && forall i :: 0 <= i < |starts| ==>
         && DwordAddress(offset, i) < ADDRESS_LIMIT
         && StartedAt(trace, starts[i], DwordAddress(offset, i), READ_OPERATION)
         && data[i] == Delivered(port, s, offset, data, starts, i)
  }

  /** The registers after those reads. */
  ghost predicate ReadRegisters(port: Port, s: PortState, s': PortState, data: seq<U32>, starts: seq<nat>)
    requires |starts| <= |data|
  {
    if starts == [] then s' == s
    else s'.device.data == data[|starts| - 1] && (s'.device.busy <==> Late(port, starts[|starts| - 1]))
  }

  lemma ReadOneMore(port: Port, s: PortState, offset: U32, buffer: seq<U32>, data: seq<U32>,
                    trace: seq<Entry>, starts: seq<nat>, trace': seq<Entry>, start: nat, dword: U32)
    requires ReadSoFar(port, s, offset, buffer, data, trace, starts) && |starts| < |data| && trace <= trace'
    requires DwordAddress(offset, |starts|) < ADDRESS_LIMIT
    requires StartedAt(trace', start, DwordAddress(offset, |starts|), READ_OPERATION)
    requires dword == if !Late(port, start) then Get(s.device.memory, KeyOf(s, DwordAddress(offset, |starts|)))
                      else if starts == [] then s.device.data
                      else data[|starts| - 1]
    ensures ReadSoFar(port, s, offset, buffer, data[|starts| := dword], trace', starts + [start])
  {
    hide Registers.SetRwAddress, Blocks.DwordAddress, Late;
    var data', starts' := data[|starts| := dword], starts + [start];
    forall i | 0 <= i < |starts'|
      ensures StartedAt(trace', starts'[i], DwordAddress(offset, i), READ_OPERATION)
      ensures data'[i] == Delivered(port, s, offset, data', starts', i)
    {
      if i < |starts| {
        assert StartedAt(trace, starts[i], DwordAddress(offset, i), READ_OPERATION);
        assert data[i] == Delivered(port, s, offset, data, starts, i);
      }
    }
  }

  lemma TransferTwice(s: PortState, s': PortState, s'': PortState)
    requires OnlyTransfer(s, s') && OnlyTransfer(s', s'')
    ensures OnlyTransfer(s, s'')
  {
  }

  /** One more dword has been read and waited for. */
  lemma ReadAdvances(port: Port, s: PortState, s': PortState, s'': PortState, offset: U32, buffer: seq<U32>,
                     data: seq<U32>, trace: seq<Entry>, starts: seq<nat>, trace': seq<Entry>, start: nat, dword: U32)
    requires ReadSoFar(port, s, offset, buffer, data, trace, starts) && |starts| < |data| && trace <= trace'
    requires DwordAddress(offset, |starts|) < ADDRESS_LIMIT
    requires StartedAt(trace', start, DwordAddress(offset, |starts|), READ_OPERATION)
    requires OnlyTransfer(s, s') && OnlyTransfer(s', s'') && s'.device.memory == s.device.memory
    requires ReadRegisters(port, s, s', data, starts)
    requires ReadUnless(port.delay(start) >= 0x10000, s', s'', DwordAddress(offset, |starts|), dword)
    ensures ReadSoFar(port, s, offset, buffer, data[|starts| := dword], trace', starts + [start])
    ensures ReadRegisters(port, s, s'', data[|starts| := dword], starts + [start])
  {
    hide Blocks.DwordAddress, Registers.SpaceOf, ReadSoFar, StartedAt;
    ReadOneMore(port, s, offset, buffer, data, trace, starts, trace', start, dword);
    hide KeyOf;
  }

  /** With a device that is always in time the buffer is as `Fetched` says. */
  lemma TimelyRead(port: Port, s: PortState, offset: U32, buffer: seq<U32>, data: seq<U32>,
                   trace: seq<Entry>, starts: seq<nat>)
    requires ReadSoFar(port, s, offset, buffer, data, trace, starts) && port.Timely()
    ensures data == Fetched(s.device.memory, SpaceOf(s.device.control), offset, buffer, |starts|)
  {
    hide Registers.SetRwAddress, Blocks.DwordAddress, Registers.SpaceOf, StartedAt;
    forall i | 0 <= i < |data|
      ensures data[i] == Fetched(s.device.memory, SpaceOf(s.device.control), offset, buffer, |starts|)[i]
    {
      if i < |starts| {
        assert data[i] == Delivered(port, s, offset, data, starts, i) && !Late(port, starts[i]);
      } else {
        assert data[i] == data[|starts|..][i - |starts|];
      }
    }
  }

  /** Further accesses change nothing about the dwords read, and the loop got as far as the addresses
      go if it ended or met a refused address. */
  lemma ReadStopped(port: Port, s: PortState, offset: U32, n: nat, buffer: seq<U32>, data: seq<U32>,
                    trace: seq<Entry>, trace': seq<Entry>, starts: seq<nat>)
    requires ReadSoFar(port, s, offset, buffer, data, trace, starts) && |starts| <= n && trace <= trace'
    ensures ReadSoFar(port, s, offset, buffer, data, trace', starts)
    ensures |starts| == n || DwordAddress(offset, |starts|) >= ADDRESS_LIMIT ==> |starts| == Accepted(offset, 0, n)
  {
    hide Registers.SetRwAddress, Blocks.DwordAddress, Blocks.Accepted, Delivered;
    forall i | 0 <= i < |starts| ensures StartedAt(trace', starts[i], DwordAddress(offset, i), READ_OPERATION) {
      assert StartedAt(trace, starts[i], DwordAddress(offset, i), READ_OPERATION);
    }
    if |starts| == n || DwordAddress(offset, |starts|) >= ADDRESS_LIMIT {
      AcceptedUnique(offset, 0, n, |starts|);
    }
  }

  /** The state of the block loop of `read_pciconf` at its head. */
  ghost predicate Reading(port: Port, s: PortState, t0: seq<Entry>, held: PortState, offset: U32,
                          buffer: seq<U32>, data: array<U32>, starts: seq<nat>)
    reads port, data
  {
    && port.Valid() && t0 <= port.trace && port.lockedAt == held
    && |port.trace| <= |t0| + AccessesFor(|starts|)
    && ReadSoFar(port, s, offset, buffer, data[..], port.trace, starts)
    && OnlyTransfer(s, port.state) && port.state.device.memory == s.device.memory
    && ReadRegisters(port, s, port.state, data[..], starts)
  }

  /** One turn of that loop. */
  method ReadTurn(port: Port, offset: U32, counter: nat, data: array<U32>, ghost s: PortState, ghost t0: seq<Entry>,
                  ghost held: PortState, ghost buffer: seq<U32>, ghost starts: seq<nat>, ghost c: Course)
    returns (failed: int, ghost start: nat)
    requires Reading(port, s, t0, held, offset, buffer, data, starts)
    requires counter == 4 * |starts| && |starts| < data.Length
    requires c.call.ReadBlock? && c.call.offset == offset && |starts| < DwordCount(c.call.size)
    requires HeadSeen(c, |starts|, data[..], port.Look())
    modifies port, data
    ensures failed == 0 ==> HeadSeen(c, |starts| + 1, data[..], port.Look())
    ensures failed != 0 ==> StopSeen(c, |starts|, data[..], port.Look())
    ensures failed == 0 ==> Reading(port, s, t0, held, offset, buffer, data, starts + [start])
    ensures failed != 0 ==>
              && port.Valid() && t0 <= port.trace && port.lockedAt == held && data[..] == old(data[..])
              && |port.trace| <= |t0| + AccessesFor(|starts| + 1)
              && ReadSoFar(port, s, offset, buffer, data[..], port.trace, starts)
              && OnlyTransfer(s, port.state) && port.state.device.memory == s.device.memory
              && (port.Healthy() ==>
                    DwordAddress(offset, |starts|) >= ADDRESS_LIMIT
                    && ReadRegisters(port, s, port.state, data[..], starts))
  {
    hide Registers.SpaceOf, Blocks.DwordAddress, VsecPort.Port.Healthy;
    hide AccessesFor, ReadSoFar, StartedAt, Gateway.CompleteTransfer, OnlyTransfer, ReadRegisters, ReadUnless, Late;
    hide DwordReadSeen, HeadSeen, StopSeen, VsecPort.Port.Look;
    ghost var was, before, v, list := port.state, port.trace, port.Look(), data[..];
    start := |port.trace|;
    AccessesForNext(|starts|, |starts| + 1);
    var dword: U32;
    failed, dword := Read(port, DwordAddress(offset, counter / 4));
    ReadTurnFollows(c, |starts|, list, v, failed, dword, port.Look());
    TransferTwice(s, was, port.state);
    if failed != 0 {
      ReadStopped(port, s, offset, data.Length, buffer, data[..], before, port.trace, starts);
      return;
    }
    ReadAdvances(port, s, was, port.state, offset, buffer, data[..], before, starts, port.trace, start, dword);
    data[counter / 4] := dword;
    assert data[..] == list[|starts| := dword];
  }

  /** The block loop of `read_pciconf`, whatever is refused and however late the device is: the
      first `|starts|` dwords went through one after another, the rest of the buffer is untouched,
      memory is unchanged, and the return value says how far the loop got. Without refused accesses
      it gets as far as the addresses go. */
  method ReadDwords(port: Port, offset: U32, size: int, data: array<U32>, ghost c: Course)
    returns (error: int, ghost starts: seq<nat>)
    requires port.Valid() && DwordCount(size) <= data.Length
    requires c.call.ReadBlock? && c.call.offset == offset && c.call.size == size
    requires HeadSeen(c, 0, data[..], port.Look())
    modifies port, data
    ensures StopSeen(c, |starts|, data[..], port.Look())
    ensures port.Valid() && old(port.trace) <= port.trace && port.lockedAt == old(port.lockedAt)
    ensures |port.trace| <= |old(port.trace)| + AccessesFor(DwordCount(size))
    ensures |starts| <= DwordCount(size) && error == TransferError(|starts|, DwordCount(size))
    ensures OnlyTransfer(old(port.state), port.state)
    ensures ReadSoFar(port, old(port.state), offset, old(data[..]), data[..], port.trace, starts)
    ensures port.state.device.memory == old(port.state.device.memory)
    ensures port.Healthy() ==>
              && |starts| == Accepted(offset, 0, DwordCount(size))
              && ReadRegisters(port, old(port.state), port.state, data[..], starts)
  {
    hide Registers.SpaceOf, Blocks.DwordAddress, Blocks.Accepted, VsecPort.Port.Healthy, AccessesFor;
    ghost var s, t0, held, buffer := port.state, port.trace, port.lockedAt, data[..];
    ghost var n := DwordCount(size);
    starts := [];
    error := 0;
    var counter := 0;
    hide OnlyTransfer, ReadSoFar;
    assert Reading(port, s, t0, held, offset, buffer, data, starts) by { ReadingBegins(port, offset, data); }
    DwordsLeft(size, 0);
    hide Blocks.DwordCount, Reading, HeadSeen, StopSeen, ReadRegisters, VsecPort.Port.Look;
    while counter < size
      invariant error == 0 && counter == 4 * |starts| && |starts| <= n
      invariant Reading(port, s, t0, held, offset, buffer, data, starts)
      invariant HeadSeen(c, |starts|, data[..], port.Look())
    {
      DwordsLeft(size, |starts|);
      AccessesForNext(|starts| + 1, n);
      var failed: int;
      ghost var start: nat;
      failed, start := ReadTurn(port, offset, counter, data, s, t0, held, buffer, starts, c);
      if failed != 0 {
        error := counter;
        ReadStopped(port, s, offset, n, buffer, data[..], port.trace, port.trace, starts);
        return;
      }
      starts := starts + [start];
      counter := counter + 4;
    }
    DwordsLeft(size, |starts|);
    ReadingEnds(port, s, t0, held, offset, n, buffer, data, starts);
    LoopEnds(c, data[..], port.Look());
  }

  lemma ReadingBegins(port: Port, offset: U32, data: array<U32>)
    requires port.Valid()
    ensures Reading(port, port.state, port.trace, port.lockedAt, offset, data[..], data, [])
  {
  }

  lemma ReadingEnds(port: Port, s: PortState, t0: seq<Entry>, held: PortState, offset: U32, n: nat,
                    buffer: seq<U32>, data: array<U32>, starts: seq<nat>)
    requires Reading(port, s, t0, held, offset, buffer, data, starts) && |starts| == n
    ensures port.Valid() && t0 <= port.trace && port.lockedAt == held
    ensures |port.trace| <= |t0| + AccessesFor(n) && |starts| == Accepted(offset, 0, n)
    ensures ReadSoFar(port, s, offset, buffer, data[..], port.trace, starts)
    ensures OnlyTransfer(s, port.state) && port.state.device.memory == s.device.memory
    ensures ReadRegisters(port, s, port.state, data[..], starts)
  {
    hide Blocks.DwordAddress, AccessesFor, ReadSoFar, OnlyTransfer;
    ReadStopped(port, s, offset, n, buffer, data[..], port.trace, port.trace, starts);
  }

  /** Memory after the first writes of a block: a dword is stored if the device was in time. */
  ghost function Stored(port: Port, s: PortState, offset: U32, data: seq<U32>, starts: seq<nat>): Memory
    requires |starts| <= |data|
    decreases |starts|
  {
    if starts == [] then s.device.memory
    else
      var k := |starts| - 1;
      var before := Stored(port, s, offset, data, starts[..k]);
      if Late(port, starts[k]) then before else before[KeyOf(s, DwordAddress(offset, k)) := data[k]]
  }

  /** The transfers of a block write that have been started and waited for. */
  ghost predicate WrittenSoFar(offset: U32, trace: seq<Entry>, starts: seq<nat>) {
    forall i :: 0 <= i < |starts| ==>
      && DwordAddress(offset, i) < ADDRESS_LIMIT
      && StartedAt(trace, starts[i], DwordAddress(offset, i), WRITE_OPERATION)
  }

  lemma StoredOneMore(port: Port, s: PortState, offset: U32, data: seq<U32>, starts: seq<nat>, start: nat)
    requires |starts| < |data|
    ensures Stored(port, s, offset, data, starts + [start]) ==
            var before := Stored(port, s, offset, data, starts);
            if Late(port, start) then before else before[KeyOf(s, DwordAddress(offset, |starts|)) := data[|starts|]]
  {
    assert (starts + [start])[..|starts|] == starts;
  }

  lemma SameKey(s: PortState, s': PortState, address: nat)
    requires OnlyTransfer(s, s')
    ensures KeyOf(s', address) == KeyOf(s, address)
  {
  }

  /** One more dword has been written and waited for. */
  lemma MemoryOneMore(port: Port, s: PortState, s': PortState, s'': PortState, offset: U32, data: seq<U32>,
                      starts: seq<nat>, start: nat)
    requires |starts| < |data| && OnlyTransfer(s, s') && OnlyTransfer(s', s'')
    requires s'.device.memory == Stored(port, s, offset, data, starts)
    requires WrittenUnless(port.delay(start) >= 0x10000, s', s'',
                           DwordAddress(offset, |starts|), data[|starts|])
    ensures OnlyTransfer(s, s'') && BusyWithLast(port, s, s'', starts + [start])
    ensures s''.device.memory == Stored(port, s, offset, data, starts + [start])
  {
    StoredOneMore(port, s, offset, data, starts, start);
    SameKey(s, s', DwordAddress(offset, |starts|));
    hide Blocks.DwordAddress, Stored, KeyOf;
  }

  lemma WrittenOneMore(offset: U32, trace: seq<Entry>, starts: seq<nat>, trace': seq<Entry>, start: nat)
    requires WrittenSoFar(offset, trace, starts) && trace <= trace'
    requires DwordAddress(offset, |starts|) < ADDRESS_LIMIT
    requires StartedAt(trace', start, DwordAddress(offset, |starts|), WRITE_OPERATION)
    ensures WrittenSoFar(offset, trace', starts + [start])
  {
    hide Registers.SetRwAddress, Blocks.DwordAddress;
  }

  lemma WriteStopped(offset: U32, n: nat, trace: seq<Entry>, trace': seq<Entry>, starts: seq<nat>)
    requires WrittenSoFar(offset, trace, starts) && |starts| <= n && trace <= trace'
    ensures WrittenSoFar(offset, trace', starts)
    ensures |starts| == n || DwordAddress(offset, |starts|) >= ADDRESS_LIMIT ==> |starts| == Accepted(offset, 0, n)
  {
    hide Registers.SetRwAddress, Blocks.DwordAddress, Blocks.Accepted;
    if |starts| == n || DwordAddress(offset, |starts|) >= ADDRESS_LIMIT {
      AcceptedUnique(offset, 0, n, |starts|);
    }
  }

  /** With a device that is always in time memory is as `Written` says. */
  lemma {:induction false} TimelyWrite(port: Port, s: PortState, offset: U32, data: seq<U32>, starts: seq<nat>)
    requires |starts| <= |data| && port.Timely()
    ensures Stored(port, s, offset, data, starts)
         == Written(s.device.memory, SpaceOf(s.device.control), offset, data, |starts|)
    decreases |starts|
  {
    hide Blocks.DwordAddress, Registers.SpaceOf;
    if starts != [] {
      var k := |starts| - 1;
      TimelyWrite(port, s, offset, data, starts[..k]);
      assert !Late(port, starts[k]);
    }
  }

  /** The device is still busy with the last transfer that was waited for. */
  ghost predicate BusyWithLast(port: Port, s: PortState, s': PortState, starts: seq<nat>) {
    s'.device.busy <==> if starts == [] then s.device.busy else Late(port, starts[|starts| - 1])
  }

  /** The state of the block loop of `write_pciconf` at its head. */
  ghost predicate Writing(port: Port, s: PortState, t0: seq<Entry>, held: PortState, offset: U32,
                          data: seq<U32>, starts: seq<nat>)
    reads port
  {
    && port.Valid() && t0 <= port.trace && port.lockedAt == held && |starts| <= |data|
    && |port.trace| <= |t0| + AccessesFor(|starts|)
    && WrittenSoFar(offset, port.trace, starts) && OnlyTransfer(s, port.state)
    && port.state.device.memory == Stored(port, s, offset, data, starts)
    && BusyWithLast(port, s, port.state, starts)
  }

  /** One turn of that loop. */
  method WriteTurn(port: Port, offset: U32, counter: nat, dword: U32, ghost s: PortState, ghost t0: seq<Entry>,
                   ghost held: PortState, ghost data: seq<U32>, ghost starts: seq<nat>, ghost c: Course)
    returns (failed: int, ghost start: nat)
    requires Writing(port, s, t0, held, offset, data, starts)
    requires counter == 4 * |starts| && |starts| < |data| && dword == data[|starts|]
    requires c.call.WriteBlock? && c.call.offset == offset && |starts| < DwordCount(c.call.size)
    requires HeadSeen(c, |starts|, data, port.Look())
    modifies port
    ensures failed == 0 ==> HeadSeen(c, |starts| + 1, data, port.Look())
    ensures failed != 0 ==> StopSeen(c, |starts|, data, port.Look())
    ensures failed == 0 ==> Writing(port, s, t0, held, offset, data, starts + [start])
    ensures failed != 0 ==>
              && port.Valid() && t0 <= port.trace && port.lockedAt == held
              && |port.trace| <= |t0| + AccessesFor(|starts| + 1)
              && WrittenSoFar(offset, port.trace, starts) && OnlyTransfer(s, port.state)
              && var stored := Stored(port, s, offset, data, starts);
                 && port.state.device.memory in
                      {stored, stored[KeyOf(s, DwordAddress(offset, |starts|)) := data[|starts|]]}
                 && (port.Healthy() ==>
                       DwordAddress(offset, |starts|) >= ADDRESS_LIMIT
                       && port.state.device.memory == stored && BusyWithLast(port, s, port.state, starts))
  {
    hide Registers.SpaceOf, Blocks.DwordAddress, VsecPort.Port.Healthy, Stored;
    hide AccessesFor, WrittenSoFar, StartedAt, Gateway.CompleteTransfer, OnlyTransfer, BusyWithLast;
    hide WrittenUnless, Late;
    hide DwordWrittenSeen, HeadSeen, StopSeen, VsecPort.Port.Look;
    ghost var was, before, v := port.state, port.trace, port.Look();
    start := |port.trace| + 1;
    AccessesForNext(|starts|, |starts| + 1);
    SameKey(s, was, DwordAddress(offset, |starts|));
    hide KeyOf;
    failed := Write(port, DwordAddress(offset, counter / 4), dword);
    WriteTurnFollows(c, |starts|, data, v, failed, port.Look());
    TransferTwice(s, was, port.state);
    if failed != 0 {
      WriteStopped(offset, |data|, before, port.trace, starts);
      return;
    }
    WrittenOneMore(offset, before, starts, port.trace, start);
    MemoryOneMore(port, s, was, port.state, offset, data, starts, start);
  }

  /** The block loop of `write_pciconf`, whatever is refused and however late the device is: the
      dwords in time are stored, in order, and nothing else, except that the dword at which an
      access was refused may be stored too. */
  method WriteDwords(port: Port, offset: U32, size: int, data: array<U32>, ghost c: Course)
    returns (error: int, ghost starts: seq<nat>)
    requires port.Valid() && DwordCount(size) <= data.Length
    requires c.call.WriteBlock? && c.call.offset == offset && c.call.size == size
    requires HeadSeen(c, 0, data[..], port.Look())
    modifies port
    ensures StopSeen(c, |starts|, data[..], port.Look())
    ensures port.Valid() && old(port.trace) <= port.trace && port.lockedAt == old(port.lockedAt)
    ensures |port.trace| <= |old(port.trace)| + AccessesFor(DwordCount(size))
    ensures |starts| <= DwordCount(size) && error == TransferError(|starts|, DwordCount(size))
    ensures OnlyTransfer(old(port.state), port.state)
    ensures WrittenSoFar(offset, port.trace, starts)
    ensures var stored := Stored(port, old(port.state), offset, data[..], starts);
            || port.state.device.memory == stored
            || (|starts| < DwordCount(size) && !port.Healthy()
                && port.state.device.memory ==
                   stored[KeyOf(old(port.state), DwordAddress(offset, |starts|)) := data[|starts|]])
    ensures port.Healthy() ==>
              && |starts| == Accepted(offset, 0, DwordCount(size))
              && BusyWithLast(port, old(port.state), port.state, starts)
  {
    hide Registers.SpaceOf, Blocks.DwordAddress, Blocks.Accepted, VsecPort.Port.Healthy, AccessesFor, Stored;
    ghost var s, t0, held := port.state, port.trace, port.lockedAt;
    ghost var n := DwordCount(size);
    starts := [];
    error := 0;
    var counter := 0;
    hide OnlyTransfer, WrittenSoFar;
    assert Writing(port, s, t0, held, offset, data[..], starts) by { WritingBegins(port, offset, data[..]); }
    DwordsLeft(size, 0);
    hide Blocks.DwordCount, BusyWithLast, Writing, HeadSeen, StopSeen, VsecPort.Port.Look;
    while counter < size
      invariant error == 0 && counter == 4 * |starts| && |starts| <= n
      invariant Writing(port, s, t0, held, offset, data[..], starts)
      invariant HeadSeen(c, |starts|, data[..], port.Look())
    {
      DwordsLeft(size, |starts|);
      AccessesForNext(|starts| + 1, n);
      var failed: int;
      ghost var start: nat;
      failed, start :=
        WriteTurn(port, offset, counter, data[counter / 4], s, t0, held, data[..], starts, c);
      if failed != 0 {
        error := counter;
        WriteStopped(offset, n, port.trace, port.trace, starts);
        return;
      }
      starts := starts + [start];
      counter := counter + 4;
    }
    DwordsLeft(size, |starts|);
    WritingEnds(port, s, t0, held, offset, n, data[..], starts);
    LoopEnds(c, data[..], port.Look());
  }

  lemma WritingBegins(port: Port, offset: U32, data: seq<U32>)
    requires port.Valid()
    ensures Writing(port, port.state, port.trace, port.lockedAt, offset, data, [])
  {
  }

  lemma WritingEnds(port: Port, s: PortState, t0: seq<Entry>, held: PortState, offset: U32, n: nat,
                    data: seq<U32>, starts: seq<nat>)
    requires Writing(port, s, t0, held, offset, data, starts) && |starts| == n
    ensures port.Valid() && t0 <= port.trace && port.lockedAt == held
    ensures |port.trace| <= |t0| + AccessesFor(n) && |starts| == Accepted(offset, 0, n)
    ensures WrittenSoFar(offset, port.trace, starts) && OnlyTransfer(s, port.state)
    ensures port.state.device.memory == Stored(port, s, offset, data, starts)
    ensures BusyWithLast(port, s, port.state, starts)
  {
    hide Blocks.DwordAddress, AccessesFor, WrittenSoFar, OnlyTransfer, Stored, BusyWithLast;
    WriteStopped(offset, n, port.trace, port.trace, starts);
  }

  // ------------------------------------------------------------------
  // The locked calls

  /** How a block call went: the number of accesses when the lock attempt ended and its outcome,
      whether the space was then selected, the state that left, and for each dword that went through
      the access that started its transfer. */
  datatype Passage = Passage(start: nat, locked: bool, selected: bool, at: PortState, starts: seq<nat>)

  /** What holds of the selection of the space, in whatever environment. */
  ghost predicate SelectionOf(port: Port, s: PortState, space: U32, offset: U32, size: int, error: int, p: Passage) {
    && OnlyControl(s, p.at)
    && (p.selected ==>
          && Supports(p.at.device.status, SelectedSpace(space)) && SpaceOf(p.at.device.control) == SelectedSpace(space)
          && |p.starts| <= DwordCount(size) && error == TransferError(|p.starts|, DwordCount(size)))
    && (!p.selected ==> p.starts == [] && error != 0)
    && (port.Healthy() ==>
          && (p.selected <==> Supports(s.device.status, SelectedSpace(space)))
          && (p.selected ==> |p.starts| == Accepted(offset, 0, DwordCount(size))))
  }

  lemma PassageOf(port: Port, s: PortState, space: U32, offset: U32, size: int, error: int, q: Passage, start: nat)
    requires SelectionOf(port, s, space, offset, size, error, q)
    ensures SelectionOf(port, s, space, offset, size, error, q.(start := start, locked := true))
    ensures |q.starts| <= DwordCount(size)
    ensures if q.selected then error == TransferError(|q.starts|, DwordCount(size)) else q.starts == []
  {
    hide OnlyControl, Blocks.Accepted, VsecPort.Port.Healthy;
  }

  lemma WaitedTwice(s: PortState, s': PortState, s'': PortState)
    ensures Waited(s, s') && Waited(s', s'') ==> Waited(s, s'')
  {
  }

  /** A clear, made or refused, changes nothing but the semaphore and who holds it. */
  lemma ClearWaits(s: PortState, s': PortState)
    requires Waited(s, s')
    ensures Waited(s, s'.(device := s'.device.(semaphore := 0), held := false))
  {
  }

  /** The part of `read_pciconf` between the lock and the clear. */
  method ReadLocked(port: Port, space: U32, offset: U32, size: int, data: array<U32>, ghost c: Course)
    returns (error: int, ghost p: Passage)
    requires port.Valid() && DwordCount(size) <= data.Length
    requires c.call == ReadBlock(space, offset, size, data[..]) && EnteredSeen(c, port.Look())
    modifies port, data
    ensures port.Valid() && old(port.trace) <= port.trace && port.lockedAt == old(port.lockedAt)
    ensures |port.trace| <= |old(port.trace)| + 3 + AccessesFor(DwordCount(size))
    ensures Waited(old(port.state), port.state)
    ensures port.state.device.memory == old(port.state.device.memory)
    ensures SelectionOf(port, old(port.state), space, offset, size, error, p)
    ensures ReadSoFar(port, p.at, offset, old(data[..]), data[..], port.trace, p.starts)
    ensures Reliable(port, old(port.state)) ==>
              && !port.state.device.busy
              && var (report, memory) := Effect(ChipOf(old(port.state.device)), old(port.state.device.memory),
                                                ReadBlock(space, offset, size, old(data[..])));
                 error == report.error && data[..] == report.buffer && port.state.device.memory == memory
    ensures BlockSeen(c, p.selected, |p.starts|, data[..], error, port.Look())
  {
    hide Registers.SpaceOf, Registers.SelectSpace, Gateway.CompleteTransfer, Gateway.ControlWord;
    hide VsecPort.Port.Healthy, VsecPort.Port.Timely, Blocks.DwordAddress, Blocks.Accepted, Blocks.Fetched, ReadSoFar;
    hide EnteredSeen, SelectSeen, HeadSeen, StopSeen, VsecPort.Port.Look;
    ghost var v := port.Look();
    error := SetAddressSpace(port, space);
    SelectionFollows(c, v, error, port.Look());
    p := Passage(0, true, error == 0, port.state, []);
    if error != 0 {
      NothingRead(port, offset, data[..], port.trace);
      return;
    }
    ghost var starts: seq<nat>;
    error, starts := ReadDwords(port, offset, size, data, c);
    p := p.(starts := starts);
    if Reliable(port, old(port.state)) {
      TimelyRead(port, p.at, offset, old(data[..]), data[..], port.trace, starts);
      InTime(port, starts);
    }
  }

  lemma NothingRead(port: Port, offset: U32, data: seq<U32>, trace: seq<Entry>)
    ensures ReadSoFar(port, port.state, offset, data, data, trace, [])
  {
  }

  lemma NothingWasRead(port: Port, s: PortState, offset: U32, buffer: seq<U32>, data: seq<U32>, trace: seq<Entry>)
    requires ReadSoFar(port, s, offset, buffer, data, trace, [])
    ensures data == buffer
  {
    assert data == data[0..] && buffer == buffer[0..];
  }

  lemma InTime(port: Port, starts: seq<nat>)
    requires port.Timely()
    ensures forall i :: 0 <= i < |starts| ==> !Late(port, starts[i])
  {
  }

  /** What the caller of a block call is told of the space, in the report of the step machine. */
  function FoundOf(p: Passage): seq<bool> {
    if p.locked then [p.selected] else []
  }

  /** `read_pciconf` up to its clear. */
  method ReadToClear(port: Port, space: U32, offset: U32, size: int, data: array<U32>)
    returns (error: int, ghost p: Passage)
    requires port.Valid() && port.RacesEnd() && DwordCount(size) <= data.Length
    modifies port, data
    ensures port.Valid() && old(port.trace) <= port.trace
    ensures LockedAt(port, old(port.trace), port.trace, p.start, p.locked)
    ensures Undisturbed(port, old(port.state)) ==>
              p.locked && OnlyTickets(old(port.state), port.lockedAt)
    ensures |port.trace| <= p.start + 3 + AccessesFor(DwordCount(size))
    ensures Waited(old(port.state), port.state)
    ensures !p.locked ==> |port.trace| == p.start && TicketAccesses(port.trace, |old(port.trace)|)
                          && data[..] == old(data[..]) && (port.Healthy() ==> error == -EINVAL)
    ensures p.locked ==>
              && Waited(old(port.state), port.lockedAt)
              && port.state.device.memory == port.lockedAt.device.memory
              && SelectionOf(port, port.lockedAt, space, offset, size, error, p)
              && ReadSoFar(port, p.at, offset, old(data[..]), data[..], port.trace, p.starts)
    ensures p.locked && Reliable(port, port.lockedAt) ==>
              && !port.state.device.busy
              && var (report, memory) := Effect(ChipOf(port.lockedAt.device), port.lockedAt.device.memory,
                                                ReadBlock(space, offset, size, old(data[..])));
                 error == report.error && data[..] == report.buffer && port.state.device.memory == memory
    ensures var report := Report(error, data[..], FoundOf(p));
            FinishSeen(old(port.Look()), Done(ReadBlock(space, offset, size, old(data[..])), report), port.Look())
  {
    hide Effect, TicketMatches, BusyReads, ReadSoFar, OnlyControl, TicketAccesses, VsecPort.Port.Healthy;
    hide VsecPort.Port.Alone, VsecPort.Port.Timely, VsecPort.Port.RacesEnd, AccessesFor;
    hide SelectionOf, VsecPort.Waited, VsecPort.OnlyTickets;
    hide BeginSeen, LockSeen, EnteredSeen, BlockSeen, FinishSeen, VsecPort.Port.Look;
    ghost var call: BlockCall := ReadBlock(space, offset, size, data[..]);
    ghost var v := port.Look();
    port.Announce(call);
    ghost var v1 := port.Look();
    error := LockVsecSemaphore(port);
    LockFollows(v, call, v1, error, port.Look());
    ghost var start, locked := |port.trace|, error == 0;
    ghost var seg, buffer := port.trace[|old(port.trace)|..], data[..];
    p := Passage(start, locked, false, port.state, []);
    if error == 0 {
      ghost var q: Passage;
      error, q := ReadLocked(port, space, offset, size, data, Course(v.between, call, v.returned));
      p := q.(start := start, locked := true);
      PassageOf(port, port.lockedAt, space, offset, size, error, q, start);
      WaitedTwice(old(port.state), port.lockedAt, port.state);
    }
    if locked {
      if !p.selected {
        NothingWasRead(port, p.at, offset, buffer, data[..], port.trace);
      }
      BlockFinishes(v, call, p.selected, |p.starts|, data[..], error, port.Look());
    }
    assert port.trace[|old(port.trace)|..start] == seg;
  }

  /** `read_pciconf`. In every environment the dwords that went through are those of `ReadSoFar`. With
      no refused accesses and a device that answers in time the call has exactly the effect that the
      atomicity theorem of the step machine gives it, on the memory that it found when the semaphore
      accepted its ticket. And if nobody else uses the gateway, whatever is refused or late, the call
      is one of the step machine's: same accesses, same device, same report. */
  method ReadPciconf(port: Port, space: U32, offset: U32, size: int, data: array<U32>)
    returns (error: int, ghost p: Passage)
    requires port.Valid() && port.RacesEnd() && DwordCount(size) <= data.Length
    modifies port, data
    ensures port.Valid() && old(port.trace) <= port.trace && EndsWithClear(port.trace)
    ensures LockedAt(port, old(port.trace), port.trace, p.start, p.locked)
    ensures Undisturbed(port, old(port.state)) ==>
              p.locked && OnlyTickets(old(port.state), port.lockedAt) && Undisturbed(port, port.state)
    ensures |port.trace| <= p.start + 4 + DwordCount(size) * 0x10002
    ensures Waited(old(port.state), port.state)
    ensures !p.locked ==> |port.trace| == p.start + 1 && TicketAccesses(port.trace, |old(port.trace)|)
                          && data[..] == old(data[..]) && (port.Healthy() ==> error == -EINVAL)
    ensures p.locked ==>
              && Waited(old(port.state), port.lockedAt)
              && port.state.device.memory == port.lockedAt.device.memory
              && SelectionOf(port, port.lockedAt, space, offset, size, error, p)
              && ReadSoFar(port, p.at, offset, old(data[..]), data[..], port.trace, p.starts)
    ensures p.locked && Reliable(port, port.lockedAt) ==>
              && !port.state.held && !port.state.device.busy
              && var (report, memory) := Effect(ChipOf(port.lockedAt.device), port.lockedAt.device.memory,
                                                ReadBlock(space, offset, size, old(data[..])));
                 error == report.error && data[..] == report.buffer && port.state.device.memory == memory
    ensures old(port.Idle()) ==>
              && port.Idle()
              && port.Returned() == old(port.Returned())
                   + [Done(ReadBlock(space, offset, size, old(data[..])), Report(error, data[..], FoundOf(p)))]
  {
    hide Effect, TicketMatches, BusyReads, ReadSoFar, WrittenSoFar, Stored, TicketAccesses, SelectionOf, AccessesFor;
    hide VsecPort.Port.Healthy, VsecPort.Port.Alone, VsecPort.Port.Timely, VsecPort.Port.RacesEnd;
    hide FinishSeen, ClearSeen, VsecPort.Port.Following, VsecPort.Port.Idle, VsecPort.Port.Returned, VsecPort.Waited;
    ghost var v := port.Look();
    ghost var buffer := data[..];
    error, p := ReadToClear(port, space, offset, size, data);
    ghost var trace := port.trace;
    AccessesForIs(DwordCount(size));
    ClearWaits(old(port.state), port.state);
    ghost var v1 := port.Look();
    var _ := ClearVsecSemaphore(port);
    CallEnds(v, Done(ReadBlock(space, offset, size, buffer), Report(error, data[..], FoundOf(p))), v1, port.Look());
    assert port.trace[|old(port.trace)|..p.start] == trace[|old(port.trace)|..p.start];
    if p.locked {
      ReadStopped(port, p.at, offset, |p.starts|, buffer, data[..], trace, port.trace, p.starts);
    } else {
      ClearIsTicketAccess(trace, |old(port.trace)|, port.trace);
    }
  }

  /** Memory after the writes of `WriteDwords`, from the state in which the space had been selected. */
  ghost predicate StoredSoFar(port: Port, offset: U32, size: int, data: seq<U32>, memory: Memory, trace: seq<Entry>,
                              p: Passage)
    requires DwordCount(size) <= |data| && |p.starts| <= DwordCount(size)
  {
    && WrittenSoFar(offset, trace, p.starts)
    && var stored := Stored(port, p.at, offset, data, p.starts);
       || memory == stored
       || (|p.starts| < DwordCount(size) && !port.Healthy()
           && memory == stored[KeyOf(p.at, DwordAddress(offset, |p.starts|)) := data[|p.starts|]])
  }

  /** The part of `write_pciconf` between the lock and the clear. */
  method WriteLocked(port: Port, space: U32, offset: U32, size: int, data: array<U32>, ghost c: Course)
    returns (error: int, ghost p: Passage)
    requires port.Valid() && DwordCount(size) <= data.Length
    requires c.call == WriteBlock(space, offset, size, data[..]) && EnteredSeen(c, port.Look())
    modifies port
    ensures port.Valid() && old(port.trace) <= port.trace && port.lockedAt == old(port.lockedAt)
    ensures |port.trace| <= |old(port.trace)| + 3 + AccessesFor(DwordCount(size))
    ensures Waited(old(port.state), port.state)
    ensures SelectionOf(port, old(port.state), space, offset, size, error, p)
    ensures |p.starts| <= DwordCount(size)
    ensures StoredSoFar(port, offset, size, data[..], port.state.device.memory, port.trace, p)
    ensures Reliable(port, old(port.state)) ==>
              && !port.state.device.busy
              && var (report, memory) := Effect(ChipOf(old(port.state.device)), old(port.state.device.memory),
                                                WriteBlock(space, offset, size, data[..]));
                 error == report.error && port.state.device.memory == memory
    ensures BlockSeen(c, p.selected, |p.starts|, data[..], error, port.Look())
  {
    hide Registers.SpaceOf, Registers.SelectSpace, Gateway.CompleteTransfer, Gateway.ControlWord;
    hide VsecPort.Port.Healthy, VsecPort.Port.Timely, Blocks.DwordAddress, Blocks.Accepted, Blocks.Written;
    hide Stored, WrittenSoFar;
    hide EnteredSeen, SelectSeen, HeadSeen, StopSeen, VsecPort.Port.Look;
    ghost var v := port.Look();
    error := SetAddressSpace(port, space);
    SelectionFollows(c, v, error, port.Look());
    p := Passage(0, true, error == 0, port.state, []);
    if error != 0 {
      NothingStored(port, offset, data[..], port.trace);
      return;
    }
    ghost var starts: seq<nat>;
    error, starts := WriteDwords(port, offset, size, data, c);
    p := p.(starts := starts);
    if Reliable(port, old(port.state)) {
      TimelyWrite(port, p.at, offset, data[..], starts);
      InTime(port, starts);
    }
  }

  lemma NothingStored(port: Port, offset: U32, data: seq<U32>, trace: seq<Entry>)
    ensures WrittenSoFar(offset, trace, [])
    ensures Stored(port, port.state, offset, data, []) == port.state.device.memory
  {
  }

  /** `write_pciconf` up to its clear. */
  method WriteToClear(port: Port, space: U32, offset: U32, size: int, data: array<U32>)
    returns (error: int, ghost p: Passage)
    requires port.Valid() && port.RacesEnd() && DwordCount(size) <= data.Length
    modifies port
    ensures port.Valid() && old(port.trace) <= port.trace
    ensures LockedAt(port, old(port.trace), port.trace, p.start, p.locked)
    ensures Undisturbed(port, old(port.state)) ==>
              p.locked && OnlyTickets(old(port.state), port.lockedAt)
    ensures |port.trace| <= p.start + 3 + AccessesFor(DwordCount(size))
    ensures Waited(old(port.state), port.state)
    ensures !p.locked ==> |port.trace| == p.start && TicketAccesses(port.trace, |old(port.trace)|)
                          && (port.Healthy() ==> error == -EINVAL)
    ensures p.locked ==>
              && Waited(old(port.state), port.lockedAt)
              && SelectionOf(port, port.lockedAt, space, offset, size, error, p) && |p.starts| <= DwordCount(size)
              && StoredSoFar(port, offset, size, data[..], port.state.device.memory, port.trace, p)
    ensures p.locked && Reliable(port, port.lockedAt) ==>
              && !port.state.device.busy
              && var (report, memory) := Effect(ChipOf(port.lockedAt.device), port.lockedAt.device.memory,
                                                WriteBlock(space, offset, size, data[..]));
                 error == report.error && port.state.device.memory == memory
    ensures var report := Report(error, data[..], FoundOf(p));
            FinishSeen(old(port.Look()), Done(WriteBlock(space, offset, size, data[..]), report), port.Look())
  {
    hide Effect, TicketMatches, BusyReads, WrittenSoFar, Stored, OnlyControl, TicketAccesses, VsecPort.Port.Healthy;
    hide VsecPort.Port.Alone, VsecPort.Port.Timely, VsecPort.Port.RacesEnd, AccessesFor;
    hide SelectionOf, VsecPort.Waited, VsecPort.OnlyTickets;
    hide BeginSeen, LockSeen, EnteredSeen, BlockSeen, FinishSeen, VsecPort.Port.Look;
    ghost var call: BlockCall := WriteBlock(space, offset, size, data[..]);
    ghost var v := port.Look();
    port.Announce(call);
    ghost var v1 := port.Look();
    error := LockVsecSemaphore(port);
    LockFollows(v, call, v1, error, port.Look());
    ghost var start, locked := |port.trace|, error == 0;
    ghost var seg := port.trace[|old(port.trace)|..];
    p := Passage(start, locked, false, port.state, []);
    if error == 0 {
      ghost var q: Passage;
      error, q := WriteLocked(port, space, offset, size, data, Course(v.between, call, v.returned));
      p := q.(start := start, locked := true);
      PassageOf(port, port.lockedAt, space, offset, size, error, q, start);
      WaitedTwice(old(port.state), port.lockedAt, port.state);
    }
    if locked {
      BlockFinishes(v, call, p.selected, |p.starts|, data[..], error, port.Look());
    }
    assert port.trace[|old(port.trace)|..start] == seg;
  }

  /** `write_pciconf`, like `ReadPciconf`. */
  method WritePciconf(port: Port, space: U32, offset: U32, size: int, data: array<U32>)
    returns (error: int, ghost p: Passage)
    requires port.Valid() && port.RacesEnd() && DwordCount(size) <= data.Length
    modifies port
    ensures port.Valid() && old(port.trace) <= port.trace && EndsWithClear(port.trace)
    ensures LockedAt(port, old(port.trace), port.trace, p.start, p.locked)
    ensures Undisturbed(port, old(port.state)) ==>
              p.locked && OnlyTickets(old(port.state), port.lockedAt) && Undisturbed(port, port.state)
    ensures |port.trace| <= p.start + 4 + DwordCount(size) * 0x10002
    ensures Waited(old(port.state), port.state)
    ensures !p.locked ==> |port.trace| == p.start + 1 && TicketAccesses(port.trace, |old(port.trace)|)
                          && (port.Healthy() ==> error == -EINVAL)
    ensures p.locked ==>
              && Waited(old(port.state), port.lockedAt)
              && SelectionOf(port, port.lockedAt, space, offset, size, error, p) && |p.starts| <= DwordCount(size)
              && StoredSoFar(port, offset, size, data[..], port.state.device.memory, port.trace, p)
    ensures p.locked && Reliable(port, port.lockedAt) ==>
              && !port.state.held && !port.state.device.busy
              && var (report, memory) := Effect(ChipOf(port.lockedAt.device), port.lockedAt.device.memory,
                                                WriteBlock(space, offset, size, data[..]));
                 error == report.error && port.state.device.memory == memory
    ensures old(port.Idle()) ==>
              && port.Idle()
              && port.Returned() == old(port.Returned())
                   + [Done(WriteBlock(space, offset, size, data[..]), Report(error, data[..], FoundOf(p)))]
  {
    hide Effect, TicketMatches, BusyReads, ReadSoFar, WrittenSoFar, Stored, TicketAccesses, SelectionOf, AccessesFor;
    hide VsecPort.Port.Healthy, VsecPort.Port.Alone, VsecPort.Port.Timely, VsecPort.Port.RacesEnd;
    hide FinishSeen, ClearSeen, VsecPort.Port.Following, VsecPort.Port.Idle, VsecPort.Port.Returned, VsecPort.Waited;
    ghost var v := port.Look();
    error, p := WriteToClear(port, space, offset, size, data);
    ghost var trace := port.trace;
    AccessesForIs(DwordCount(size));
    ClearWaits(old(port.state), port.state);
    ghost var v1 := port.Look();
    var _ := ClearVsecSemaphore(port);
    CallEnds(v, Done(WriteBlock(space, offset, size, data[..]), Report(error, data[..], FoundOf(p))), v1, port.Look());
    assert port.trace[|old(port.trace)|..p.start] == trace[|old(port.trace)|..p.start];
    if p.locked {
      WriteStopped(offset, |p.starts|, trace, port.trace, p.starts);
    } else {
      ClearIsTicketAccess(trace, |old(port.trace)|, port.trace);
    }
  }
}
