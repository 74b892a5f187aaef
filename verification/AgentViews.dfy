/** The agent that follows a caller, across the driver's functions: what each function makes of the
    view of it. Every predicate is an implication: nothing is claimed when the agent is not in step. */
module AgentViews {
  import opened Bits
  import opened Errno
  import opened Registers
  import opened Blocks
  import opened Gateway
  import opened Accesses
  import opened AgentSteps

  /** The agent stands at `l`, but for the variables that nobody looks at there. */
  predicate Near(v: View, l: Local, returned: seq<Done>) {
    v.within && Bare(v.local) == l && v.returned == returned
  }

  // ------------------------------------------------------------------
  // The lock

  /** The semaphore is cleared: the call ends with its report. */
  predicate ClearSeen(v: View, v': View) {
    v.within && v.local.pc == Clear ==> Rests(v', v.returned + [DoneOf(v.local)])
  }

  lemma ClearFollows(v: View, error: int, v': View)
    requires WriteSeen(v, Semaphore, 0, error, v')
    ensures ClearSeen(v, v')
  {
  }

  /** A ticket is offered. */
  predicate TicketSeen(v: View, counter: nat, lockValue: nat, error: int, v': View) {
    v.within && v.local.pc == TicketRead ==>
      if error == 0 then
        Stands(v', LoopTest(v.local.(pc := TicketCheck, ticket := counter), lockValue), v.returned)
      else
        Near(v', Bare(v.local).(pc := Clear, error := error), v.returned)
  }

  lemma CounterRefused(v: View, error: int, value: nat, counter: nat, lockValue: nat, v': View)
    requires ReadSeen(v, Counter, error, value, v') && error != 0
    ensures TicketSeen(v, counter, lockValue, error, v')
  {
  }

  lemma OfferRefused(v: View, counter: nat, v1: View, error: int, lockValue: nat, v': View)
    requires ReadSeen(v, Counter, 0, counter, v1) && counter != 0
    requires WriteSeen(v1, Semaphore, counter, error, v') && error != 0
    ensures TicketSeen(v, counter, lockValue, error, v')
  {
  }

  lemma TicketFollows(v: View, counter: nat, v1: View, v2: View, error: int, lockValue: nat, v': View)
    requires ReadSeen(v, Counter, 0, counter, v1) && counter != 0
    requires WriteSeen(v1, Semaphore, counter, 0, v2) && ReadSeen(v2, Semaphore, error, lockValue, v')
    ensures TicketSeen(v, counter, lockValue, error, v')
  {
    hide LoopTest;
  }

  /** The loop of the lock, which the caller entered with view `v`. */
  predicate TurnSeen(v: View, retries: nat, counter: nat, again: bool, v': View) {
    v.within && AtStart(v.local) ==> Stands(v', HeadOf(v.local, retries, counter, again), v.returned)
  }

  predicate LockSeen(v: View, error: int, v': View) {
    v.within && AtStart(v.local) ==>
      Near(v', if error == 0 then EnterCritical(Bare(v.local)) else Bare(v.local).(pc := Clear, error := error),
           v.returned)
  }

  lemma TurnsBegin(v: View)
    ensures TurnSeen(v, 0, 0, true, v)
  {
    if AtStart(v.local) {
      StartOfAgent(v.local);
    }
  }

  lemma TurnRefused(v: View, retries: nat, counter: nat, v1: View, error: int, value: nat, v': View)
    requires TurnSeen(v, retries, counter, true, v1) && retries <= SEMAPHORE_MAX_RETRIES
    requires ReadSeen(v1, Semaphore, error, value, v') && error != 0
    ensures LockSeen(v, error, v')
  {
  }

  lemma BusyTurn(v: View, retries: nat, counter: nat, v1: View, lockValue: nat, v': View)
    requires TurnSeen(v, retries, counter, true, v1) && retries <= SEMAPHORE_MAX_RETRIES
    requires ReadSeen(v1, Semaphore, 0, lockValue, v') && lockValue != 0 && lockValue != counter
    ensures TurnSeen(v, retries + 1, counter, true, v')
  {
    TurnOfAgent(v.local, retries, counter, lockValue);
    hide HeadOf, Took;
  }

  lemma FreeTurn(v: View, retries: nat, counter0: nat, v1: View, v2: View, counter: nat, lockValue: nat,
                 error: int, v': View)
    requires TurnSeen(v, retries, counter0, true, v1) && retries <= SEMAPHORE_MAX_RETRIES
    requires ReadSeen(v1, Semaphore, 0, 0, v2) && TicketSeen(v2, counter, lockValue, error, v')
    ensures error == 0 ==> TurnSeen(v, retries, counter, counter != lockValue, v')
    ensures error != 0 ==> LockSeen(v, error, v')
  {
    TurnOfAgent(v.local, retries, counter0, 0);
    TurnOfAgent(v.local, retries, counter, lockValue);
    hide HeadOf, Took, LoopTest;
  }

  lemma LockEnds(v: View, retries: nat, counter: nat, again: bool, v': View)
    requires TurnSeen(v, retries, counter, again, v') && (again ==> retries > SEMAPHORE_MAX_RETRIES)
    ensures LockSeen(v, if again then -EINVAL else 0, v')
  {
    EndOfAgent(v.local, retries, counter);
    hide HeadOf, EnterCritical;
  }

  // ------------------------------------------------------------------
  // `read_dword`

  /** A whole call. */
  predicate CallSeen(v: View, done: Done, v': View) {
    v.between ==> Rests(v', v.returned + [done])
  }

  lemma DwordUnlocked(v: View, register: Register, v1: View, error: int, v2: View, v': View)
    requires BeginSeen(v, AnyCall.ReadDword(register), v1)
    requires LockSeen(v1, error, v2) && error != 0 && ClearSeen(v2, v')
    ensures CallSeen(v, Done(AnyCall.ReadDword(register), Report(error, [], [])), v')
  {
    DwordOfAgent(register, 0, error);
    BareCommutes(v2.local, 0);
    hide EnterCritical;
  }

  lemma DwordFollows(v: View, register: Register, v1: View, v2: View, error: int, data: nat, v3: View, v': View)
    requires BeginSeen(v, AnyCall.ReadDword(register), v1) && LockSeen(v1, 0, v2)
    requires ReadSeen(v2, register, error, data, v3) && ClearSeen(v3, v')
    ensures var report := Report(error, if error == 0 && register.Other? then [Word(data)] else [], []);
            CallSeen(v, Done(AnyCall.ReadDword(register), report), v')
  {
    DwordOfAgent(register, data, error);
    DwordRefused(v2.local, register, data, error);
    BareCommutes(v3.local, 0);
    hide EnterCritical, Took, RefusedStep, ReportOf;
  }

  // ------------------------------------------------------------------
  // Polls and address spaces

  predicate PollSeen(v: View, expected: nat, error: int, v': View) {
    v.within && Polling(v.local, expected) && v.local.polls == 0 ==>
      Near(v', if error == 0 then PollsEnd(Bare(v.local)) else TransferFailed(Bare(v.local)), v.returned)
  }

  /** After `k` polls that did not see the flag. */
  predicate PollingSeen(v: View, expected: nat, k: nat, v': View) {
    v.within && Polling(v.local, expected) && v.local.polls == 0 ==> Stands(v', v.local.(polls := k), v.returned)
  }

  lemma PollsBegin(v: View, expected: nat)
    ensures PollingSeen(v, expected, 0, v)
  {
  }

  lemma PollFollows(v: View, expected: nat, k: nat, v1: View, error: int, word: nat, v': View)
    requires PollingSeen(v, expected, k, v1) && k < IFC_MAX_RETRIES
    requires ReadSeen(v1, Address, error, word, v') && (error == 0 ==> word < WORD_LIMIT)
    ensures error != 0 ==> PollSeen(v, expected, error, v')
    ensures error == 0 ==>
              if FlagOf(word) == expected || k + 1 == IFC_MAX_RETRIES then PollSeen(v, expected, 0, v')
              else PollingSeen(v, expected, k + 1, v')
  {
    PollOfAgent(v.local, expected, k, if error == 0 then word else 0);
    PollRefused(v.local, expected, k, error);
    hide Took, RefusedStep, PollsEnd, Registers.FlagOf;
  }

  predicate SelectSeen(v: View, space: U32, error: int, v': View) {
    v.within && Selects(v.local, space) ==> Near(v', SpaceSelected(Bare(v.local), error), v.returned)
  }

  lemma FirstRefused(v: View, space: U32, error: int, value: nat, v': View)
    requires ReadSeen(v, Control, error, value, v') && error != 0
    ensures SelectSeen(v, space, error, v')
  {
    SelectionRefused(v.local, space, 0, error);
    hide SpaceSelected, RefusedStep;
  }

  lemma SelectFollows(v: View, space: U32, first: U32, v1: View, failed: int, v2: View, error: int, second: nat,
                      v': View)
    requires ReadSeen(v, Control, 0, first, v1)
    requires WriteSeen(v1, Control, SelectSpace(first, space), failed, v2)
    requires failed == 0 ==> ReadSeen(v2, Control, error, second, v') && (error == 0 ==> second < WORD_LIMIT)
    ensures failed != 0 ==> SelectSeen(v, space, failed, v2)
    ensures failed == 0 ==>
              SelectSeen(v, space, if error == 0 && StatusOf(second) == 0 then -EINVAL else error, v')
  {
    SelectionOfAgent(v.local, space, first, if failed == 0 == error then second else 0);
    SelectionRefused(v.local, space, first, failed);
    SelectionRefused(v.local, space, first, error);
    hide SpaceSelected, RefusedStep, Took, Registers.SelectSpace, Registers.StatusOf, Wanted, Bare, Selects;
  }

  // ------------------------------------------------------------------
  // Single dwords

  predicate DwordReadSeen(v: View, address: U32, error: int, data: U32, v': View) {
    if address >= ADDRESS_LIMIT then v' == v
    else
      v.within && ReadsAt(v.local, address) ==>
        var l := Bare(v.local);
        Near(v', if error == 0 then DwordDone(l.(buffer := BufferStore(l.buffer, l.index, data)))
                 else TransferFailed(l), v.returned)
  }

  lemma ReadRefused(v: View, address: U32, error: int, data: U32, v': View)
    requires SetRwAddress(address, READ_OPERATION).Packed? && address < ADDRESS_LIMIT && error != 0
    requires WriteSeen(v, Address, SetRwAddress(address, READ_OPERATION).word, error, v')
    ensures DwordReadSeen(v, address, error, data, v')
  {
    ReadOfAgent(v.local, address, error);
    hide Registers.SetRwAddress, RefusedStep, Bare, TransferFailed, Blocks.DwordAddress;
  }

  lemma ReadFollows(v: View, address: U32, v1: View, failed: int, v2: View, error: int, value: nat, data: U32, v': View)
    requires SetRwAddress(address, READ_OPERATION).Packed? && address < ADDRESS_LIMIT
    requires WriteSeen(v, Address, SetRwAddress(address, READ_OPERATION).word, 0, v1)
    requires PollSeen(v1, 1, failed, v2)
    requires failed == 0 ==> ReadSeen(v2, Data, error, value, v') && (error == 0 ==> data == value)
    ensures failed != 0 ==> DwordReadSeen(v, address, failed, data, v2)
    ensures failed == 0 ==> DwordReadSeen(v, address, error, data, v')
  {
    if v.within && ReadsAt(v.local, address) {
      ReadOfAgent(v.local, address, failed);
      if failed == 0 {
        DataOfAgent(v.local, v2.local, if error == 0 then value else 0, error);
      }
      hide Registers.SetRwAddress, RefusedStep, Took, Bare, TransferFailed, Blocks.DwordAddress;
      hide DwordDone, BufferStore, PollsEnd, Polling;
      assert v.local.pc == ReadAddress;
    }
  }

  predicate DwordWrittenSeen(v: View, address: U32, data: U32, error: int, v': View) {
    if address >= ADDRESS_LIMIT then v' == v
    else
      v.within && WritesAt(v.local, address, data) ==>
        Near(v', if error == 0 then DwordDone(Bare(v.local)) else TransferFailed(Bare(v.local)), v.returned)
  }

  lemma WriteRefused(v: View, address: U32, data: U32, error: int, v': View)
    requires SetRwAddress(address, WRITE_OPERATION).Packed? && address < ADDRESS_LIMIT && error != 0
    requires WriteSeen(v, Data, data, error, v')
    ensures DwordWrittenSeen(v, address, data, error, v')
  {
    WriteOfAgent(v.local, address, data, error);
    hide Registers.SetRwAddress, RefusedStep, Bare, TransferFailed, Blocks.DwordAddress;
  }

  lemma WriteFollows(v: View, address: U32, data: U32, v1: View, failed: int, v2: View, error: int, v': View)
    requires SetRwAddress(address, WRITE_OPERATION).Packed? && address < ADDRESS_LIMIT
    requires WriteSeen(v, Data, data, 0, v1)
    requires WriteSeen(v1, Address, SetRwAddress(address, WRITE_OPERATION).word, failed, v2)
    requires failed == 0 ==> PollSeen(v2, 0, error, v')
    ensures failed != 0 ==> DwordWrittenSeen(v, address, data, failed, v2)
    ensures failed == 0 ==> DwordWrittenSeen(v, address, data, error, v')
  {
    if v.within && WritesAt(v.local, address, data) {
      WriteOfAgent(v.local, address, data, failed);
      hide Registers.SetRwAddress, RefusedStep, Took, Bare, TransferFailed, Blocks.DwordAddress;
      hide DwordDone, PollsEnd, Polling;
      assert v.local.pc == WriteData;
    }
  }

  // ------------------------------------------------------------------
  // Blocks

  type BlockCall = c: Call | c.ReadBlock? || c.WriteBlock? witness AnyCall.ReadBlock(0, 0, 0, [])

  /** A block call that the agent may be in, `on` if it is, and what was returned before it. */
  datatype Course = Course(on: bool, call: BlockCall, returned: seq<Done>)

  function Base(call: BlockCall): Local {
    EnterCritical(Begin(call)).(found := [true])
  }

  /** At the head of the block loop, with `k` dwords through. */
  predicate HeadSeen(c: Course, k: nat, buffer: seq<U32>, v: View) {
    c.on ==> Near(v, NextDword(Base(c.call).(index := k, buffer := buffer)), c.returned)
  }

  /** Past that loop. */
  predicate StopSeen(c: Course, k: nat, buffer: seq<U32>, v: View) {
    c.on ==> Near(v, StoppedAt(Base(c.call), k, DwordCount(c.call.size), buffer), c.returned)
  }

  lemma BaseIs(call: BlockCall)
    ensures BlockBase(Base(call), call.offset, DwordCount(call.size)) && Base(call).call == call
  {
    SelectionOfBlock(call, 0);
  }

  lemma ReadTurnFollows(c: Course, k: nat, buffer: seq<U32>, v: View, error: int, dword: U32, v': View)
    requires c.call.ReadBlock? && k < DwordCount(c.call.size) && k < |buffer|
    requires HeadSeen(c, k, buffer, v) && DwordReadSeen(v, DwordAddress(c.call.offset, k), error, dword, v')
    requires DwordAddress(c.call.offset, k) >= ADDRESS_LIMIT ==> error != 0
    ensures error == 0 ==> HeadSeen(c, k + 1, buffer[k := dword], v')
    ensures error != 0 ==> StopSeen(c, k, buffer, v')
  {
    BaseIs(c.call);
    LoopOfAgent(Base(c.call), c.call.offset, DwordCount(c.call.size), k, buffer, buffer[k := dword]);
    hide Blocks.DwordAddress, Base, BlockBase, NextDword, StoppedAt, DwordDone, TransferFailed;
  }

  lemma WriteTurnFollows(c: Course, k: nat, buffer: seq<U32>, v: View, error: int, v': View)
    requires c.call.WriteBlock? && k < DwordCount(c.call.size) && k < |buffer|
    requires HeadSeen(c, k, buffer, v)
    requires DwordWrittenSeen(v, DwordAddress(c.call.offset, k), buffer[k], error, v')
    requires DwordAddress(c.call.offset, k) >= ADDRESS_LIMIT ==> error != 0
    ensures error == 0 ==> HeadSeen(c, k + 1, buffer, v')
    ensures error != 0 ==> StopSeen(c, k, buffer, v')
  {
    BaseIs(c.call);
    LoopOfAgent(Base(c.call), c.call.offset, DwordCount(c.call.size), k, buffer, buffer);
    hide Blocks.DwordAddress, Base, BlockBase, NextDword, StoppedAt, DwordDone, TransferFailed;
  }

  lemma LoopEnds(c: Course, buffer: seq<U32>, v: View)
    requires HeadSeen(c, DwordCount(c.call.size), buffer, v)
    ensures StopSeen(c, DwordCount(c.call.size), buffer, v)
  {
    BaseIs(c.call);
    LoopOfAgent(Base(c.call), c.call.offset, DwordCount(c.call.size), DwordCount(c.call.size), buffer, buffer);
    hide Base, BlockBase, NextDword, StoppedAt;
  }

  /** Past the lock. */
  predicate EnteredSeen(c: Course, v: View) {
    c.on ==> Near(v, EnterCritical(Begin(c.call)), c.returned)
  }

  /** At the clear, with the space selected and `k` dwords through, or not selected. */
  predicate BlockSeen(c: Course, selected: bool, k: nat, buffer: seq<U32>, error: int, v: View) {
    if selected then StopSeen(c, k, buffer, v)
    else c.on ==> Near(v, EnterCritical(Begin(c.call)).(pc := Clear, found := [false], error := error), c.returned)
  }

  lemma SelectionFollows(c: Course, v: View, error: int, v': View)
    requires EnteredSeen(c, v) && SelectSeen(v, c.call.space, error, v')
    ensures error == 0 ==> HeadSeen(c, 0, c.call.buffer, v')
    ensures error != 0 ==> BlockSeen(c, false, 0, c.call.buffer, error, v')
  {
    SelectionOfBlock(c.call, error);
    hide EnterCritical, SpaceSelected, Begin, StoppedAt;
  }

  /** The agent of a whole call is at its clear, and will return this. */
  predicate FinishSeen(v: View, done: Done, v': View) {
    v.between ==> v'.within && v'.local.pc == Clear && DoneOf(v'.local) == done && v'.returned == v.returned
  }

  lemma LockFollows(v: View, call: BlockCall, v1: View, error: int, v': View)
    requires BeginSeen(v, call, v1) && LockSeen(v1, error, v')
    ensures error == 0 ==> EnteredSeen(Course(v.between, call, v.returned), v')
    ensures error != 0 ==> FinishSeen(v, Done(call, Report(error, call.buffer, [])), v')
  {
    SelectionOfBlock(call, error);
    ReportOfBlock(call, 0, 0, [], error);
    BareCommutes(v'.local, 0);
    hide EnterCritical, ReportOf, StoppedAt;
  }

  lemma BlockFinishes(v: View, call: BlockCall, selected: bool, k: nat, buffer: seq<U32>, error: int, v': View)
    requires BlockSeen(Course(v.between, call, v.returned), selected, k, buffer, error, v')
    requires if selected then error == TransferError(k, DwordCount(call.size)) else buffer == call.buffer
    ensures FinishSeen(v, Done(call, Report(error, buffer, [selected])), v')
  {
    ReportOfBlock(call, k, DwordCount(call.size), buffer, error);
    BareCommutes(v'.local, 0);
    hide EnterCritical, ReportOf, StoppedAt;
  }

  // ------------------------------------------------------------------
  // Probes

  /** Past the lock of a call that probes `spaces`, with `found` of the first ones. */
  predicate ProbingSeen(v: View, spaces: seq<U32>, found: seq<bool>, v': View) {
    v.between ==> Near(v', NextSpace(Begin(ProbeSpaces(spaces)).(found := found)), v.returned)
  }

  lemma ProbesBegin(v: View, spaces: seq<U32>, v1: View, error: int, v': View)
    requires BeginSeen(v, ProbeSpaces(spaces), v1) && LockSeen(v1, error, v')
    ensures error == 0 ==> ProbingSeen(v, spaces, [], v')
    ensures error != 0 ==> FinishSeen(v, Done(ProbeSpaces(spaces), Report(0, [], [])), v')
  {
    BareCommutes(v'.local, 0);
  }

  lemma ProbeFollows(v: View, spaces: seq<U32>, found: seq<bool>, v1: View, error: int, v': View)
    requires ProbingSeen(v, spaces, found, v1) && |found| < |spaces|
    requires SelectSeen(v1, spaces[|found|], error, v')
    ensures ProbingSeen(v, spaces, found + [error == 0], v')
  {
  }

  lemma ProbesEnd(v: View, spaces: seq<U32>, found: seq<bool>, v': View)
    requires ProbingSeen(v, spaces, found, v') && |found| == |spaces|
    ensures FinishSeen(v, Done(ProbeSpaces(spaces), Report(0, [], found)), v')
  {
    BareCommutes(v'.local, 0);
  }

  lemma CallEnds(v: View, done: Done, v1: View, v': View)
    requires FinishSeen(v, done, v1) && ClearSeen(v1, v')
    ensures CallSeen(v, done, v')
  {
  }
}
