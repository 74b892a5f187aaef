/** The agent of the step machine along the driver's functions: what it asks for next, and where the
    answers take it. */
module AgentSteps {
  import opened Bits
  import opened Errno
  import opened Registers
  import opened Blocks
  import opened Gateway
  import opened Accesses

  // ------------------------------------------------------------------
  // The lock

  /** Where the agent that began at `l0` stands then. */
  function HeadOf(l0: Local, retries: nat, counter: nat, again: bool): Local {
    var l := l0.(pc := TicketCheck, retries := retries, ticket := counter);
    if again then LoopHead(l) else EnterCritical(l)
  }

  /** The agent in the loop: it counts like the caller, and takes the same turns. */
  lemma TurnOfAgent(l0: Local, retries: nat, counter: nat, lockValue: nat)
    requires retries <= SEMAPHORE_MAX_RETRIES
    ensures var l := HeadOf(l0, retries, counter, true);
            && Wanted(l) == ToRead(Semaphore) && InLock(l)
            && Took(l, 0) == l0.(pc := TicketRead, retries := retries, ticket := counter)
            && (lockValue != 0 && lockValue != counter ==>
                  Took(l, lockValue) == HeadOf(l0, retries + 1, counter, true))
    ensures LoopTest(l0.(pc := TicketCheck, retries := retries, ticket := counter), lockValue)
         == HeadOf(l0, retries, counter, counter != lockValue)
  {
    hide EnterCritical;
  }

  predicate AtStart(l: Local) {
    l.pc == SemaphoreRead && l.retries == 0 && l.ticket == 0
  }

  lemma StartOfAgent(l0: Local)
    requires AtStart(l0)
    ensures l0 == HeadOf(l0, 0, 0, true)
  {
  }

  /** The agent past the loop, or at its clear after the last busy read. */
  lemma EndOfAgent(l0: Local, retries: nat, counter: nat)
    ensures Bare(HeadOf(l0, retries, counter, false)) == EnterCritical(Bare(l0))
    ensures retries > SEMAPHORE_MAX_RETRIES ==>
              Bare(HeadOf(l0, retries, counter, true)) == Bare(l0).(pc := Clear, error := -EINVAL)
  {
    hide Registers.SetRwAddress;
  }

  // ------------------------------------------------------------------
  // `read_dword`

  lemma DwordOfAgent(register: Register, data: nat, error: int)
    ensures var l := Begin(AnyCall.ReadDword(register));
            && AtStart(l) && Bare(l) == l && EnterCritical(l) == l.(pc := DwordRead)
            && ReportOf(l.(pc := Clear, error := error)) == Report(error, [], [])
            && ReportOf(l.(pc := Clear, buffer := if register.Other? then [Word(data)] else []))
               == Report(0, if register.Other? then [Word(data)] else [], [])
  {
  }

  lemma DwordRefused(l: Local, register: Register, data: nat, error: int)
    ensures var l0 := Begin(AnyCall.ReadDword(register));
            Bare(l) == l0.(pc := DwordRead) ==>
              && Wanted(l) == ToRead(register)
              && Bare(Took(l, data)) == l0.(pc := Clear, buffer := if register.Other? then [Word(data)] else [])
              && Bare(RefusedStep(l, error)) == l0.(pc := Clear, error := error)
  {
  }

  // ------------------------------------------------------------------
  // Polls

  /** The agent polls for the same flag. */
  predicate Polling(l: Local, expected: nat) {
    (l.pc == ReadPoll && expected == 1) || (l.pc == WritePoll && expected == 0)
  }

  function PollsEnd(l: Local): Local {
    if l.pc == ReadPoll then l.(pc := ReadData) else DwordDone(l)
  }

  lemma PollOfAgent(l: Local, expected: nat, retries: nat, word: nat)
    ensures Polling(l, expected) && retries < IFC_MAX_RETRIES && word < WORD_LIMIT ==>
              var l' := l.(polls := retries);
              && Wanted(l') == ToRead(Address)
              && if FlagOf(word) == expected || retries + 1 == IFC_MAX_RETRIES
                 then Bare(Took(l', word)) == PollsEnd(Bare(l))
                 else Took(l', word) == l.(polls := retries + 1)
    ensures l.polls == 0 ==> l == l.(polls := 0)
  {
    BareCommutes(l.(polls := retries), 0);
    hide Registers.FlagOf, Gateway.DwordDone, Registers.SetRwAddress;
  }

  lemma PollRefused(l: Local, expected: nat, retries: nat, error: int)
    ensures Polling(l, expected) ==> Bare(RefusedStep(l.(polls := retries), error)) == TransferFailed(Bare(l))
  {
  }

  // ------------------------------------------------------------------
  // Address spaces

  /** The agent is about to select the same space. */
  predicate Selects(l: Local, space: U32) {
    l.pc == ControlRead && CurrentSpace(l) == space
  }

  lemma SelectionOfAgent(l: Local, space: U32, first: nat, second: nat)
    requires first < WORD_LIMIT && second < WORD_LIMIT
    ensures Selects(l, space) ==>
              var l1 := Took(l, first);
              var l2 := Took(l1, SelectSpace(first, space));
              && Wanted(l) == ToRead(Control)
              && Wanted(l1) == ToWrite(Control, SelectSpace(first, space)) && l1.pc != Clear
              && Wanted(l2) == ToRead(Control)
              && l1 == l.(pc := ControlWrite, value := first) && l2 == l1.(pc := ControlCheck)
              && Bare(Took(l2, second)) == SpaceSelected(Bare(l), if StatusOf(second) == 0 then -EINVAL else 0)
  {
    if Selects(l, space) {
      var l2 := l.(pc := ControlCheck, value := second);
      hide Registers.SelectSpace, Registers.StatusOf;
      BareCommutes(l2, if StatusOf(second) == 0 then -EINVAL else 0);
      SpaceSelectedFromAnywhere(Bare(l2), Bare(l), if StatusOf(second) == 0 then -EINVAL else 0);
      hide SpaceSelected, Bits.Merge;
    }
  }

  /** Selecting a space overwrites the program counter. */
  lemma SpaceSelectedFromAnywhere(l: Local, l': Local, error: int)
    requires l == l'.(pc := l.pc)
    ensures SpaceSelected(l, error) == SpaceSelected(l', error)
  {
    hide Registers.SetRwAddress;
  }

  lemma SelectionRefused(l: Local, space: U32, value: nat, error: int)
    requires value < WORD_LIMIT
    ensures Selects(l, space) && error != 0 ==>
              && Bare(RefusedStep(l, error)) == SpaceSelected(Bare(l), error)
              && Bare(RefusedStep(l.(pc := ControlWrite, value := value), error)) == SpaceSelected(Bare(l), error)
              && Bare(RefusedStep(l.(pc := ControlCheck, value := value), error)) == SpaceSelected(Bare(l), error)
  {
    if Selects(l, space) {
      var l1, l2 := l.(pc := ControlWrite, value := value), l.(pc := ControlCheck, value := value);
      BareCommutes(l, error);
      BareCommutes(l1, error);
      BareCommutes(l2, error);
      SpaceSelectedFromAnywhere(Bare(l1), Bare(l), error);
      SpaceSelectedFromAnywhere(Bare(l2), Bare(l), error);
      hide SpaceSelected;
    }
  }

  // ------------------------------------------------------------------
  // Single dwords

  /** The agent is about to read the dword at `address`. */
  predicate ReadsAt(l: Local, address: U32) {
    l.pc == ReadAddress && l.call.ReadBlock? && address == DwordAddress(l.call.offset, l.index)
  }

  lemma ReadOfAgent(l: Local, address: U32, error: int)
    requires SetRwAddress(address, READ_OPERATION).Packed?
    ensures ReadsAt(l, address) ==>
              var word := SetRwAddress(address, READ_OPERATION).word;
              var l1 := l.(pc := ReadPoll, polls := 0);
              && Wanted(l) == ToWrite(Address, word) && Took(l, word) == l1 && Polling(l1, 1)
              && PollsEnd(Bare(l1)) == Bare(l).(pc := ReadData)
              && TransferFailed(Bare(l1)) == TransferFailed(Bare(l)) == Bare(RefusedStep(l, error))
  {
    hide Registers.SetRwAddress, Blocks.DwordAddress;
  }

  lemma DataOfAgent(l: Local, l': Local, value: nat, error: int)
    requires l.call.ReadBlock? && Bare(l') == Bare(l).(pc := ReadData)
    ensures Wanted(l') == ToRead(Data)
    ensures value < WORD_LIMIT ==>
              Bare(Took(l', value)) == DwordDone(Bare(l).(buffer := BufferStore(l.buffer, l.index, value)))
    ensures Bare(RefusedStep(l', error)) == TransferFailed(Bare(l))
  {
    BareCommutes(l'.(buffer := BufferStore(l'.buffer, l'.index, Word(value))), 0);
    hide Registers.SetRwAddress, Blocks.DwordAddress, BufferStore;
  }

  /** The agent is about to write `data` to the dword at `address`. */
  predicate WritesAt(l: Local, address: U32, data: U32) {
    && l.pc == WriteData && l.call.WriteBlock? && address == DwordAddress(l.call.offset, l.index)
    && data == BufferAt(l.buffer, l.index)
  }

  lemma WriteOfAgent(l: Local, address: U32, data: U32, error: int)
    requires SetRwAddress(address, WRITE_OPERATION).Packed?
    ensures WritesAt(l, address, data) ==>
              var word := SetRwAddress(address, WRITE_OPERATION).word;
              var l1, l2 := l.(pc := WriteAddress), l.(pc := WritePoll, polls := 0);
              && Wanted(l) == ToWrite(Data, data) && Took(l, data) == l1
              && Wanted(l1) == ToWrite(Address, word) && Took(l1, word) == l2 && Polling(l2, 0)
              && PollsEnd(Bare(l2)) == DwordDone(Bare(l))
              && TransferFailed(Bare(l2)) == TransferFailed(Bare(l))
                 == Bare(RefusedStep(l, error)) == Bare(RefusedStep(l1, error))
  {
    hide Registers.SetRwAddress, Blocks.DwordAddress;
  }

  // ------------------------------------------------------------------
  // Blocks

  /** Where the agent of a block call of `n` dwords from `offset` on is when its space is selected, but
      for index and buffer. */
  predicate BlockBase(b: Local, offset: U32, n: nat) {
    && (b.call.ReadBlock? || b.call.WriteBlock?) && b.call.offset == offset && DwordCount(b.call.size) == n
    && b.error == 0 && Bare(b) == b
  }

  /** At the head of the block loop, with `k` dwords through. */
  function LoopAt(b: Local, k: nat, buffer: seq<U32>): Local
    requires b.call.ReadBlock? || b.call.WriteBlock?
  {
    NextDword(b.(index := k, buffer := buffer))
  }

  /** Past the block loop, with `k` of `n` dwords through. */
  function StoppedAt(b: Local, k: nat, n: nat, buffer: seq<U32>): Local {
    b.(pc := Clear, index := k, buffer := buffer, error := TransferError(k, n))
  }

  lemma LoopOfAgent(b: Local, offset: U32, n: nat, k: nat, buffer: seq<U32>, buffer': seq<U32>)
    requires BlockBase(b, offset, n) && k <= n
    ensures var l := LoopAt(b, k, buffer);
            var address := DwordAddress(offset, k);
            && l.index == k && (k < n && address < ADDRESS_LIMIT ==> l.buffer == buffer)
            && (k == n || address >= ADDRESS_LIMIT ==> l == StoppedAt(b, k, n, buffer))
            && (k < n && address < ADDRESS_LIMIT ==>
                  && (b.call.ReadBlock? ==> ReadsAt(l, address))
                  && (b.call.WriteBlock? && k < |buffer| ==> WritesAt(l, address, buffer[k]))
                  && TransferFailed(l) == StoppedAt(b, k, n, buffer)
                  && DwordDone(l.(buffer := buffer')) == LoopAt(b, k + 1, buffer'))
  {
    PackedAddress(DwordAddress(offset, k), READ_OPERATION);
    hide Registers.SetRwAddress, Blocks.DwordAddress;
  }

  /** From the lock to the head of the block loop, or past it when the space is not selected. */
  lemma SelectionOfBlock(call: Call, error: int)
    requires call.ReadBlock? || call.WriteBlock?
    ensures var l := EnterCritical(Begin(call));
            var b := l.(found := [true]);
            && AtStart(Begin(call)) && Bare(Begin(call)) == Begin(call) && Bare(l) == l && Selects(l, call.space)
            && BlockBase(b, call.offset, DwordCount(call.size))
            && (error == 0 ==> SpaceSelected(l, error) == LoopAt(b, 0, call.buffer))
            && (error != 0 ==> SpaceSelected(l, error) == l.(pc := Clear, found := [false], error := error))
  {
    hide Registers.SetRwAddress, Blocks.DwordAddress;
  }

  /** The report of a block call that has come to its clear. */
  lemma ReportOfBlock(call: Call, k: nat, n: nat, buffer: seq<U32>, error: int)
    requires call.ReadBlock? || call.WriteBlock?
    ensures var l := EnterCritical(Begin(call));
            && StoppedAt(l.(found := [true]), k, n, buffer).pc == Clear
            && ReportOf(StoppedAt(l.(found := [true]), k, n, buffer)) == Report(TransferError(k, n), buffer, [true])
            && ReportOf(l.(pc := Clear, found := [false], error := error)) == Report(error, call.buffer, [false])
            && ReportOf(Begin(call).(pc := Clear, error := error)) == Report(error, call.buffer, [])
  {
    hide Registers.SetRwAddress;
  }
}
