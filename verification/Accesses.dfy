/** What one agent of the step machine asks of configuration space, access by access. */
module Accesses {
  import opened Bits
  import opened Errno
  import opened Registers
  import opened Gateway

  datatype Entry = Got(register: Register, value: nat) | Put(register: Register, value: nat) | Failed

  datatype Request = ToRead(register: Register) | ToWrite(register: Register, value: nat)

  /** The access an agent makes next. */
  function Wanted(l: Local): Request {
    match l.pc
    case SemaphoreRead => ToRead(Semaphore)
    case TicketRead => ToRead(Counter)
    case TicketWrite => ToWrite(Semaphore, l.ticket)
    case TicketCheck => ToRead(Semaphore)
    case ControlRead => ToRead(Control)
    case ControlWrite => ToWrite(Control, SelectSpace(l.value, CurrentSpace(l)))
    case ControlCheck => ToRead(Control)
    case ReadAddress => ToWrite(Address, TransferWord(l, READ_OPERATION))
    case ReadPoll => ToRead(Address)
    case ReadData => ToRead(Data)
    case WriteData => ToWrite(Data, BufferAt(l.buffer, l.index))
    case WriteAddress => ToWrite(Address, TransferWord(l, WRITE_OPERATION))
    case WritePoll => ToRead(Address)
    case DwordRead => ToRead(if l.call.ReadDword? then l.call.register else Other(0))
    case Clear => ToWrite(Semaphore, 0)
  }

  /** That access, with the value a read of the device gives. */
  function Made(d: Device, l: Local): Entry {
    match Wanted(l)
    case ToRead(register) => Got(register, ReadRegister(d, register).1)
    case ToWrite(register, value) => Put(register, value)
  }

  function Word(value: nat): U32 {
    if value < WORD_LIMIT then value else 0
  }

  /** The agent after a successful access, from the value it read alone. */
  function Took(l: Local, value: nat): Local {
    match l.pc
    case SemaphoreRead =>
      if value != 0 then LoopTest(l.(retries := l.retries + 1), value) else l.(pc := TicketRead)
    case TicketRead => l.(pc := TicketWrite, ticket := value)
    case TicketWrite => l.(pc := TicketCheck)
    case TicketCheck => LoopTest(l, value)
    case ControlRead => l.(pc := ControlWrite, value := Word(value))
    case ControlWrite => l.(pc := ControlCheck)
    case ControlCheck =>
      SpaceSelected(l.(value := Word(value)), if StatusOf(Word(value)) == 0 then -EINVAL else 0)
    case ReadAddress => l.(pc := ReadPoll, polls := 0)
    case ReadPoll => Poll(l, FlagOf(Word(value)) == 1, l.(pc := ReadData))
    case ReadData => DwordDone(l.(buffer := BufferStore(l.buffer, l.index, Word(value))))
    case WriteData => l.(pc := WriteAddress)
    case WriteAddress => l.(pc := WritePoll, polls := 0)
    case WritePoll => Poll(l, FlagOf(Word(value)) == 0, DwordDone(l))
    case DwordRead =>
      l.(pc := Clear, buffer := if Wanted(l).register.Other? then [Word(value)] else [])
    case Clear => l
  }

  /** What a write to a register does to the device, as far as no other agent is concerned. */
  function Store(d: Device, register: Register, value: nat): Device
    requires register != Semaphore ==> value < WORD_LIMIT
  {
    match register
    case Semaphore => if value == 0 then d.(semaphore := 0) else OfferTicket(d, value)
    case Control => d.(control := value)
    case Address => StartTransfer(d, value)
    case Data => d.(data := value)
    case _ => d
  }

  lemma LockStepIs(d: Device, l: Local)
    requires InLock(l) && (l.pc == TicketWrite ==> l.ticket != 0)
    ensures LockStep(d, l).1 == Took(l, Made(d, l).value)
    ensures Wanted(l).ToRead? ==> LockStep(d, l).0 == ReadRegister(d, Wanted(l).register).0
    ensures Wanted(l).ToWrite? ==> LockStep(d, l).0 == Store(d, Wanted(l).register, Wanted(l).value)
  {
    hide LoopTest;
  }

  lemma CriticalStepIs(d: Device, l: Local)
    requires InCritical(l) && l.pc != Clear
    ensures CriticalStep(d, l).1 == Took(l, Made(d, l).value)
    ensures Wanted(l).ToRead? ==> CriticalStep(d, l).0 == ReadRegister(d, Wanted(l).register).0
    ensures Wanted(l).ToWrite? ==>
              && (Wanted(l).register != Semaphore ==> Wanted(l).value < WORD_LIMIT)
              && CriticalStep(d, l).0 == Store(d, Wanted(l).register, Wanted(l).value)
  {
    hide Registers.SelectSpace, Registers.StatusOf, Registers.FlagOf, Gateway.TransferWord, Gateway.ControlWord;
    hide Gateway.SpaceSelected, Gateway.DwordDone, Gateway.BufferStore, Gateway.BufferAt, Gateway.CurrentSpace;
  }

  /** No local variable of a call but those that its report and its course depend on at the borders of
      the driver's functions. */
  function Bare(l: Local): Local {
    l.(ticket := 0, retries := 0, value := 0, polls := 0)
  }

  /** What the local computation of an agent does to those variables. */
  lemma BareCommutes(l: Local, error: int)
    ensures EnterCritical(Bare(l)) == Bare(EnterCritical(l))
    ensures SpaceSelected(Bare(l), error) == Bare(SpaceSelected(l, error))
    ensures l.call.ReadBlock? || l.call.WriteBlock? ==> NextDword(Bare(l)) == Bare(NextDword(l))
    ensures DwordDone(Bare(l)) == Bare(DwordDone(l))
    ensures ReportOf(Bare(l)) == ReportOf(l)
  {
    hide Registers.SetRwAddress;
  }

  // ------------------------------------------------------------------
  // An agent from outside

  /** A finished call. */
  datatype Done = Done(call: Call, report: Report)

  function DoneOf(l: Local): Done {
    Done(l.call, ReportOf(l))
  }

  /** What is known of the agent that follows a caller: whether it is in step within a call, whether it
      is in step between two calls, where it stands, and what its calls so far have returned. */
  datatype View = View(within: bool, between: bool, local: Local, returned: seq<Done>)

  predicate Stands(v: View, l: Local, returned: seq<Done>) {
    v.within && v.local == l && v.returned == returned
  }

  predicate Rests(v: View, returned: seq<Done>) {
    v.between && v.returned == returned
  }

  /** The caller began a call. */
  predicate BeginSeen(v: View, call: Call, v': View) {
    v.between ==> Stands(v', Begin(call), v.returned)
  }

  /** The caller read a register, and the agent did the same if that was its next access. */
  predicate ReadSeen(v: View, r: Register, error: int, value: nat, v': View) {
    v.within && Wanted(v.local) == ToRead(r) ==>
      Stands(v', if error == 0 then Took(v.local, value) else RefusedStep(v.local, error), v.returned)
  }

  /** The caller wrote a register; the write of a clear ends the call. */
  predicate WriteSeen(v: View, r: Register, value: nat, error: int, v': View) {
    v.within && Wanted(v.local) == ToWrite(r, value) ==>
      if v.local.pc == Clear then Rests(v', v.returned + [DoneOf(v.local)])
      else (r == Semaphore ==> value != 0) ==>
        Stands(v', if error == 0 then Took(v.local, value) else RefusedStep(v.local, error), v.returned)
  }

  // ------------------------------------------------------------------
  // The accesses of a run

  /** The access of agent `a` that an event is, if it is one. */
  function EntryOf(s: State, e: Event, a: nat): seq<Entry> {
    if a !in s.agents then []
    else if e == Access(a) then [Made(s.device, s.agents[a])]
    else if e.Refuse? && e.agent == a && e.code != 0 then [Failed]
    else []
  }

  /** All accesses of agent `a` on a run. */
  function EntriesOf(s: State, events: seq<Event>, a: nat): seq<Entry>
    decreases |events|
  {
    if events == [] then [] else EntryOf(s, events[0], a) + EntriesOf(Next(s, events[0]), events[1..], a)
  }

  /** The call of agent `a` that an event ends, if it ends one. */
  function Ends(s: State, e: Event, a: nat): seq<Done> {
    if a in s.agents && s.agents[a].pc == Clear && (e == Access(a) || (e.Refuse? && e.agent == a && e.code != 0))
    then [DoneOf(s.agents[a])]
    else []
  }

  /** All calls that agent `a` has finished on a run, with what they returned. */
  function Returns(s: State, events: seq<Event>, a: nat): seq<Done>
    decreases |events|
  {
    if events == [] then [] else Ends(s, events[0], a) + Returns(Next(s, events[0]), events[1..], a)
  }

  lemma {:induction false} OneMoreEvent(s: State, events: seq<Event>, e: Event, a: nat)
    ensures Run(s, events + [e]) == Next(Run(s, events), e)
    ensures EntriesOf(s, events + [e], a) == EntriesOf(s, events, a) + EntryOf(Run(s, events), e, a)
    ensures Returns(s, events + [e], a) == Returns(s, events, a) + Ends(Run(s, events), e, a)
    decreases |events|
  {
    hide EntryOf, Ends, Next;
    if events == [] {
      assert events + [e] == [e] && [e][1..] == [];
      var s' := Next(s, e);
      assert Run(s', []) == s' && EntriesOf(s', [], a) == [] && Returns(s', [], a) == [];
    } else {
      assert (events + [e])[0] == events[0] && (events + [e])[1..] == events[1..] + [e];
      OneMoreEvent(Next(s, events[0]), events[1..], e, a);
    }
  }
}
