/** The configuration-space port of one VSEC device, as a single caller sees it: the device of
    the step machine, plus everything the caller does not control, given as functions of the
    number of accesses made so far. What is proved for all of those functions holds whatever is
    refused, however slow the device is, and whatever other agents do with the gateway while the
    caller does not hold the semaphore. Agents that keep to the ticket protocol do nothing to it
    while the caller does hold it; `Gateway` is where that is proved. */
module VsecPort {
  import opened Bits
  import opened Registers
  import opened Blocks
  import opened Gateway
  import opened Accesses

  /** `held`: the ticket in the semaphore is the caller's. `remaining`: polls of the address
      register that still find the device busy. */
  datatype PortState = PortState(device: Device, held: bool, remaining: nat)

  /** What other agents have left behind since the caller's last look at the semaphore. */
  datatype Interim =
    | Untouched
    | Left(control: U32, address: U32, data: U32, busy: bool, remaining: nat, memory: Memory)

  function AfterOthers(s: PortState, left: Interim): PortState {
    match left
    case Untouched => s
    case Left(control, address, data, busy, remaining, memory) =>
      s.(device := s.device.(control := control, address := address, data := data, busy := busy, memory := memory),
         remaining := remaining)
  }

  /** What no caller changes is the same, and tickets have only been drawn. */
  ghost predicate Waited(s: PortState, s': PortState) {
    s'.device.status == s.device.status && s'.device.config == s.device.config
    && s'.device.counter >= s.device.counter
  }

  /** Only the semaphore, the ticket counter and who holds the semaphore may differ. */
  ghost predicate OnlyTickets(s: PortState, s': PortState) {
    && s'.remaining == s.remaining && s'.device.counter >= s.device.counter
    && s'.device == s.device.(semaphore := s'.device.semaphore, counter := s'.device.counter)
  }

  /** The number under which the caller appears in the step machine. */
  const AGENT: nat := 0

  /** The device moved on, and then the agent made an access. */
  ghost function EventsOf(moved: bool, code: int): seq<Event> {
    (if moved then [Complete] else []) + [if code == 0 then Access(AGENT) else Refuse(AGENT, code)]
  }

  /** No other agent takes part. */
  ghost predicate Single(events: seq<Event>) {
    forall e :: e in events ==> e.Complete? || e.agent == AGENT
  }

  class Port {
    /** The error code of the n-th access; 0 when it succeeds. */
    const fails: nat -> int
    /** For a transfer started by the n-th access, the number of polls that find it unfinished. */
    const delay: nat -> nat
    /** Whether another agent holds the semaphore at the n-th access, if the caller does not. */
    const rival: nat -> bool
    /** What other agents have done to the gateway by the n-th access, if the caller does not hold
        the semaphore. */
    const others: nat -> Interim
    /** From this access on no ticket race is lost. */
    ghost const quiet: nat

    var state: PortState
    var trace: seq<Entry>
    /** The state in which the semaphore last accepted a ticket of the caller. */
    ghost var lockedAt: PortState
    /** The step machine, run beside the port with the caller as its only agent: its first state, the
        events so far, and the state they lead to. */
    ghost const origin: State
    ghost var events: seq<Event>
    ghost var machine: State
    /** The caller has made an access that the agent would not have made. */
    ghost var astray: bool

    constructor (fails: nat -> int, delay: nat -> nat, rival: nat -> bool, others: nat -> Interim,
                 ghost quiet: nat, device: Device)
      requires device.semaphore == 0 && device.counter > 0
      ensures this.fails == fails && this.delay == delay && this.rival == rival && this.others == others
      ensures this.quiet == quiet
      ensures Valid() && state == PortState(device, false, 0) && trace == []
      ensures origin == State(device, map[], [], [], [], []) == machine
      ensures Alone() ==> Idle()
    {
      this.fails := fails;
      this.delay := delay;
      this.rival := rival;
      this.others := others;
      this.quiet := quiet;
      state := PortState(device, false, 0);
      trace := [];
      lockedAt := PortState(device, false, 0);
      origin := State(device, map[], [], [], [], []);
      machine := State(device, map[], [], [], [], []);
      events, astray := [], false;
    }

    predicate Valid()
      reads this
    {
      && state.device.semaphore < state.device.counter
      && (state.held ==> state.device.semaphore != 0)
    }

    ghost predicate Healthy() {
      forall n :: fails(n) == 0
    }

    ghost predicate Timely() {
      forall n :: delay(n) < 0x10000
    }

    /** Nobody else ever holds the semaphore or touches the gateway. */
    ghost predicate Alone() {
      forall n :: !rival(n) && others(n).Untouched?
    }

    /** Finitely many ticket races are lost: a semaphore seen free stays free for the two
        accesses it takes to offer a ticket. */
    ghost predicate RacesEnd() {
      forall n :: n >= quiet && !rival(n) ==> !rival(n + 2)
    }

    /** Other agents take the semaphore with fresh tickets and never clear a ticket of the caller;
        while it is not the caller's they may use the gateway in any way. */
    function RivalsMove(s: PortState, n: nat): PortState {
      if s.held then s
      else
        var s' := AfterOthers(s, others(n));
        if rival(n) then
          s'.(device := s'.device.(semaphore := s'.device.counter, counter := s'.device.counter + 1))
        else
          s'.(device := s'.device.(semaphore := 0))
    }

    /** The device works on while the address register is polled. */
    function DeviceMoves(s: PortState): PortState {
      if s.device.busy && s.remaining > 0 then s.(remaining := s.remaining - 1)
      else s.(device := CompleteTransfer(s.device))
    }

    function ReadEffect(s: PortState, n: nat, r: Register): (PortState, nat) {
      var s' := if r == Semaphore then RivalsMove(s, n) else if r == Address then DeviceMoves(s) else s;
      var (device, value) := ReadRegister(s'.device, r);
      (s'.(device := device), value)
    }

    function WriteEffect(s: PortState, n: nat, r: Register, value: nat): PortState
      requires r != Semaphore ==> value < WORD_LIMIT
    {
      match r
      case Semaphore =>
        if value == 0 then s.(device := s.device.(semaphore := 0), held := false)
        else
          var s' := RivalsMove(s, n);
          s'.(device := OfferTicket(s'.device, value), held := s'.held || s'.device.semaphore == 0)
      case Control => s.(device := s.device.(control := value))
      case Address => s.(device := StartTransfer(s.device, value), remaining := delay(n))
      case Data => s.(device := s.device.(data := value))
      case _ => s
    }

    /** The effects of the accesses of a transfer. */
    lemma TransferEffects(s: PortState, n: nat, value: U32)
      ensures WriteEffect(s, n, Address, value)
           == s.(device := StartTransfer(s.device, value), remaining := delay(n))
      ensures WriteEffect(s, n, Data, value) == s.(device := s.device.(data := value))
      ensures ReadEffect(s, n, Data) == (s, s.device.data)
      ensures ReadEffect(s, n, Address) == (DeviceMoves(s), DeviceMoves(s).device.address)
    {
      hide DeviceMoves;
    }

    /** What a caller learns by reading the semaphore. */
    lemma SemaphoreReadEffect(s: PortState, n: nat)
      requires s.device.semaphore < s.device.counter && (s.held ==> s.device.semaphore != 0)
      ensures var (s', value) := ReadEffect(s, n, Semaphore);
              && s'.held == s.held && s'.device.semaphore < s'.device.counter && Waited(s, s')
              && (others(n).Untouched? ==> OnlyTickets(s, s'))
              && (s.held ==> s' == s && value != 0)
              && (!s.held ==> (value != 0 <==> rival(n)) && (value != 0 ==> value >= s.device.counter))
    {
    }

    /** What offering a fresh ticket does: it is accepted exactly when no rival holds the semaphore. */
    lemma TicketOffered(s: PortState, n: nat, ticket: nat)
      requires !s.held && s.device.semaphore < s.device.counter && 0 < ticket < s.device.counter
      ensures var s' := WriteEffect(s, n, Semaphore, ticket);
              && Waited(s, s') && s'.device.semaphore < s'.device.counter && (s'.held <==> !rival(n))
              && (s'.held ==> s'.device.semaphore == ticket)
              && (others(n).Untouched? ==> OnlyTickets(s, s'))
    {
    }

    // ------------------------------------------------------------------
    // The step machine beside the port

    /** `m` is the run of its events, its agent has made exactly the accesses of the trace, and its
        device is that of the port, which nobody else uses. */
    ghost predicate InStep(s: PortState, t: seq<Entry>, m: State, evs: seq<Event>) {
      && Alone() && m == Run(origin, evs) && Single(evs) && EntriesOf(origin, evs, AGENT) == t
      && m.device == s.device && (!s.held ==> s.device.semaphore == 0)
    }

    /** The machine is in step with the port. */
    ghost predicate Lone()
      reads this
    {
      !astray && InStep(state, trace, machine, events)
    }

    /** Between two calls. */
    ghost predicate Idle()
      reads this
    {
      Lone() && machine.agents == map[]
    }

    /** Within a call. */
    ghost predicate Following()
      reads this
    {
      Lone() && AGENT in machine.agents && machine.agents == map[AGENT := machine.agents[AGENT]]
    }

    ghost function Agent(): Local
      reads this
    {
      if AGENT in machine.agents then machine.agents[AGENT] else Begin(ProbeSpaces([]))
    }

    /** The calls the agent has finished, with what they returned. */
    ghost function Returned(): seq<Done>
      reads this
    {
      Returns(origin, events, AGENT)
    }

    ghost function Look(): View
      reads this
    {
      View(Following(), Idle(), Agent(), Returned())
    }

    /** The caller begins a call. */
    ghost method Announce(call: Call)
      modifies this`events, this`machine, this`astray
      ensures BeginSeen(old(Look()), call, Look())
    {
      OneMoreEvent(origin, events, Start(AGENT, call), AGENT);
      astray := astray || machine.agents != map[];
      assert Single(events) ==> Single(events + [Start(AGENT, call)]);
      machine := Next(machine, Start(AGENT, call));
      events := events + [Start(AGENT, call)];
    }

    /** The machine takes part in an access. */
    ghost method Observe(request: Request, moved: bool, code: int)
      modifies this`events, this`machine, this`astray
      ensures astray <==> old(astray) || AGENT !in old(machine.agents) || Wanted(old(machine.agents[AGENT])) != request
      ensures events == old(events) + EventsOf(moved, code)
      ensures machine == Observed(old(machine), moved, code)
    {
      astray := astray || AGENT !in machine.agents || Wanted(machine.agents[AGENT]) != request;
      machine := Observed(machine, moved, code);
      events := events + EventsOf(moved, code);
    }

    ghost function Observed(m: State, moved: bool, code: int): State {
      Next(if moved then Next(m, Complete) else m, if code == 0 then Access(AGENT) else Refuse(AGENT, code))
    }

    lemma ObservedRuns(m: State, evs: seq<Event>, moved: bool, code: int)
      requires m == Run(origin, evs)
      ensures Observed(m, moved, code) == Run(origin, evs + EventsOf(moved, code))
      ensures EntriesOf(origin, evs + EventsOf(moved, code), AGENT)
           == EntriesOf(origin, evs, AGENT)
              + EntryOf(if moved then Next(m, Complete) else m,
                        if code == 0 then Access(AGENT) else Refuse(AGENT, code), AGENT)
      ensures Returns(origin, evs + EventsOf(moved, code), AGENT)
           == Returns(origin, evs, AGENT) + if AGENT in m.agents && m.agents[AGENT].pc == Clear
                                            then [DoneOf(m.agents[AGENT])] else []
      ensures Single(evs) ==> Single(evs + EventsOf(moved, code))
    {
      var e := if code == 0 then Access(AGENT) else Refuse(AGENT, code);
      hide Run, EntriesOf, Returns;
      if moved {
        OneMoreEvent(origin, evs, Complete, AGENT);
        OneMoreEvent(origin, evs + [Complete], e, AGENT);
        assert evs + EventsOf(moved, code) == evs + [Complete] + [e];
        assert EntryOf(m, Complete, AGENT) == [] && Ends(m, Complete, AGENT) == [];
      } else {
        OneMoreEvent(origin, evs, e, AGENT);
        assert evs + EventsOf(moved, code) == evs + [e];
      }
    }

    /** Only the caller is in a call of the machine, and the machine's device is the port's. */
    ghost predicate Matches(m: State, s: PortState, l: Local) {
      && m.agents == map[AGENT := l] && m.device == s.device
      && (!s.held ==> s.device.semaphore == 0)
    }

    /** The device finishes its transfer just before this access. */
    predicate Moves(s: PortState, r: Register) {
      r == Address && !(s.device.busy && s.remaining > 0)
    }

    lemma AccessFollows(m: State, l: Local)
      requires m.agents == map[AGENT := l] && l.pc != Clear && (l.pc == TicketWrite ==> l.ticket != 0)
      ensures Wanted(l).ToWrite? && Wanted(l).register != Semaphore ==> Wanted(l).value < WORD_LIMIT
      ensures var m' := Next(m, Access(AGENT));
              && m'.agents == map[AGENT := Took(l, Made(m.device, l).value)]
              && m'.device == match Wanted(l)
                              case ToRead(r) => ReadRegister(m.device, r).0
                              case ToWrite(r, value) => Store(m.device, r, value)
    {
      if InLock(l) {
        LockStepIs(m.device, l);
        hide LockStep, Took, Made;
      } else {
        CriticalStepIs(m.device, l);
        hide CriticalStep, Took, Made;
      }
    }

    lemma ReadFollows(m: State, s: PortState, n: nat, l: Local, r: Register)
      requires Matches(m, s, l) && Wanted(l) == ToRead(r)
      requires !rival(n) && others(n).Untouched?
      ensures var (s', value) := ReadEffect(s, n, r);
              && Matches(Observed(m, Moves(s, r), 0), s', Took(l, value))
              && Made((if Moves(s, r) then Next(m, Complete) else m).device, l) == Got(r, value)
    {
      var m1 := if Moves(s, r) then Next(m, Complete) else m;
      assert m1.agents == m.agents;
      hide Took;
      AccessFollows(m1, l);
      hide Gateway.CompleteTransfer, Gateway.ControlWord;
    }

    lemma WriteFollows(m: State, s: PortState, n: nat, l: Local, r: Register, value: nat)
      requires Matches(m, s, l) && Wanted(l) == ToWrite(r, value) && (value == 0 && r == Semaphore ==> l.pc == Clear)
      requires r != Semaphore ==> value < WORD_LIMIT
      requires !rival(n) && others(n).Untouched?
      ensures l.pc != Clear ==>
                Matches(Observed(m, false, 0), WriteEffect(s, n, r, value), Took(l, value))
      ensures l.pc == Clear ==>
                var m' := Observed(m, false, 0);
                var s' := WriteEffect(s, n, r, value);
                && m'.agents == map[] && m'.device == s'.device && s'.device.semaphore == 0
    {
      if l.pc != Clear {
        assert Took(l, value) == Took(l, Made(m.device, l).value);
        AccessFollows(m, l);
        hide Took;
      }
    }

    lemma RefusalFollows(m: State, s: PortState, l: Local, code: int)
      requires Matches(m, s, l) && code != 0
      ensures l.pc != Clear ==>
                && Matches(Observed(m, false, code), s, RefusedStep(l, code))
               
      ensures l.pc == Clear ==>
                var m' := Observed(m, false, code);
                m'.agents == map[] && m'.device == s.device
    {
      hide RefusedStep;
    }

    lemma ReadInStep(s: PortState, t: seq<Entry>, m: State, evs: seq<Event>, l: Local, r: Register, error: int)
      requires InStep(s, t, m, evs) && m.agents == map[AGENT := l] && Wanted(l) == ToRead(r)
      ensures error == 0 ==>
                var (s', value) := ReadEffect(s, |t|, r);
                var m' := Observed(m, Moves(s, r), 0);
                && InStep(s', t + [Got(r, value)], m', evs + EventsOf(Moves(s, r), 0))
                && m'.agents == map[AGENT := Took(l, value)]
                && Returns(origin, evs + EventsOf(Moves(s, r), 0), AGENT) == Returns(origin, evs, AGENT)
      ensures error != 0 ==>
                var m' := Observed(m, false, error);
                && InStep(s, t + [Failed], m', evs + EventsOf(false, error))
                && m'.agents == map[AGENT := RefusedStep(l, error)]
                && Returns(origin, evs + EventsOf(false, error), AGENT) == Returns(origin, evs, AGENT)
    {
      assert !rival(|t|) && others(|t|).Untouched?;
      if error == 0 {
        ReadFollows(m, s, |t|, l, r);
        ObservedRuns(m, evs, Moves(s, r), 0);
      } else {
        RefusalFollows(m, s, l, error);
        ObservedRuns(m, evs, false, error);
      }
      hide Observed, EventsOf, Took, RefusedStep, ReadEffect, Run, EntriesOf, Returns, Made, Moves, Next;
    }

    lemma WriteInStep(s: PortState, t: seq<Entry>, m: State, evs: seq<Event>, l: Local, r: Register, value: nat,
                      error: int)
      requires InStep(s, t, m, evs) && m.agents == map[AGENT := l] && Wanted(l) == ToWrite(r, value)
      requires (value == 0 && r == Semaphore ==> l.pc == Clear) && (r != Semaphore ==> value < WORD_LIMIT)
      ensures var m' := Observed(m, false, error);
              && (error == 0 ==>
                    InStep(WriteEffect(s, |t|, r, value), t + [Put(r, value)], m', evs + EventsOf(false, error)))
              && (error != 0 ==> InStep(s, t + [Failed], m', evs + EventsOf(false, error)))
              && (l.pc == Clear ==> m'.agents == map[])
              && (l.pc != Clear ==>
                    m'.agents == map[AGENT := if error == 0 then Took(l, value) else RefusedStep(l, error)])
      ensures Returns(origin, evs + EventsOf(false, error), AGENT)
           == Returns(origin, evs, AGENT) + if l.pc == Clear then [DoneOf(l)] else []
    {
      assert !rival(|t|) && others(|t|).Untouched?;
      ObservedRuns(m, evs, false, error);
      if error == 0 {
        WriteFollows(m, s, |t|, l, r, value);
      } else {
        RefusalFollows(m, s, l, error);
      }
      hide Observed, EventsOf, Took, RefusedStep, WriteEffect, Run, EntriesOf, Returns, Next;
    }

    method PciRead(r: Register) returns (error: int, value: nat)
      modifies this`state, this`trace, this`events, this`machine, this`astray
      ensures error == fails(|old(trace)|)
      ensures error != 0 ==> state == old(state) && trace == old(trace) + [Failed]
      ensures error == 0 ==> (state, value) == ReadEffect(old(state), |old(trace)|, r)
                             && trace == old(trace) + [Got(r, value)]
      ensures ReadSeen(old(Look()), r, error, value, Look())
    {
      hide Took, RefusedStep, ReadEffect, Moves, Wanted, Returns, Observed, EventsOf, InStep;
      ghost var follows := Following() && Wanted(Agent()) == ToRead(r);
      ghost var s, t, m, l, evs := state, trace, machine, Agent(), events;
      error, value := fails(|trace|), 0;
      if error != 0 {
        trace := trace + [Failed];
      } else {
        var effect := ReadEffect(state, |trace|, r);
        state, value := effect.0, effect.1;
        trace := trace + [Got(r, value)];
      }
      if follows {
        ReadInStep(s, t, m, evs, l, r, error);
      }
      Observe(ToRead(r), error == 0 && Moves(s, r), error);
    }

    method PciWrite(r: Register, value: nat) returns (error: int)
      requires r != Semaphore ==> value < WORD_LIMIT
      modifies this
      ensures error == fails(|old(trace)|)
      ensures error != 0 ==> state == old(state) && trace == old(trace) + [Failed]
      ensures error == 0 ==> state == WriteEffect(old(state), |old(trace)|, r, value)
                             && trace == old(trace) + [Put(r, value)]
      ensures lockedAt == if state.held && !old(state.held) then state else old(lockedAt)
      ensures WriteSeen(old(Look()), r, value, error, Look())
    {
      ghost var l := Agent();
      hide Took, RefusedStep, WriteEffect, Wanted, DoneOf, Returns, Observed, EventsOf, InStep;
      ghost var follows :=
        Following() && Wanted(l) == ToWrite(r, value) && (r == Semaphore && value == 0 ==> l.pc == Clear);
      ghost var s, t, m, evs := state, trace, machine, events;
      error := fails(|trace|);
      if error != 0 {
        trace := trace + [Failed];
      } else {
        ghost var heldBefore := state.held;
        state := WriteEffect(state, |trace|, r, value);
        lockedAt := if state.held && !heldBefore then state else lockedAt;
        trace := trace + [Put(r, value)];
      }
      if follows {
        WriteInStep(s, t, m, evs, l, r, value, error);
      }
      Observe(ToWrite(r, value), false, error);
    }
  }

  // ------------------------------------------------------------------
  // What a trace of the lock loop says

  /** A read of the taken semaphore at the head of the loop; the read-back of a ticket, which
      follows the ticket's write, is not one. */
  predicate IsBusyRead(t: seq<Entry>, i: nat)
    requires i < |t|
  {
    && t[i].Got? && t[i].register == Semaphore && t[i].value != 0
    && !(i > 0 && t[i - 1].Put? && t[i - 1].register == Semaphore)
  }

  function BusyReads(t: seq<Entry>): nat {
    if t == [] then 0
    else BusyReads(t[..|t| - 1]) + (if IsBusyRead(t, |t| - 1) then 1 else 0)
  }

  /** The trace ends with a ticket read, offered, and read back unchanged. */
  predicate TicketMatches(t: seq<Entry>) {
    |t| >= 3
    && var k := |t| - 1;
       t[k].Got? && t[k].register == Semaphore && t[k].value != 0
       && t[k - 1] == Put(Semaphore, t[k].value) && t[k - 2] == Got(Counter, t[k].value)
  }

  lemma BusyReadsStep(t: seq<Entry>, e: Entry)
    ensures BusyReads(t + [e]) == BusyReads(t) + (if IsBusyRead(t + [e], |t|) then 1 else 0)
  {
    assert (t + [e])[..|t|] == t;
  }

  /** Since the n-th access only the semaphore and the counter have been accessed. */
  ghost predicate TicketAccesses(t: seq<Entry>, n: nat) {
    n <= |t| && forall i :: n <= i < |t| ==> t[i].Failed? || t[i].register in {Semaphore, Counter}
  }

  predicate EndsWithSemaphoreRead(t: seq<Entry>) {
    t == [] || (t[|t| - 1].Got? && t[|t| - 1].register == Semaphore)
  }

  lemma AppendSemaphoreRead(t: seq<Entry>, value: nat)
    requires EndsWithSemaphoreRead(t)
    ensures var t' := t + [Got(Semaphore, value)];
            && EndsWithSemaphoreRead(t') && !TicketMatches(t')
            && BusyReads(t') == BusyReads(t) + (if value != 0 then 1 else 0)
  {
    BusyReadsStep(t, Got(Semaphore, value));
  }

  lemma AppendTicket(t: seq<Entry>, ticket: nat, value: nat)
    requires ticket != 0
    ensures var t' := t + [Got(Counter, ticket), Put(Semaphore, ticket), Got(Semaphore, value)];
            && EndsWithSemaphoreRead(t') && (TicketMatches(t') <==> value == ticket)
            && BusyReads(t') == BusyReads(t)
  {
    var t1 := t + [Got(Counter, ticket)];
    var t2 := t1 + [Put(Semaphore, ticket)];
    BusyReadsStep(t, Got(Counter, ticket));
    BusyReadsStep(t1, Put(Semaphore, ticket));
    BusyReadsStep(t2, Got(Semaphore, value));
    assert t2 + [Got(Semaphore, value)]
        == t + [Got(Counter, ticket), Put(Semaphore, ticket), Got(Semaphore, value)];
  }
}
