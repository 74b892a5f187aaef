/** What the calls of a caller amount to whom nobody else disturbs: the theorems about runs of the
    step machine, carried over to the methods of the driver. */
module LoneCaller {
  import opened Gateway
  import opened GatewayMutex
  import opened GatewayAtomicity
  import opened Accesses
  import opened VsecPort

  function Calls(done: seq<Done>): seq<Call> {
    seq(|done|, i requires 0 <= i < |done| => done[i].call)
  }

  function Reports(done: seq<Done>): seq<Report> {
    seq(|done|, i requires 0 <= i < |done| => done[i].report)
  }

  /** Agent `a` is the only one, nobody else has the semaphore, and its calls so far were accepted in
      the order in which they returned. */
  ghost predicate Sole(s: State, a: nat, done: seq<Done>) {
    && s.device.counter > 0 && s.agents.Keys <= {a}
    && s.reports == Reports(done)
    && if s.device.semaphore == 0 then
         && s.accepted == Calls(done)
         && (a in s.agents ==>
               var l := s.agents[a];
               l.pc in {SemaphoreRead, TicketRead, TicketWrite} && (l.pc == TicketWrite ==> l.ticket != 0))
       else
         && a in s.agents
         && var l := s.agents[a];
            && s.accepted == Calls(done) + [l.call]
            && (InCritical(l) || (l.pc == TicketCheck && l.ticket == s.device.semaphore))
  }

  lemma SoleLockStep(s: State, a: nat, done: seq<Done>)
    requires Sole(s, a, done) && a in s.agents && InLock(s.agents[a])
    ensures Sole(Next(s, Access(a)), a, done)
  {
    var l := s.agents[a];
    if l.pc == TicketCheck {
      EnterKeeps(l);
    }
    hide Calls, Reports, EnterCritical;
  }

  lemma SoleCriticalStep(s: State, a: nat, done: seq<Done>)
    requires Sole(s, a, done) && a in s.agents && InCritical(s.agents[a]) && s.agents[a].pc != Clear
    ensures Sole(Next(s, Access(a)), a, done)
  {
    CriticalStepKeeps(s.device, s.agents[a]);
    hide Calls, Reports, CriticalStep;
  }

  lemma SoleNext(s: State, a: nat, done: seq<Done>, e: Event)
    requires Sole(s, a, done) && !e.Refuse? && (e.Complete? || e.agent == a)
    ensures Sole(Next(s, e), a, done + Ends(s, e, a))
  {
    if e.Access? && a in s.agents && s.agents[a].pc == Clear {
      var l := s.agents[a];
      assert Calls(done + [DoneOf(l)]) == Calls(done) + [l.call];
      assert Reports(done + [DoneOf(l)]) == Reports(done) + [ReportOf(l)];
      hide Calls, Reports, ReportOf;
    } else {
      assert done + [] == done;
      if e.Access? && a in s.agents {
        if InLock(s.agents[a]) {
          SoleLockStep(s, a, done);
        } else {
          SoleCriticalStep(s, a, done);
        }
        hide Sole, Next;
      }
      hide Calls, Reports;
    }
  }

  lemma {:induction false} SoleRun(s: State, a: nat, done: seq<Done>, events: seq<Event>)
    requires Sole(s, a, done) && Clean(s, events)
    requires forall e :: e in events ==> e.Complete? || e.agent == a
    ensures Sole(Run(s, events), a, done + Returns(s, events, a))
    decreases |events|
  {
    if events == [] {
      assert done + [] == done;
    } else {
      SoleNext(s, a, done, events[0]);
      SoleRun(Next(s, events[0]), a, done + Ends(s, events[0], a), events[1..]);
      assert done + Returns(s, events, a)
          == done + Ends(s, events[0], a) + Returns(Next(s, events[0]), events[1..], a);
      hide Sole, Clean, Ends, Next;
    }
  }

  /** What the calls on a port amount to whose gateway nobody else uses. The accesses they made are those
      of the one agent on a run of the step machine, on the same device, and the calls of that agent are
      theirs. So what is proved of all runs holds of them; and if no access was refused and the device
      was in time, they returned what they return on a plain memory, one after another, and memory is
      what that leaves. */
  lemma LoneCalls(port: Port)
    requires port.Idle() && Initial(port.origin)
    ensures var r := Run(port.origin, port.events);
            && port.trace == EntriesOf(port.origin, port.events, AGENT)
            && port.Returned() == Returns(port.origin, port.events, AGENT)
            && r.agents == map[] && port.state.device == r.device
    ensures Clean(port.origin, port.events) ==>
              var (chip, memory) := (ChipOf(port.origin.device), port.origin.device.memory);
              && Reports(port.Returned()) == ReportsOf(chip, memory, Calls(port.Returned()))
              && port.state.device.memory == MemoryAfter(chip, memory, Calls(port.Returned()))
  {
    if Clean(port.origin, port.events) {
      Atomicity(port.origin, port.events);
      SoleRun(port.origin, AGENT, [], port.events);
      var r := Run(port.origin, port.events);
      assert [] + port.Returned() == port.Returned();
      assert r.accepted[..|r.reports|] == r.accepted;
    }
  }
}
