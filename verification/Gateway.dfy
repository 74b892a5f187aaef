/** The VSEC gateway as a step machine. Any number of agents (tools, hosts, functions) run the
    callers of `lock_vsec_semaphore`; every access to configuration space is one atomic step,
    and the local computation up to the next access belongs to the step before it.

    The device is not part of the repository. What is assumed of it is `DeviceSteps` below:
    - reading the counter returns a fresh non-zero ticket (tickets are naturals: no wrap);
    - a non-zero write to the semaphore is ignored unless the semaphore is 0, and a write of 0
      always clears it;
    - an address written with flag 0 starts a read of the selected space and the device sets
      the flag when the data register holds the dword; an address written with flag 1 starts a
      write of the data register and the device clears the flag when memory holds it. */
module Gateway {
  import opened Bits
  import opened Errno
  import opened Registers
  import opened Blocks

  // ------------------------------------------------------------------
  // DeviceSteps

  datatype Device = Device(
    semaphore: nat,
    counter: nat,
    control: U32,
    address: U32,
    data: U32,
    busy: bool,
    memory: Memory,
    status: map<nat, nat>,
    config: map<nat, U32>)

  datatype Register = Semaphore | Counter | Control | Address | Data | Other(offset: nat)

  /** The three status bits of a space: zero when it is not supported. */
  function SpaceStatus(status: map<nat, nat>, space: nat): (r: nat)
    ensures r < 8
  {
    if space in status then status[space] % 8 else 0
  }

  predicate Supports(status: map<nat, nat>, space: nat) {
    SpaceStatus(status, space) != 0
  }

  function WithStatus(control: U32, status: nat): U32
    requires status < 8
  {
    MergeIsWord(control, status, STATUS_BIT_OFFSET, STATUS_BIT_LEN);
    Merge(control, status, STATUS_BIT_OFFSET, STATUS_BIT_LEN)
  }

  /** What the control register reads as. */
  function ControlWord(d: Device): U32 {
    WithStatus(d.control, SpaceStatus(d.status, SpaceOf(d.control)))
  }

  function OfferTicket(d: Device, ticket: nat): Device {
    if d.semaphore == 0 then d.(semaphore := ticket) else d
  }

  function StartTransfer(d: Device, word: U32): Device {
    d.(address := word, busy := true)
  }

  /** The device finishes the transfer it is busy with. */
  function CompleteTransfer(d: Device): Device {
    var key := Key(SpaceOf(d.control), AddressOf(d.address));
    if !d.busy then d
    else if FlagOf(d.address) == 0 then
      SetFlagIsWord(d.address);
      d.(busy := false, data := Get(d.memory, key), address := AddressOf(d.address) + FLAG)
    else
      SetFlagIsWord(d.address);
      d.(busy := false, memory := d.memory[key := d.data], address := AddressOf(d.address))
  }

  lemma SetFlagIsWord(word: U32)
    ensures AddressOf(word) + FLAG < WORD_LIMIT
  {
    FieldsInArithmetic(word);
  }

  function ReadRegister(d: Device, r: Register): (Device, nat) {
    match r
    case Semaphore => (d, d.semaphore)
    case Counter => (d.(counter := d.counter + 1), d.counter)
    case Control => (d, ControlWord(d))
    case Address => (d, d.address)
    case Data => (d, d.data)
    case Other(offset) => (d, if offset in d.config then d.config[offset] else 0)
  }

  // ------------------------------------------------------------------
  // Calls and the agents that run them

  /** The callers of `lock_vsec_semaphore`: `read_pciconf`, `write_pciconf`, `read_dword`, and
      `check_address_space_support` or `init_vsec_capability_mask`, which probe a list of spaces. */
  datatype AnyCall =
    | ReadBlock(space: U32, offset: U32, size: int, buffer: seq<U32>)
    | WriteBlock(space: U32, offset: U32, size: int, buffer: seq<U32>)
    | ReadDword(register: Register)
    | ProbeSpaces(spaces: seq<U32>)

  predicate FitsBuffer(c: AnyCall) {
    c.ReadBlock? || c.WriteBlock? ==> DwordCount(c.size) <= |c.buffer|
  }

  type Call = c: AnyCall | FitsBuffer(c) witness ProbeSpaces([])

  const INITIALIZED_SPACES: seq<U32> := [0x1, 0x2, 0x3, 0x4, 0x5, 0x6, 0x7, 0xa, 0xf]

  datatype PC =
    | SemaphoreRead | TicketRead | TicketWrite | TicketCheck
    | ControlRead | ControlWrite | ControlCheck
    | ReadAddress | ReadPoll | ReadData
    | WriteData | WriteAddress | WritePoll
    | DwordRead
    | Clear

  /** The local variables of a call in progress. */
  datatype Local = Local(
    pc: PC,
    call: Call,
    ticket: nat,
    retries: nat,
    value: U32,
    index: nat,
    polls: nat,
    buffer: seq<U32>,
    found: seq<bool>,
    error: int)

  function Spaces(c: Call): seq<U32> {
    match c
    case ReadBlock(space, _, _, _) => [space]
    case WriteBlock(space, _, _, _) => [space]
    case ReadDword(_) => []
    case ProbeSpaces(spaces) => spaces
  }

  function CallBuffer(c: Call): seq<U32> {
    if c.ReadBlock? || c.WriteBlock? then c.buffer else []
  }

  function Begin(c: Call): Local {
    Local(SemaphoreRead, c, 0, 0, 0, 0, 0, CallBuffer(c), [], 0)
  }

  predicate InLock(l: Local) {
    l.pc in {SemaphoreRead, TicketRead, TicketWrite, TicketCheck}
  }

  /** Between a successful `lock_vsec_semaphore` and the clear that follows it. */
  predicate InCritical(l: Local) {
    !InLock(l)
  }

  /** The head of the do/while loop in `lock_vsec_semaphore`. */
  function LoopHead(l: Local): Local {
    if l.retries > SEMAPHORE_MAX_RETRIES then l.(pc := Clear, error := -EINVAL) else l.(pc := SemaphoreRead)
  }

  /** The loop test `counter != lock_value`, reached from the end of the body and by `continue`. */
  function LoopTest(l: Local, lockValue: nat): Local {
    if l.ticket != lockValue then LoopHead(l) else EnterCritical(l)
  }

  function EnterCritical(l: Local): Local {
    if l.call.ReadDword? then l.(pc := DwordRead) else NextSpace(l)
  }

  function NextSpace(l: Local): Local {
    if |l.found| < |Spaces(l.call)| then l.(pc := ControlRead)
    else if l.call.ReadBlock? || l.call.WriteBlock? then NextDword(l)
    else l.(pc := Clear)
  }

  function CurrentSpace(l: Local): U32 {
    if |l.found| < |Spaces(l.call)| then Spaces(l.call)[|l.found|] else 0
  }

  /** `set_address_space` returned: zero for success. */
  function SpaceSelected(l: Local, error: int): Local {
    var l' := l.(found := l.found + [error == 0]);
    if !l.call.ProbeSpaces? && error != 0 then l'.(pc := Clear, error := error) else NextSpace(l')
  }

  /** The head of the block loops: `set_rw_address` refuses addresses of more than 30 bits. */
  function NextDword(l: Local): Local
    requires l.call.ReadBlock? || l.call.WriteBlock?
  {
    if l.index >= DwordCount(l.call.size) then l.(pc := Clear)
    else if SetRwAddress(DwordAddress(l.call.offset, l.index), READ_OPERATION).Refused? then TransferFailed(l)
    else l.(pc := if l.call.ReadBlock? then ReadAddress else WriteData)
  }

  function TransferFailed(l: Local): Local {
    l.(pc := Clear, error := 4 * l.index)
  }

  function DwordDone(l: Local): Local {
    var l' := l.(index := l.index + 1);
    if l.call.ReadBlock? || l.call.WriteBlock? then NextDword(l') else l'.(pc := Clear)
  }

  /** The word the address register is written with for the current dword. */
  function TransferWord(l: Local, rw: U32): U32 {
    var offset := if l.call.ReadBlock? || l.call.WriteBlock? then l.call.offset else 0;
    match SetRwAddress(DwordAddress(offset, l.index), rw)
    case Packed(word) => word
    case Refused => 0
  }

  function BufferAt(buffer: seq<U32>, i: nat): U32 {
    if i < |buffer| then buffer[i] else 0
  }

  function BufferStore(buffer: seq<U32>, i: nat, value: U32): seq<U32> {
    if i < |buffer| then buffer[i := value] else buffer
  }

  /** `wait_on_flag`: leaves when the flag is seen, and also after the last poll, returning 0. */
  function Poll(l: Local, seen: bool, done: Local): Local {
    if seen || l.polls + 1 >= IFC_MAX_RETRIES then done else l.(polls := l.polls + 1)
  }

  /** One access of the ticket protocol. */
  function LockStep(d: Device, l: Local): (Device, Local)
    requires InLock(l)
  {
    match l.pc
    case SemaphoreRead =>
      (d, if d.semaphore != 0 then LoopTest(l.(retries := l.retries + 1), d.semaphore) else l.(pc := TicketRead))
    case TicketRead =>
      (d.(counter := d.counter + 1), l.(pc := TicketWrite, ticket := d.counter))
    case TicketWrite =>
      (OfferTicket(d, l.ticket), l.(pc := TicketCheck))
    case TicketCheck =>
      (d, LoopTest(l, d.semaphore))
  }

  /** One access of a call that went past the lock and is not yet at its clear. */
  function CriticalStep(d: Device, l: Local): (Device, Local)
    requires InCritical(l) && l.pc != Clear
  {
    match l.pc
    case ControlRead =>
      (d, l.(pc := ControlWrite, value := ControlWord(d)))
    case ControlWrite =>
      (d.(control := SelectSpace(l.value, CurrentSpace(l))), l.(pc := ControlCheck))
    case ControlCheck =>
      (d, SpaceSelected(l.(value := ControlWord(d)), if StatusOf(ControlWord(d)) == 0 then -EINVAL else 0))
    case ReadAddress =>
      (StartTransfer(d, TransferWord(l, READ_OPERATION)), l.(pc := ReadPoll, polls := 0))
    case ReadPoll =>
      (d, Poll(l, FlagOf(d.address) == 1, l.(pc := ReadData)))
    case ReadData =>
      (d, DwordDone(l.(buffer := BufferStore(l.buffer, l.index, d.data))))
    case WriteData =>
      (d.(data := BufferAt(l.buffer, l.index)), l.(pc := WriteAddress))
    case WriteAddress =>
      (StartTransfer(d, TransferWord(l, WRITE_OPERATION)), l.(pc := WritePoll, polls := 0))
    case WritePoll =>
      (d, Poll(l, FlagOf(d.address) == 0, DwordDone(l)))
    case DwordRead =>
      var register := if l.call.ReadDword? then l.call.register else Other(0);
      // Words read from the five VSEC registers depend on tickets and transfers in flight;
      // the report keeps only what is read from the rest of configuration space.
      (ReadRegister(d, register).0,
       l.(pc := Clear, buffer := if register.Other? then [ConfigWord(d.config, register.offset)] else []))
  }

  function ConfigWord(config: map<nat, U32>, offset: nat): U32 {
    if offset in config then config[offset] else 0
  }

  /** The access fails with `code`; it has no effect on the device. */
  function RefusedStep(l: Local, code: int): Local
    requires l.pc != Clear
  {
    if InLock(l) || l.pc == DwordRead then l.(pc := Clear, error := code)
    else if l.pc in {ControlRead, ControlWrite, ControlCheck} then SpaceSelected(l, code)
    else TransferFailed(l)
  }

  // ------------------------------------------------------------------
  // Runs

  datatype Report = Report(error: int, buffer: seq<U32>, found: seq<bool>)

  /** The last four fields are history that no step reads: the calls whose ticket the semaphore
      accepted, in that order, with their agents, and what finished calls returned, in the order
      of their clears, with their agents. Agents without a call in progress are not in `agents`. */
  datatype State = State(
    device: Device,
    agents: map<nat, Local>,
    accepted: seq<Call>,
    owners: seq<nat>,
    reports: seq<Report>,
    finishers: seq<nat>)

  datatype Event =
    | Start(agent: nat, call: Call)
    | Access(agent: nat)
    | Refuse(agent: nat, code: int)
    | Complete

  function ReportOf(l: Local): Report {
    Report(if l.call.ProbeSpaces? then 0 else l.error, l.buffer, l.found)
  }

  function Finish(s: State, agent: nat, semaphore: nat): State
    requires agent in s.agents
  {
    State(s.device.(semaphore := semaphore), s.agents - {agent}, s.accepted, s.owners,
          s.reports + [ReportOf(s.agents[agent])], s.finishers + [agent])
  }

  function AccessStep(s: State, agent: nat): State
    requires agent in s.agents
  {
    var l := s.agents[agent];
    if l.pc == Clear then Finish(s, agent, 0)
    else if InLock(l) then
      var (d', l') := LockStep(s.device, l);
      s.(device := d', agents := s.agents[agent := l'],
         accepted := if l.pc == TicketWrite && s.device.semaphore == 0 then s.accepted + [l.call] else s.accepted,
         owners := if l.pc == TicketWrite && s.device.semaphore == 0 then s.owners + [agent] else s.owners)
    else
      var (d', l') := CriticalStep(s.device, l);
      s.(device := d', agents := s.agents[agent := l'])
  }

  function Next(s: State, e: Event): State {
    match e
    case Start(agent, call) =>
      if agent in s.agents then s else s.(agents := s.agents[agent := Begin(call)])
    case Access(agent) =>
      if agent in s.agents then AccessStep(s, agent) else s
    case Refuse(agent, code) =>
      if agent !in s.agents || code == 0 then s
      else if s.agents[agent].pc == Clear then Finish(s, agent, s.device.semaphore)
      else s.(agents := s.agents[agent := RefusedStep(s.agents[agent], code)])
    case Complete =>
      s.(device := CompleteTransfer(s.device))
  }

  function Run(s: State, events: seq<Event>): State
    decreases |events|
  {
    if events == [] then s else Run(Next(s, events[0]), events[1..])
  }

  predicate Initial(s: State) {
    && s.device.semaphore == 0 && s.device.counter > 0 && !s.device.busy
    && s.agents == map[] && s.accepted == [] && s.owners == [] && s.reports == [] && s.finishers == []
  }

  /** This event makes a `lock_vsec_semaphore` return an error. */
  predicate LockFails(s: State, e: Event) {
    match e
    case Access(agent) =>
      agent in s.agents
      && var l := s.agents[agent];
         s.device.semaphore != l.ticket
         && (|| (l.pc == SemaphoreRead && s.device.semaphore != 0 && l.retries + 1 > 0x1000)
             || (l.pc == TicketCheck && l.retries > 0x1000))
    case Refuse(agent, code) =>
      code != 0 && agent in s.agents && InLock(s.agents[agent])
    case _ => false
  }

  predicate NoLockFails(s: State, events: seq<Event>)
    decreases |events|
  {
    events != [] ==> !LockFails(s, events[0]) && NoLockFails(Next(s, events[0]), events[1..])
  }
}
