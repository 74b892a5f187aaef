# Register protocols of the NNT driver, in Dafny

The driver gives tools access to the memory of a network device through a handful of registers in
PCI configuration space. This project models that code and what it is for:

- the **VSEC gateway** (`nnt_driver/nnt_pci_conf_access.c`): a ticket semaphore, an address-space
  selector, and block transfers one dword at a time through an address/data register pair with a
  completion flag;
- the **gateway without the capability** (`nnt_driver/nnt_pci_conf_access_no_vsec.c`): two register
  orders behind a probe, for the same memory;
- **discovery**: how capability bits and the access callbacks of a device come about;
- the **PPC hot-reset driver**, the **DMA page** bookkeeping, the **VPD handshake**, and the
  **byte file** of the backward-compatible devices.

`dafny verify dfyconfig.toml` checks the whole project.

## How the modules fit together

| modules | content |
|---|---|
| `Errno`, `Bits`, `Registers` | error numbers; C's 32-bit operators defined on the digits of naturals; the slicing macros; the driver's packing and unpacking of register words |
| `Blocks` | what a block transfer means: memory is a map from (space, address) to dwords |
| `Gateway` | a step machine: any number of agents, every access one atomic step, plus the steps of the device; all callers of `lock_vsec_semaphore` |
| `GatewayMutex`, `GatewayClears`, `GatewayTimeout` | who owns the semaphore, over whole runs, and exactly how exclusion is lost |
| `GatewayAtomicity`, `GatewayReads` | interleaved calls behave like calls made one after another; readers see the last write |
| `GatewayBound` | how many accesses a call makes past its lock |
| `VsecPort`, `VsecDriver` | the C functions themselves, as methods on a configuration-space port, proved against `Blocks` and the sequential `Effect` of the step machine |
| `Accesses`, `AgentSteps`, `AgentViews`, `LoneCaller` | the two forms tied together: every access of a method is the one that an agent of the step machine makes next, and what follows for whole sequences of calls |
| `Legacy`, `OneSpecification` | the gateway without the capability, and one memory behind the driver's three paths |
| `Discovery` | capability mask, minimum support, choice of callbacks |
| `DeviceNames`, `HotReset` | parameter parsing, probe counting, save, assert, deassert, poll, restore |
| `Dma`, `Vpd`, `ByteFile` | the smaller stateful pieces |

The step machine and the methods are two forms of the same C functions. The machine interleaves
them (its functions `LockStep`, `CriticalStep` and `RefusedStep` take one access each); the methods
keep the loops and local variables of the source. They are tied together in two ways.

- By their effects: the machine's theorem says that interleaved calls have the effects
  `GatewayAtomicity.Effect` one after another, and `ReadPciconf` and `WritePciconf` are proved to
  have exactly this effect, whatever other agents did before the lock.
- By their accesses: beside every port runs a ghost copy of the machine, whose agent makes an access
  whenever the caller does. As long as nobody else uses the gateway (`Port.Alone`), and whatever is
  refused or late, each access of `ReadPciconf`, `WritePciconf`, `ReadDword`,
  `CheckAddressSpaceSupport` and `InitVsecCapabilityMask` is the one its agent makes next, the two
  devices stay equal, and the agent returns what the method returns. `LoneCalls` draws the
  conclusion: the theorems about all runs hold of any sequence of these calls.

## Main results

- Semaphore: `MutualExclusion`, `Ownership`, `NoStaleExit`, and the exact conditions under which
  exclusion and ownership are lost, `LostExactlyByForeignClear` and `OwnedExactly`.
- Transfers: `Atomicity` of interleaved calls, `ReadsTheLastWrite`, the refinement of the methods
  `ReadPciconf` and `WritePciconf` to the same effects, `PartialRead` and `PartialWrite`, and the
  `AccessBound` on every path. `LoneCalls` carries the theorems about runs over to the methods.
- Lock loop: termination and exact accounting of retries in `LockVsecSemaphore`.
- All gateways: `OneMemory`, over calls of the driver's three paths, with
  `SameExactlyBelowLimit` as its exact limit, and `InitPciconfNoVsec` for what the probe decides.
- Discovery: `CreateDevices`.
- Hot reset: `PciDevicesReset`, `WaitForResponse`, `FunctionZeroInOrder`, `ProbeCounting`, `NamesRoundTrip`.
- DMA: `GetThenRelease`, `MappingsSurviveExactlyOneRound`. VPD: `VpdRead`, `VpdWrite`. Byte file:
  `WriteAtBytes`, `ChunkedRoundTrip`.

## What is assumed of the hardware

The hardware is not in the repository. Its models are `Gateway.Device` and the functions on it,
`VsecPort.Port`, `Legacy.LegacyPort`, `Vpd.VpdPort`, `HotReset.PciBus` and `Dma.Kernel`.

- Reading the VSEC counter returns a fresh, non-zero ticket; tickets do not wrap within a run.
- A non-zero write to the semaphore is ignored unless the semaphore is 0; writing 0 clears it.
- An address written with flag 0 starts a read and the device later sets the flag; one written with
  flag 1 starts a write and the device later clears the flag. When it does so is arbitrary. A
  transfer that is started while another one is under way replaces it. The status bits of the
  control register are non-zero exactly for the supported spaces.
- In `VsecPort` everything a single caller does not control is a function of the number of accesses
  so far: which access is refused (`fails`), how many polls a transfer takes (`delay`), when another
  agent holds the semaphore (`rival`), and what other agents have done to the registers and to
  memory while the caller did not hold it (`others`). The theorems quantify over all of them; the
  effect of a call is stated on the memory found when its ticket was accepted. Other agents leave
  the gateway alone while the caller holds the semaphore, which is what the step machine proves of
  agents that follow the protocol. Termination of the lock loop needs that only finitely many ticket
  races are lost (`RacesEnd`).
- The write-only gateway is inferred from the driver: data is latched first, an address with bit 0
  clear stores it, one with bit 0 set loads the data register, and the address register reads as a
  constant.
- A reset may change the configuration of every device on the link in any way (`World.wiped`).
- The VPD clock never goes back, and no two looks at it are a quarter of the counter's range apart.

## What the code does that its callers may not expect

These facts are modelled as they are and shape the theorems.

- A caller clears the semaphore on its way out even if it never got it. Mutual exclusion therefore
  holds on runs in which no clear removes somebody else's ticket, and fails exactly there
  (`LostExactlyByForeignClear`); a run with one timed-out attempt is enough
  (`ExclusionLostAfterTimeout`).
- `continue` in the lock loop jumps to the test of the loop, where a ticket from an earlier lost
  race is compared. It can never match (`NoStaleExit`).
- Only busy reads count as retries of the lock; lost ticket races do not.
- `wait_on_flag` returns 0 also after its last poll. A transfer that the device has not finished by
  then looks like a success: a read returns the old data register, a write may not have happened.
- The block loops return the byte index of the failing dword, so a failure of the first one is a
  return of 0. A transfer that starts at 2^30 or above moves nothing and returns 0.
- The size of a transfer is used as a number of bytes, while the repository's own README
  (`README.md:41-42`) gives it as a number of unsigned integers. The model follows the code.
- A probe with a refused access makes `wo_address` non-zero, which selects the write-only order. On
  a plain gateway every block is then stored one dword too early.
- On a write-only gateway an odd offset stores nothing.
- `page_mapped_counter` is never reset and each round allocates a new list of addresses, so DMA
  mappings are right when the first `get_user_pages_fast` pins all pages. Otherwise slot 0 stays
  empty and, unless an address is 0, the mappings of the first round are never unmapped.
- `create_devices` goes on after a failing initialisation; its error is lost unless the device is the
  last one.
- A listed device that is probed twice is counted twice, and the reset may then start with a device
  missing.
- The polling counter of the reset driver is shared by all devices, and a device whose id equals
  that of the device before it is not polled at all.

## Model

| member | source | states |
|---|---|---|
| Bits.BitExtract | nnt_driver/nnt_pci_conf_access_defs.h:57-58 | digit i of an EXTRACT is digit start+i of the word inside the slice and 0 beyond it |
| Bits.BitMerge | nnt_driver/nnt_pci_conf_access_defs.h:54-61 | a MERGE takes the slice's digits from its second word and all others from its first |
| Bits.ExtractOfMerge | nnt_driver/nnt_pci_conf_access_defs.h:57-61 | extracting a merged slice gives the merged value modulo 2^len |
| Bits.ExtractOutsideMerge | nnt_driver/nnt_pci_conf_access_defs.h:57-61 | a slice disjoint from the merged one reads the same before and after |
| Bits.DisjointMergesCommute | nnt_driver/nnt_pci_conf_access_defs.h:60-61 | merges into disjoint slices commute |
| Bits.LastMergeWins | nnt_driver/nnt_pci_conf_access_defs.h:60-61 | of two merges into one slice only the last counts |
| Bits.ExtractArithmetic | nnt_driver/nnt_pci_conf_access_defs.h:54-58 | EXTRACT is division by 2^start followed by the remainder by 2^len |
| Bits.OrShiftedFlag | nnt_driver/nnt_pci_conf_access.c:369-370 | or-ing `status << k` sets digit k exactly if status is 1, and changes nothing else |
| Bits.AndTestsBit | nnt_driver/nnt_pci_conf_access.c:405-408 | masking with `1 << k` is non-zero exactly when digit k is set |
| Registers.PackedAddress | nnt_driver/nnt_pci_conf_access.c:204-219 | exactly the addresses below 2^30 are accepted, and the operation lands in bit 31 above the address |
| Registers.PackedAddressRecovers | nnt_driver/nnt_pci_conf_access.c:204-219 | address and operation can be read back from the packed word |
| Registers.PackedAddressInjective | nnt_driver/nnt_pci_conf_access.c:204-219 | packing is injective on 30-bit addresses and operations |
| Registers.SelectSpaceFields | nnt_driver/nnt_pci_conf_access.c:145-149 | the written control value selects the low 16 bits of the space and keeps bits 16 to 31 of what was read |
| Blocks.WrittenAt | nnt_driver/nnt_pci_conf_access.c:318-324 | a block write changes exactly the addressed dwords of its space, each to its element of the data |
| Blocks.ReadAfterWrite | nnt_driver/nnt_pci_conf_access.c:250-331 | reading a block back returns what was written up to the refused dword, with the same return value |
| Blocks.HowFar | nnt_driver/nnt_pci_conf_access.c:204-331 | closed form of how many dwords go through, wrap-around of the offset included |
| Blocks.PartialRead | nnt_driver/nnt_pci_conf_access.c:224-276 | a read covers exactly the dwords below 2^30, returns 0 exactly if these are all and else the byte index of the first refused one; from 2^30 on it moves nothing and returns 0 |
| Blocks.PartialWrite | nnt_driver/nnt_pci_conf_access.c:280-331 | a write stores exactly the dwords below 2^30 and leaves every other key alone, with the return value of the read |
| GatewayMutex.NextExclusive | nnt_driver/nnt_pci_conf_access.c:9-331 | every event but a failing lock keeps exclusion, refused accesses and exhausted polls included |
| GatewayMutex.MutualExclusion | nnt_driver/nnt_pci_conf_access.c:9-107 | on runs without a failed lock at most one agent, whatever its call, is between its lock and its clear |
| GatewayMutex.NextTicketed | nnt_driver/nnt_pci_conf_access.c:9-331 | every event at all keeps the tickets in order, and an owned semaphore loses its owner exactly when the owner's own clear fails |
| GatewayMutex.OwnedExactly | nnt_driver/nnt_pci_conf_access.c:9-85 | a taken semaphore has an owner throughout a run if and only if no owner's clear fails in it |
| GatewayMutex.Ownership | nnt_driver/nnt_pci_conf_access.c:22-85 | on runs on which no owner's clear fails, failed locks included, a taken semaphore holds the ticket of exactly one agent, which has written and not cleared and whose read-back will match |
| GatewayMutex.NoStaleExit | nnt_driver/nnt_pci_conf_access.c:59-81 | on every run whatsoever, whoever leaves the loop successfully has just read back its own ticket; nobody leaves through `continue` on a stale one |
| GatewayClears.NextGuarded | nnt_driver/nnt_pci_conf_access.c:52-107 | the protocol survives failed locks too, as long as no clear removes another agent's ticket |
| GatewayClears.NoClash | nnt_driver/nnt_pci_conf_access.c:90-331 | on runs without such a clear no two agents use the gateway's registers at once |
| GatewayClears.LostExactlyByForeignClear | nnt_driver/nnt_pci_conf_access.c:256-273 | while an agent uses the gateway, the next event can lead to a clash without any later foreign clear if and only if it is a foreign clear itself |
| GatewayClears.NoFailedLockNoForeignClear | nnt_driver/nnt_pci_conf_access.c:256-273 | a run without a failed lock has no foreign clear |
| GatewayClears.OwnerLostByFailedClear | nnt_driver/nnt_pci_conf_access.c:9-19 | from every initial state a run without a failed lock, on which the owner's clear is refused, leaves the semaphore taken with nobody in a call |
| GatewayTimeout.BusyReads | nnt_driver/nnt_pci_conf_access.c:59-74 | while another agent holds the semaphore, k reads add k retries and do nothing else, also for an agent with a ticket from a lost race |
| GatewayTimeout.TakesFreeSemaphore | nnt_driver/nnt_pci_conf_access.c:59-81 | any caller takes a free semaphore in four accesses, with the ticket it drew |
| GatewayTimeout.AbandonedAttemptClears | nnt_driver/nnt_pci_conf_access.c:59-85 | an attempt of any caller gives up with its 0x1001st busy read, and the clear that follows frees the owner's semaphore |
| GatewayTimeout.ExclusionLostAfterTimeout | nnt_driver/nnt_pci_conf_access.c:256-273 | from every initial state, for any two agents and any calls, a run with exactly one failing lock, a time-out, ends with both past their locks |
| GatewayAtomicity.NextAtomic | nnt_driver/nnt_pci_conf_access.c:250-331 | every clean event keeps the relation between the machine and the sequential calls |
| GatewayAtomicity.Atomicity | nnt_driver/nnt_pci_conf_access.c:250-331 | for any number of agents and any interleaving, on clean runs every finished call returned, to its agent, what it returns when the calls run one after another in ticket order; with the semaphore free, memory is what they leave |
| GatewayAtomicity.CleanExactly | nnt_driver/nnt_pci_conf_access.c:52-331 | a run is clean exactly if no lock fails on it, no access is refused and the device is never late |
| GatewayAtomicity.LateExactly | nnt_driver/nnt_pci_conf_access.c:110-131 | the device is late exactly when an agent leaves its polls without having seen the flag |
| GatewayAtomicity.LockFailsExactly | nnt_driver/nnt_pci_conf_access.c:52-85 | a lock fails exactly when an agent goes from it to its clear with an error |
| GatewayAtomicity.StatusReadBack | nnt_driver/nnt_pci_conf_access.c:153-161 | the extracted status bits are those of the selected space |
| GatewayAtomicity.CompletedAddress | nnt_driver/nnt_pci_conf_access.c:116-127 | completion flips the flag the driver polls and keeps the address |
| GatewayReads.KeptBetween | nnt_driver/nnt_pci_conf_access.c:250-331 | a dword keeps its value across calls that do not store into it |
| GatewayReads.StoresExactly | nnt_driver/nnt_pci_conf_access.c:305-331 | the dwords a call stores into are exactly those it can change |
| GatewayReads.ReadsTheLastWrite | nnt_driver/nnt_pci_conf_access.c:250-331 | on clean interleaved runs a block read returns the block of the last accepted write to it |
| GatewayBound.StepUsesOne | nnt_driver/nnt_pci_conf_access.c:110-331 | every access past the lock decreases a bound on the accesses still to come |
| GatewayBound.RefusalUsesOne | nnt_driver/nnt_pci_conf_access.c:110-331 | so does every refused access |
| GatewayBound.AccessBound | nnt_driver/nnt_pci_conf_access.c:250-331 | past its lock a block transfer makes at most 4 + ceil(size/4) * 0x10002 accesses on every path of every run |
| GatewayBound.AccessesCounted | nnt_driver/nnt_pci_conf_access.c:250-331 | what is bounded is the number of accesses the agent makes |
| GatewayBound.LeavesByClear | nnt_driver/nnt_pci_conf_access.c:271-275 | an agent past its lock leaves its call only by the access at its clear |
| VsecDriver.ClearVsecSemaphore | nnt_driver/nnt_pci_conf_access.c:9-19 | one access; if it is not refused the semaphore is 0 and nothing else changes |
| VsecDriver.GetSemaphoreTicket | nnt_driver/nnt_pci_conf_access.c:22-47 | reads, offers and reads back one ticket; the read-back matches exactly when no rival came first, and then the caller holds the semaphore |
| VsecDriver.LockVsecSemaphore | nnt_driver/nnt_pci_conf_access.c:52-85 | terminates by (races left, busy reads left); without refused accesses it returns 0 exactly when a read-back matched and -EINVAL exactly after 0x1001 busy reads; 0 means the semaphore is held; undisturbed it succeeds; it touches the semaphore and the counter only |
| VsecDriver.ReadDword | nnt_driver/nnt_pci_conf_access.c:90-107 | locks, reads once, clears last; returns what the register showed when the semaphore was taken, or -EINVAL with no data when the lock timed out; alone on the gateway it is, access by access, the machine's call |
| VsecDriver.WaitOnFlag | nnt_driver/nnt_pci_conf_access.c:110-131 | at most 0x10000 polls; returns 0 in any case; the transfer is finished exactly if the device needs fewer polls than that |
| VsecDriver.SetAddressSpace | nnt_driver/nnt_pci_conf_access.c:134-165 | 0 means supported and selected; without refused accesses that is the exact result and only the control register changes |
| VsecDriver.ReadCompletes | nnt_driver/nnt_pci_conf_access.c:224-239 | a packed read, once completed, puts the addressed dword into the data register and sets the flag |
| VsecDriver.WriteCompletes | nnt_driver/nnt_pci_conf_access.c:283-299 | a packed write, once completed, stores the data register at the address and clears the flag |
| VsecDriver.Read | nnt_driver/nnt_pci_conf_access.c:224-246 | -1 and no access from 2^30 on; below it a return of 0 means the addressed dword exactly if the device answered within the polls, else the stale data register; memory never changes |
| VsecDriver.Write | nnt_driver/nnt_pci_conf_access.c:280-302 | likewise: a return of 0 means that exactly the addressed dword was stored if the device answered within the polls and nothing otherwise; after a refused access at most that dword |
| VsecDriver.ReadDwords | nnt_driver/nnt_pci_conf_access.c:263-269 | whatever is refused or late: which dwords went through, each the one in memory or, if late, the one before it; the rest of the buffer and memory untouched; the return value says how far; without refusals as far as the addresses go |
| VsecDriver.TimelyRead | nnt_driver/nnt_pci_conf_access.c:263-269 | with a device that is always in time the buffer is that of the specification |
| VsecDriver.WriteDwords | nnt_driver/nnt_pci_conf_access.c:318-324 | whatever is refused or late: memory has exactly the dwords in time, and at most the one at which an access was refused; the return value says how far |
| VsecDriver.TimelyWrite | nnt_driver/nnt_pci_conf_access.c:318-324 | with a device that is always in time memory is that of the specification |
| VsecDriver.ReadPciconf | nnt_driver/nnt_pci_conf_access.c:250-276 | exactly the sequential effect of the call on the memory it found when its ticket was accepted; whatever is refused or late, which dwords went through and each one's value, the rest of the buffer and memory untouched, and whether the space was selected; undisturbed it gets the lock; access bound; last access is the clear; a failed lock leaves the buffer alone and touches only the ticket registers; alone on the gateway it is, access by access, the machine's call, with the same return value and buffer |
| VsecDriver.WritePciconf | nnt_driver/nnt_pci_conf_access.c:305-331 | the same for writes: whatever is refused or late, memory has exactly the dwords in time and at most the one at which an access was refused |
| VsecPort.Port.ReadInStep | nnt_driver/nnt_pci_conf_access.c:110-331 | a read through the port, granted or refused, keeps the machine a run of its events with the same accesses and the same device |
| VsecPort.Port.WriteInStep | nnt_driver/nnt_pci_conf_access.c:110-331 | so does a write; a write at the clear ends the call |
| LoneCaller.SoleRun | nnt_driver/nnt_pci_conf_access.c:52-331 | on a clean run of one agent the calls are accepted and return in the order in which they are made, and the semaphore is free between them |
| LoneCaller.LoneCalls | nnt_driver/nnt_pci_conf_access.c:52-331 | any sequence of calls on a gateway that nobody else uses is a run of one agent: same accesses, same device, same return values; on a clean run these are the sequential ones, in order, and memory is what they leave |
| Legacy.LegacyDevice.IsWoGw | nnt_driver/nnt_pci_conf_access_no_vsec.c:102-123 | non-zero exactly on write-only gateways and after a refused access of the probe, whose code it then returns; the probe is itself an address write |
| Legacy.LegacyDevice.InitPciconfNoVsec | nnt_driver/nnt_pci_conf_access_no_vsec.c:126-132 | returns 0; `wo_address` is non-zero if and only if the gateway is write-only or one of the two accesses of the probe was refused |
| Legacy.LegacyDevice.ReadNoVsec | nnt_driver/nnt_pci_conf_access_no_vsec.c:6-28 | returns the addressed dword through either order and keeps memory; odd offsets of a write-only gateway read the even address below; the write-only order on a plain gateway reads the odd address above |
| Legacy.LegacyDevice.WriteNoVsec | nnt_driver/nnt_pci_conf_access_no_vsec.c:49-81 | stores exactly the addressed dword through either order; nothing at odd offsets of a write-only gateway; the write-only order on a plain gateway stores at the address of the call before |
| Legacy.LegacyDevice.ReadPciconfNoVsec | nnt_driver/nnt_pci_conf_access_no_vsec.c:31-46 | the whole block in order, at odd offsets too; after a refused access the byte index, with exactly the dwords before it read and the buffer untouched from there |
| Legacy.LegacyDevice.WritePciconfNoVsec | nnt_driver/nnt_pci_conf_access_no_vsec.c:84-99 | stores exactly the block, after a refused access exactly the dwords before the returned byte index; nothing at odd offsets of a write-only gateway; the write-only order on a plain gateway stores the block one dword too early |
| OneSpecification.OneMemory | nnt_driver/nnt_pci_conf_access_no_vsec.c:31-132 | the driver's three paths, from the state after initialisation: any sequence of block calls at even offsets below 2^30 gives the same return values, buffers and memories through the VSEC path, the plain order and the write-only order |
| OneSpecification.SameAnswers | nnt_driver/nnt_pci_conf_access_no_vsec.c:31-99 | the sequential effects of any sequence of block calls below 2^30 are those of a memory without the limit |
| OneSpecification.SameExactlyBelowLimit | nnt_driver/nnt_pci_conf_access.c:208-212 | on a supported space a block call, at any offset, has the same return value, buffer and memory through the VSEC path as through the other one, on every memory, if and only if all its dwords lie below 2^30 |
| OneSpecification.SameErrorExactly | nnt_driver/nnt_pci_conf_access.c:208-212 | the return value alone is the same if and only if the dwords stay below 2^30 or the call starts at or above it, where the VSEC path moves nothing |
| OneSpecification.CrossGatewayRoundTrip | nnt_driver/nnt_pci_conf_access_no_vsec.c:31-99 | a block written through the three gateways is read back through each of them |
| Discovery.CapabilityNumbering | nnt_driver/nnt_pci_conf_access.c:334-358 | capabilities 1 to 9 number nine distinct spaces |
| Discovery.NntDevice.CheckAddressSpaceSupport | nnt_driver/nnt_pci_conf_access.c:168-200 | flags are only set, only for supported spaces, and exactly for those when undisturbed; alone on the gateway it is the machine's call, and the flags set are those it reports as found |
| Discovery.NntDevice.GetSpaceSupportStatus | nnt_driver/nnt_pci_conf_access.c:361-373 | the status is that of the space, and exactly its capability bit is added to the mask |
| Discovery.NntDevice.ProbeInitializedSpaces | nnt_driver/nnt_pci_conf_access.c:384-392 | bits are only added, for supported spaces only, and for all of them without refused accesses; the new bits are those of the spaces that were found |
| Discovery.NntDevice.InitVsecCapabilityMask | nnt_driver/nnt_pci_conf_access.c:376-400 | the mask grows; a set bit means a supported space; without the lock nothing changes; with it and no refused access the mask is exact; alone on the gateway it is the machine's call, and the bits set are those it reports as found |
| Discovery.NntDevice.CheckVsecMinimumSupport | nnt_driver/nnt_pci_conf_access.c:403-412 | fully supported exactly if it was, or bits 0, 1, 2 and 8 are set |
| Discovery.NntDevice.InitPciconf | nnt_driver/nnt_pci_conf_access.c:415-430 | both together, over any number of inits |
| Discovery.CompleteSupport | nnt_driver/nnt_pci_conf_access.c:403-412 | after an undisturbed first probe the four bits are set exactly when spaces 1, 2 and 0xa are supported |
| Discovery.NntDevice.CheckIfVsecSupported | nnt_driver/nnt_device.c:369-385 | keeps the VSEC callbacks exactly when the device is fully supported, else installs all three of the other gateway |
| Discovery.NntDevice.CallInit | nnt_driver/nnt_device.c:438-440 | each type of device is initialised by its own routine: the mask by one, `wo_address` by another, and each leaves the rest alone |
| Discovery.NntDevice.CreateDevice | nnt_driver/nnt_device.c:396-443 | one consistent triple of callbacks; VSEC exactly for a configuration device with capability and the four bits, and, undisturbed, exactly when the device supports the spaces; a gateway without the capability is probed exactly if the character device is allocated here; the exact return value |
| Discovery.CreateDevices | nnt_driver/nnt_device.c:388-447 | the same for every device before the first whose file cannot be created, whose code is returned; if there is none, what the initialisation of the last device returned |
| Discovery.ProbedMatches | nnt_driver/nnt_device.c:438-440 | so, without refused accesses, a created device without the capability is driven in the order of its gateway |
| DeviceNames.NamesRoundTrip | mst_backward_compatibility/mst_ppc/mst_ppc_pci_reset.c:240-259 | joining the parsed names with commas gives the parameter back; there is one more name than commas; no name has a comma |
| DeviceNames.JoinRoundTrip | mst_backward_compatibility/mst_ppc/mst_ppc_pci_reset.c:240-259 | parsing joined names gives them back, duplicates and empty names included |
| HotReset.SavePciConfigurationSpace | mst_backward_compatibility/mst_ppc/mst_ppc_pci_reset.c:104-135 | on success every listed device is enabled and made master as often as it is listed, and its saved state is its configuration; it succeeds exactly when none of its two kernel calls a device fails, and otherwise returns the code of the first that does |
| HotReset.SetResetState | mst_backward_compatibility/mst_ppc/mst_ppc_pci_reset.c:78-101 | on success exactly the function-0 entries are asserted or deasserted, in list order; it succeeds exactly when none of these calls fails, and otherwise returns the code of the first that does |
| HotReset.World.FunctionZeroInOrder | mst_backward_compatibility/mst_ppc/mst_ppc_pci_reset.c:83-98 | the entries that are reset are exactly those with function number 0, in list order |
| HotReset.World.FunctionZeroCounts | mst_backward_compatibility/mst_ppc/mst_ppc_pci_reset.c:87-87 | each device of function 0 is reset as often as it is listed, and no other device is |
| HotReset.WaitForResponse | mst_backward_compatibility/mst_ppc/mst_ppc_pci_reset.c:38-75 | the entries that begin a run of equal ids are polled in list order, each until its first right answer; at most 102 reads in total, and it fails exactly when the 102nd happens; on success every such entry has answered |
| HotReset.PollDevice | mst_backward_compatibility/mst_ppc/mst_ppc_pci_reset.c:50-70 | polls one device until it answers or the shared counter is used up; no poll if the id left over is already right |
| HotReset.RestorePciConfigurationSpace | mst_backward_compatibility/mst_ppc/mst_ppc_pci_reset.c:26-35 | every listed device gets its saved configuration back, duplicates included |
| HotReset.RunReset | mst_backward_compatibility/mst_ppc/mst_ppc_pci_reset.c:146-165 | on success every listed device has its prepared configuration whatever the reset wiped, and the log is save, assert, deassert, poll, restore; it fails exactly if a kernel call fails, with its code, or the polls run out, and then restores nothing |
| HotReset.ResetLogInOrder | mst_backward_compatibility/mst_ppc/mst_ppc_pci_reset.c:138-171 | that log, entry by entry |
| HotReset.PpcDriver.PciDevicesReset | mst_backward_compatibility/mst_ppc/mst_ppc_pci_reset.c:138-171 | the same for every entry of the list; after a success later calls do nothing, so at most one reset completes |
| HotReset.AttachCounts | mst_backward_compatibility/mst_ppc/mst_ppc_pci_reset.c:178-184 | a probe adds its matching entries to the count, those attached before a second time |
| HotReset.AttachedAll | mst_backward_compatibility/mst_ppc/mst_ppc_pci_reset.c:186-188 | the number of attached entries reaches the length of the list exactly when all are attached |
| HotReset.ProbeCounting | mst_backward_compatibility/mst_ppc/mst_ppc_pci_reset.c:174-191 | the found counter equals the number of attached entries exactly when no listed device is probed twice, and then reaches the requested count exactly when every entry is attached |
| HotReset.ProbedTwice | mst_backward_compatibility/mst_ppc/mst_ppc_pci_reset.c:178-188 | a concrete double probe reaches the requested count with an entry missing |
| HotReset.PpcDriver.InitPciDevice | mst_backward_compatibility/mst_ppc/mst_ppc_pci_reset.c:174-191 | a probe, first or repeated, attaches exactly the entries of its name and counts them; the reset starts when the counts agree, and follows a null device exactly if they agree with an entry missing, which needs a repeated probe; otherwise it preserves every configuration |
| HotReset.PpcDriver.ParsePciDevicesString | mst_backward_compatibility/mst_ppc/mst_ppc_pci_reset.c:233-264 | appends one unattached entry for every name, in order, and counts commas plus one |
| HotReset.PpcDriver.constructor | mst_backward_compatibility/mst_ppc/mst_ppc_pci_reset.c:267-288 | counters start at zero and the list is the parsed parameter |
| Dma.DmaPages.DmaMappingPage | nnt_driver/nnt_dma.c:9-33 | maps the page it indexes and records the address in both lists at the same slot; an index past the page list or at a slot without a page is the `fault` case |
| Dma.DmaPages.PinUserPages | nnt_driver/nnt_dma.c:38-72 | pins the next pages into their slots and starts a new, zeroed list of addresses |
| Dma.DmaPages.MapRound | nnt_driver/nnt_dma.c:96-105 | the first round maps page by page and reports each address; later rounds never touch slot 0, and every address they record is one they mapped |
| Dma.DmaPages.PinUserMemory | nnt_driver/nnt_dma.c:77-118 | terminates under any pattern of partial pins with slot i holding page i, pinned once; mappings are complete if the first pin takes all pages; if not, slot 0 is lost and the first round's mappings are in no slot |
| Dma.DmaPages.MapDmaPages | nnt_driver/nnt_dma.c:123-160 | the same for the whole call, with fresh lists; slot i holds the page at 4096 * i; -EPERM without the right to lock memory and -ENOMEM without a page list, with nothing pinned or mapped |
| Dma.DmaPages.ReleaseDmaPages | nnt_driver/nnt_dma.c:164-193 | removes exactly one pin and one mapping per slot and clears the slots |
| Dma.GetThenRelease | nnt_driver/nnt_dma.c:123-193 | get then release always restores the pins, and restores the mappings when the first pin takes all pages, whatever the DMA addresses; if no mapping has address 0 it restores them in no other case, and all mappings of the first round leak |
| Dma.MappingsSurviveExactlyOneRound | nnt_driver/nnt_dma.c:77-118 | every slot has its page's address when the first pin takes all pages; otherwise slot 0 is empty, which is wrong unless its page was mapped at address 0 |
| Dma.PartialPinSucceeds | nnt_driver/nnt_dma.c:77-118 | a concrete partial pin, two pages one at a time, that returns 0 with slot 0 empty |
| Vpd.WrappedComparison | nnt_driver/nnt_ioctl.c:158-159 | the wrapping comparison agrees with the order of times less than half the range apart |
| Vpd.AddressWords | nnt_driver/nnt_ioctl.c:202-202 | the address words are offset modulo 0x8000, with the flag above it for writes |
| Vpd.FlagTest | nnt_driver/nnt_ioctl.c:164-164 | the mask test is the test of bit 15 |
| Vpd.VpdPort.AwaitFlag | nnt_driver/nnt_ioctl.c:158-170 | terminates for every clock that reaches the deadline; stops at the first poll that saw the flag, all polls lie before the deadline, and a seen flag means a finished transfer |
| Vpd.VpdRead | nnt_driver/nnt_ioctl.c:142-184 | a refused access ends it with its code; otherwise 0 exactly when a poll before the deadline saw the flag, and then the stored dword; -ETIMEDOUT exactly when none did and the deadline has passed, across wrap-around; memory is never changed |
| Vpd.VpdWrite | nnt_driver/nnt_ioctl.c:187-230 | the same, with exactly the addressed dword stored, memory untouched after a time-out, and at most that dword stored after a refused access |
| Vpd.WriteThenRead | nnt_driver/nnt_ioctl.c:142-230 | a successful write and read hand the data through |
| ByteFile.TwoWrites | mst_backward_compatibility/mst_pciconf/mst_pciconf_bc.c:105-123 | two consecutive writes are one write of the concatenation, in contents, length and count |
| ByteFile.WriteAtBytes | mst_backward_compatibility/mst_pciconf/mst_pciconf_bc.c:105-123 | byte by byte: a write replaces exactly the bytes it covers, up to the 256th, and never makes the file shorter |
| ByteFile.ReadAtBytes | mst_backward_compatibility/mst_pciconf/mst_pciconf_bc.c:67-81 | a read gives the bytes from the position on, as many as there are up to the count |
| ByteFile.ChunkedWrites | mst_backward_compatibility/mst_pciconf/mst_pciconf_bc.c:90-129 | any cutting of data into consecutive writes leaves the file of a single write |
| ByteFile.EmptyWriteExtends | mst_backward_compatibility/mst_pciconf/mst_pciconf_bc.c:121-123 | an empty write beyond the end extends the file, which no write at all does not |
| ByteFile.ChunkedReads | mst_backward_compatibility/mst_pciconf/mst_pciconf_bc.c:52-87 | consecutive reads of any sizes concatenate to the bytes up to the end of the file |
| ByteFile.ReadsTheWholeFile | mst_backward_compatibility/mst_pciconf/mst_pciconf_bc.c:52-87 | enough positive reads from 0 give the whole file |
| ByteFile.ChunkedRoundTrip | mst_backward_compatibility/mst_pciconf/mst_pciconf_bc.c:52-201 | after truncation, what is written in any chunks, or in none, is read back in any chunks, up to 256 bytes |
| ByteFile.DeviceFile.Read | mst_backward_compatibility/mst_pciconf/mst_pciconf_bc.c:67-81 | exactly the bytes at the position, and the position after them; -EFAULT moves nothing |
| ByteFile.DeviceFile.Write | mst_backward_compatibility/mst_pciconf/mst_pciconf_bc.c:105-123 | lays the data over the file and keeps 0 <= used <= 256; after -EFAULT length and position are unchanged, the target range has the bytes copied and then zeros, and the rest is unchanged |
| ByteFile.DeviceFile.Init | mst_backward_compatibility/mst_pciconf/mst_pciconf_bc.c:196-201 | append moves the position to the end, truncation empties the file and leaves the position, and the bytes stay in the buffer |
| ByteFile.MinorFiles.Read | mst_backward_compatibility/mst_pci/mst_pci_bc.c:47-95 | reads the device's file, or the one of the minor number if there is no device |
| ByteFile.MinorFiles.Write | mst_backward_compatibility/mst_pci/mst_pci_bc.c:98-150 | writes that file and no other |

## Left out

- VsecDriver.ReadDwords: a late transfer finishes only while its flag is polled or not at all; one that finishes between calls is part of the step machine only.
- GatewayAtomicity.Atomicity: speaks of runs without refused accesses, failed locks or late devices; the results for other runs are those of `GatewayMutex`, `GatewayClears` and `GatewayBound`.
- Blocks.ReadAfterWrite: blocks of up to 2^30 dwords, beyond which the 32-bit addresses would come round to the first dword again; so are `WrittenAt`, `ReadsTheLastWrite` and `CrossGatewayRoundTrip`.
- LoneCaller.LoneCalls: ties the methods to the machine while nobody else uses the gateway; with others about, the methods are tied to it by their effects only.
- HotReset.PpcDriver.InitPciDevice: a reset that meets a null device is the result `fault` instead of an oops, and nothing is said of the devices before it in the list.
- HotReset.PpcDriver.constructor: the string copies into fixed buffers, their terminators and the allocation of entries are not modelled; names are sequences of characters.
- Dma.DmaPages.PinUserMemory: mapping a slot without a page, or reading the page list past its end, is the result `fault` instead of undefined behaviour, and freed lists are not tracked.
- Vpd.VpdRead: the conversion from milliseconds to jiffies; the timeout is given in jiffies and is less than a quarter of the counter's range.
- Discovery.NntDevice.CreateDevice: creation of the device file, the answer of the capability search and the initialisation of memory devices are parameters; the VPD capability address is not kept.
- Register offsets: the VSEC registers and the two registers of the other gateway are named, not computed from the capability's position.
- Inner loops: where a loop body is large it is a method of its own (`LockTurn`, `ReadTurn`, `WriteTurn`, `ProbeFirstFive`, `PollDevice`, `AwaitEntry`, `SaveDevice`, `SaveAndReset`, `CreateNext`, `CreateAt`, `MapNext`, `PinRound`, `Turn`, `ProbeNext`, `AttachMatching`); the source has them inline. `ReadToClear` and `ReadLocked`, with their counterparts for writes, are the parts of `read_pciconf` before its clear and between lock and clear.
- The linked lists of devices are sequences; global variables of the reset driver are fields of `PpcDriver`.
- Sleeping, logging, kernel mutexes and memory allocation other than the DMA lists.
- `remove_pci_device`, module registration and the character-device, ioctl, mmap and sysfs plumbing.
- `nnt_driver/nnt_linux_driver_main.c`, whose calls do not match the declared signatures.
- `nnt_driver/nnt_memory_access.c`, the device-id predicates and the ConnectX slots: only easy members.
