# Verification of the CNI address-management plugins

A Dafny model of two IPAM plugins of the CNI repository and of the argument
string they share, with proofs of what the plugins promise.

**host-local** hands out addresses of a range to containers, in ring order after
the last one it reserved. A directory is its database: one file for each reserved
address, holding the container's id, and a cursor file with the last reserved
address. Any number of ADD and DEL processes work on it under flock.

- `Addresses`, `Bits`, `Subnets`: byte strings and their big-endian integers,
  `NextIP` and `PrevIP`, masks, membership.
- `Ranges`: `networkRange`, `validateRangeIP`, the range of `NewIPAllocator`.
- `Rings`, `Stores`, `Allocator`: the ring search on integers, the two stores with
  their failure points, and `IPAllocator` working on addresses.
- `AllocationLaws`, `AllocationRuns`: what one operation does, with failures and
  without, and what holds over runs: round robin, capacity, agreement of the
  directory with the in-memory store.
- `Protocol` and its companions: the processes interleaved system call by system
  call, with failures and crashes. `ProtocolSafety` proves uniqueness,
  `ProtocolSerial` that runs without crashes are serial, failures included,
  `ProtocolProgress` that every serial run happens and nobody is shut out,
  `ProtocolExclusive` what remains when flock fails, and `ProtocolRace` exactly what
  uniqueness needs.
- `AllocationExamples`: cases of the allocator's tests, worked out.

**dhcp** keeps a lease alive: `LeaseTimes` (durations in int64 nanoseconds),
`Lease` (commit, renewal, backoff, the maintenance loop), `LeaseLaws` (over every
run), `ClasslessRoutes` (the route option of RFC 3442).

`PluginArgs` is CNI_ARGS: the printer `stringify` and the parser `LoadArgs`.

Run `dafny verify dfyconfig.toml` with Dafny 4.11.

## How the model is built

- A nil address is the empty byte string. An address is a byte string of any
  length, so the leading zeros that `big.Int.Bytes` drops are visible.
- The text forms of addresses are Go's library: `Text` is any pair of functions of
  which parsing undoes printing, and no address prints as the cursor file's name.
- The Go interface `Store` is a datatype over its two implementations.
- I/O failures, replies of DHCP servers, jitter, clock readings and the stop signal
  are parameters. All theorems hold for every choice of them.
- Processes, the DHCP loop and the search have specification functions; the
  classes' methods, in the source's imperative form, are proved equal to them.
- `Pool.Valid` collects what the search needs of a configuration (`Sound`).
  `Ranges.RangeIsSoundExactly` says for which configurations `NewIPAllocator`
  provides it.

## What the code does that its text does not say

- The search stops before the address it started after, so without a cursor the
  end of the range is not tried, although both ends "may be allocated"
  (plugins/ipam/host-local/allocator.go:28-31). A range of one address gives
  nothing out: `Capacity`.
- Without RangeEnd a range can start after it ends; `RangeIsSoundExactly` and
  `LastHostAddressInvertsRange`.
- `LoadArgs` takes a boolean in any mix of cases, not only `[Tt]rue`
  (pkg/types/args.go:27-29): `ParseBoolExact`.
- A lease of more than 108510259 seconds has a wrong default rebinding time:
  `DefaultRebindingExact`, `InfiniteLeaseOverflows`.
- The default renewal time, half the lease, lies after the rebinding time in two
  families of ACKs: with a rebinding time from the server below half the lease
  (`RenewalAfterRebinding`), and with none usable and a lease of more than
  108510259 seconds, whose default rebinding time always comes out below the half
  (`DefaultRebindingIsLateExactly`). `CommitTimesExact` says that these, without a
  usable renewal time from the server, are all.
- Releasing an id that equals the text of the last reserved address deletes the
  cursor file: `StepRefines`, `ReleasedCursorIsLost`, `CursorTextRunDiverges`.
- Get and Release ignore a failed flock. Without DELs that is harmless; with them
  an address can be given to two containers: `UniqueExactly`.

## Model

| member | source | states |
|---|---|---|
| Addresses.NextIPKeepsLengthExactly | pkg/ip/cidr.go:23-26 | NextIP keeps the byte length of an address exactly when it has no leading zero and is not all ones, or is a zero followed by all ones |
| Addresses.NextIPAddsOne | pkg/ip/cidr.go:23-26 | on an address without leading zero that is not all ones, NextIP adds one to the integer and keeps the form |
| Addresses.PrevIPUndoesNextIPExactly | pkg/ip/cidr.go:22-32 | PrevIP undoes NextIP on exactly these addresses |
| Addresses.FromToBytes | pkg/ip/cidr.go:34-39 | reading the n bytes written for an integer below 256^n gives it back |
| Addresses.MinFromBytes | pkg/ip/cidr.go:34-43 | the minimal bytes of an address's integer are the address, if it has no leading zero |
| Addresses.TwoForms | plugins/ipam/host-local/allocator.go:72-79 | an IPv4 address and its 16-byte form after ::ffff have the four bytes as canonical form |
| Addresses.OneForm | plugins/ipam/host-local/allocator.go:72-79 | a 16-byte address without that prefix is its own canonical form |
| Addresses.EqualIsSameCanon | plugins/ipam/host-local/allocator.go:72-79 | net.IP.Equal holds exactly when the canonical forms agree |
| Bits.BitwiseExact | plugins/ipam/host-local/allocator.go:220-222 | and, or and complement act on each bit |
| Ranges.ComputeNetworkRange | plugins/ipam/host-local/allocator.go:207-231 | the loop computes the bytewise end of the subnet, with the same errors |
| Ranges.NetworkRangeArithmetic | plugins/ipam/host-local/allocator.go:219-230 | with two host bits the end is network + 2^h - 1, or - 2 for IPv4, without a borrow |
| Ranges.SingleAddressWraps | plugins/ipam/host-local/allocator.go:225-228 | without host bits the decrement wraps, as for 10.0.0.0/32; the constructor refuses such a subnet |
| Subnets.ContainsByMaskLength | plugins/ipam/host-local/allocator.go:91-93 | membership for masks that are longer than the address, or do not fit it |
| Ranges.ValidateRangeIP | plugins/ipam/host-local/allocator.go:82-129 | the early-leaving byte comparisons decide as comparison of integers does, with the same error |
| Ranges.AcceptedExactlyInRange | plugins/ipam/host-local/allocator.go:82-129 | an address is accepted exactly if it lies in the masked network and between the bounds, at equal length |
| Ranges.RefusedExactly | plugins/ipam/host-local/allocator.go:82-129 | which error a refused address gets, in terms of integers and lengths |
| Ranges.RangeErrorOfForms | plugins/ipam/host-local/allocator.go:82-129 | acceptance and error do not depend on the forms in which address, subnet and bounds are given |
| Ranges.ConfigurationAcceptedExactly | plugins/ipam/host-local/allocator.go:36-70 | the exact configurations for which an allocator is made |
| Ranges.ConfigurationRefusedExactly | plugins/ipam/host-local/allocator.go:36-70 | which error a refused configuration gets |
| Ranges.ConfiguredRangeExact | plugins/ipam/host-local/allocator.go:47-70 | RangeStart and RangeEnd where given, else one past the subnet's address and the last address of the masked network, less one for IPv4 |
| Ranges.ConfiguredRangeOfForms | plugins/ipam/host-local/allocator.go:36-70 | the same outcome and the same canonical range for both forms of subnet, RangeStart and RangeEnd |
| Ranges.RangeIsSoundExactly | plugins/ipam/host-local/allocator.go:36-70 | the range is in order, inside the subnet and free of leading zeros exactly if the start needs all its bytes and RangeEnd is given or the start does not pass the default end |
| Ranges.LastHostAddressInvertsRange | plugins/ipam/host-local/allocator.go:49-69 | a subnet written with its last host address gets a range that starts after its end |
| Rings.Ring.SearchAfterExact | plugins/ipam/host-local/allocator.go:175-194 | the ring search finds the nearest address that is not busy, and nothing exactly if all but the cursor are busy |
| Stores.DiskStore.ReserveIP | plugins/ipam/host-local/backend/disk/backend.go:47-72 | the files and the result for each point of failure |
| Stores.DiskStore.ReleaseAll | plugins/ipam/host-local/backend/disk/backend.go:90-107 | removes exactly the readable and removable files that hold the id |
| Stores.FakeStore.ReserveIP | plugins/ipam/host-local/backend/testing/fake_store.go:42-50 | reserves a free address and moves the cursor, otherwise changes nothing |
| Stores.FakeStore.ReleaseAll | plugins/ipam/host-local/backend/testing/fake_store.go:61-72 | the two loops remove exactly the entries of the id |
| Stores.ReserveOutcome | plugins/ipam/host-local/backend/disk/backend.go:47-72 | Reserve returns true exactly on a free address without failure; after an error a free address is reserved exactly if the failure left its file, with what it left there; no other reservation changes |
| Stores.CursorFileOutcome | plugins/ipam/host-local/backend/disk/backend.go:64-70 | the cursor file after Reserve, for each point of failure |
| Stores.ReleaseUnderFaults | plugins/ipam/host-local/backend/disk/backend.go:90-107 | a release keeps what the id does not hold, what cannot be removed, and the in-memory cursor |
| Allocator.IPAllocator.NewIPAllocator | plugins/ipam/host-local/allocator.go:36-70 | the constructor yields the configured range or the configuration's error |
| Allocator.IPAllocator.GetSearchRange | plugins/ipam/host-local/allocator.go:242-267 | the search runs from the cursor's successor to the cursor, which is the last reserved address if valid and else the end |
| Allocator.IPAllocator.GatewayExact | plugins/ipam/host-local/allocator.go:136-139 | the gateway is the configured one or one past the subnet's address |
| Allocator.IPAllocator.GetSearched | plugins/ipam/host-local/allocator.go:175-194 | the loop over addresses does what the search on integers does, in at most one turn fewer than the range has addresses |
| Allocator.IPAllocator.Get | plugins/ipam/host-local/allocator.go:132-195 | the reply and the new store, searched or requested, under every failure |
| Allocator.IPAllocator.Release | plugins/ipam/host-local/allocator.go:198-203 | the new store |
| Allocator.IPAllocator.NextInRangeIsNext | plugins/ipam/host-local/allocator.go:234-239 | the address step is the ring step; NextIP is never applied to the end |
| AllocationLaws.SearchGivesNearestFree | plugins/ipam/host-local/allocator.go:175-194 | a search gives the free address nearest after the cursor, inside the subnet, adds that reservation and moves the cursor; it fails exactly if all but the cursor are busy, and then changes nothing |
| AllocationLaws.SearchUnderFaults | plugins/ipam/host-local/allocator.go:175-194 | whatever fails, the loop comes to the first address after the cursor that is neither the gateway nor found reserved, and ends with one attempt to reserve it |
| AllocationLaws.GetUnderFaults | plugins/ipam/host-local/allocator.go:132-195 | whatever fails, one Get changes at most one reservation, and none that existed; a store failure leaves exactly what the failed system call leaves at one address of the range |
| AllocationLaws.RequestRefusedExactly | plugins/ipam/host-local/allocator.go:146-173 | why a request is refused, whatever fails: for the gateway, out of range, or reserved; otherwise the address asked for is tried |
| AllocationLaws.RequestFormsAgree | plugins/ipam/host-local/allocator.go:146-173 | the form of the requested address does not matter |
| AllocationLaws.ReplyExact | plugins/ipam/host-local/allocator.go:132-195 | a reply reports the subnet's mask and the configured or default gateway, and carries an address of the range that is not this gateway |
| AllocationLaws.CursorExact | plugins/ipam/host-local/allocator.go:242-267 | the search starts after the last reserved address if that can be read and is accepted in the range, and else at the start |
| AllocationLaws.RequestExact | plugins/ipam/host-local/allocator.go:146-173 | a request is granted exactly for an address of the range that is neither gateway nor reserved; a refusal changes nothing |
| AllocationLaws.GetAddsExactlyOne | plugins/ipam/host-local/allocator.go:132-195 | a success adds exactly one reservation, of an address of the range and the subnet, never the gateway; a failure none |
| AllocationLaws.ReleaseUndoesGet | plugins/ipam/host-local/allocator.go:132-203 | releasing an id that held nothing undoes its allocation |
| AllocationRuns.RoundRobin | plugins/ipam/host-local/allocator.go:175-194 | between two allocations of one address the cursor goes over every other address, each being busy or given out when passed |
| AllocationRuns.Capacity | plugins/ipam/host-local/allocator.go:175-194 | from an empty store exactly the range without the gateway is given out, each address once, and then nothing; or nothing at all if only the end and the gateway are in the range |
| AllocationRuns.StepRefines | plugins/ipam/host-local/backend/disk/backend.go:47-107 | one operation has the same outcome on both stores, which stay related exactly unless the cursor file's text is released |
| AllocationRuns.DiskRefinesMemory | plugins/ipam/host-local/backend/testing/fake_store.go:42-72 | the directory gives the outcomes of the in-memory store over every such run |
| AllocationRuns.ReleasedCursorIsLost | plugins/ipam/host-local/backend/disk/backend.go:90-107 | the cursor is lost on disk and kept in memory when the cursor file's text is released |
| AllocationRuns.ReleasedCursorDiverges | plugins/ipam/host-local/backend/disk/backend.go:90-107 | the next search then gives different addresses on the two stores, if the range start and the cursor's successor are different and free |
| AllocationRuns.CursorTextRunDiverges | plugins/ipam/host-local/backend/testing/fake_store.go:61-72 | a run of three operations from empty stores whose outcomes differ |
| AllocationExamples.RangeOfConf | plugins/ipam/host-local/allocator_test.go:56-64 | 10.0.0.0/29 without options gives out 10.0.0.1 to 10.0.0.6 |
| AllocationExamples.PoolOfAllocator | plugins/ipam/host-local/allocator_test.go:30-48 | the allocator made for it protects 10.0.0.1 as its gateway |
| AllocationExamples.FreshStart | plugins/ipam/host-local/allocator_test.go:59-64 | its first address, from an empty store of either kind, is 10.0.0.2 |
| AllocationExamples.AfterTheFifth | plugins/ipam/host-local/allocator_test.go:74-98 | after 10.0.0.5 comes 10.0.0.6, or 10.0.0.2 if that is taken |
| ProtocolSafety.AdvanceSafe | plugins/ipam/host-local/backend/disk/backend.go:47-107 | every system call under the lock, failing or not, keeps the files in line with the log |
| ProtocolSafety.ExecKeepsAccounts | plugins/ipam/host-local/allocator.go:132-203 | over every interleaving, whatever flock does: every address returned was logged as a reservation by its process, and each process logs at most one |
| ProtocolSafety.AddressesAreUnique | plugins/ipam/host-local/allocator.go:132-203 | over every interleaving with failures and crashes, if flock succeeds: two reservations of one address have a removal for the first id between them, and every address returned was reserved once by its process |
| ProtocolSafety.TwoReturnsMeanRemoval | plugins/ipam/host-local/allocator.go:132-203 | two ADDs return one address only if a DEL for the earlier one's id came between |
| ProtocolExclusive.AddsAreExclusive | plugins/ipam/host-local/backend/disk/backend.go:47-72 | without DELs no address is reserved twice and no two ADDs return the same one, even if flock fails |
| ProtocolRace.FailedFlockDuplicates | plugins/ipam/host-local/backend/disk/lock.go:43-50 | when nothing fails but one DEL's flock, two ADDs can return one address although no DEL was for the id of either |
| ProtocolRace.UniqueExactly | plugins/ipam/host-local/allocator.go:132-203 | no address is returned twice without a DEL for either id, over all runs, exactly if flock does not fail or there are no DELs |
| ProtocolSerial.AdvanceFinishes | plugins/ipam/host-local/allocator.go:132-203 | a step of the lock holder, failing or not, does not change the directory and the result it will come to with its failures |
| ProtocolSerial.RunsAreSerial | plugins/ipam/host-local/allocator.go:132-203 | without crashes, results and directory are those of the serial run in lock order in which each operation meets the same failures |
| ProtocolSerial.CleanRunsAreSerial | plugins/ipam/host-local/allocator.go:132-203 | without crashes and failures results and directory are those of the serial run in lock order |
| ProtocolProgress.SerialRunsHappen | plugins/ipam/host-local/allocator.go:132-203 | conversely, any processes in any order with any failures have such a run, in which all finish |
| ProtocolProgress.PartialContentHappens | plugins/ipam/host-local/backend/disk/backend.go:49-57 | a file under creation can be seen with any content |
| ProtocolProgress.LockStaysAlive | plugins/ipam/host-local/backend/disk/lock.go:43-50 | whatever fails or crashes, the lock is held only by a process inside its operation |
| ProtocolProgress.AnyoneCanFinish | plugins/ipam/host-local/allocator.go:132-203 | after any run without a failed flock, every process that has not crashed can still come to its result |
| LeaseTimes.DurationsDoNotOverflow | plugins/ipam/dhcp/options.go:116-127 | no 32-bit number of seconds overflows int64 nanoseconds |
| LeaseTimes.DefaultRebindingExact | plugins/ipam/dhcp/lease.go:153-157 | the default is 85 % of the lease exactly up to 108510259 s, and never more than the lease |
| LeaseTimes.CommitTimesExact | plugins/ipam/dhcp/lease.go:145-163 | when an ACK is usable, that no time exceeds the lease, which rebinding and renewal times are used, and for exactly which options the renewal is due by the rebinding time |
| LeaseTimes.DefaultRebindingIsLateExactly | plugins/ipam/dhcp/lease.go:153-163 | the default rebinding time is at least half the lease exactly up to 108510259 s |
| LeaseTimes.DefaultTimes | plugins/ipam/dhcp/lease.go:153-163 | the defaults of section 4.4.5 of RFC 2131 and their order |
| LeaseTimes.RenewalAfterRebinding | plugins/ipam/dhcp/lease.go:159-163 | an ACK whose renewal time comes out after its rebinding time |
| LeaseTimes.InfiniteLeaseOverflows | plugins/ipam/dhcp/lease.go:153-157 | the infinite lease gets a negative default rebinding time |
| Lease.BackoffRetry | plugins/ipam/dhcp/lease.go:304-323 | the first reply of three attempts and the time slept, 25 to 31 s if all fail |
| LeaseLaws.AnswerExact | plugins/ipam/dhcp/lease.go:304-323 | a try brings the first of three replies after the sleeps before it, or nothing at once without a client |
| Lease.DHCPLease.CommitAck | plugins/ipam/dhcp/lease.go:145-173 | the times change all together or not at all |
| Lease.DHCPLease.Renew | plugins/ipam/dhcp/lease.go:236-260 | a reply counts as a renewal whether or not it could be committed |
| Lease.DHCPLease.Acquire | plugins/ipam/dhcp/lease.go:113-143 | succeeds exactly with a reply that could be committed |
| Lease.DHCPLease.Maintain | plugins/ipam/dhcp/lease.go:175-228 | the loop follows the state machine; a run that ends sends one release or downs the link once, never both |
| LeaseLaws.CommitExact | plugins/ipam/dhcp/lease.go:145-173 | a commit succeeds exactly with a 4-byte lease time, and then the expiry is that lease after now, renewal and rebinding are their times after now, and the ACK is kept |
| LeaseLaws.DefaultTerms | plugins/ipam/dhcp/lease.go:145-173 | with default options renewal and rebinding come after half and 85 % of the lease, in order and before the expiry |
| LeaseLaws.GoodAckIsCommitted | plugins/ipam/dhcp/lease.go:190-216 | a usable ACK while renewing or rebinding sets all terms and the lease is bound, or released on a stop |
| LeaseLaws.LastAckSetsTerms | plugins/ipam/dhcp/lease.go:175-228 | over every run the last usable ACK while renewing or rebinding sets the terms, and nothing else does |
| LeaseLaws.NextPhaseExactly | plugins/ipam/dhcp/lease.go:178-227 | exactly when a turn leads to each state, and how long it sleeps |
| LeaseLaws.AlwaysOnTime | plugins/ipam/dhcp/lease.go:178-216 | over every run: renewing not before the renewal time, rebinding after the rebinding time, link down only after the expiry |
| LeaseLaws.CommittedTerms | plugins/ipam/dhcp/lease.go:165-170 | the terms at the end of a run are the first ones or exactly those of one ACK |
| LeaseLaws.MalformedAckIsRetriedAtOnce | plugins/ipam/dhcp/lease.go:236-260 | an ACK that cannot be committed binds the lease with its old times, and the next turn renews at once |
| LeaseLaws.FailedRound | plugins/ipam/dhcp/lease.go:304-323 | a failed round sleeps at least 25 s and less than 31 s |
| LeaseLaws.FailingLeaseExpires | plugins/ipam/dhcp/lease.go:175-228 | if every try fails and no stop comes, the states only advance and within a number of turns known in advance the link is down, after the expiry |
| ClasslessRoutes.ParseCIDRRoutes | plugins/ipam/dhcp/options.go:65-105 | the loop computes the parse of the option, nil for a malformed one |
| ClasslessRoutes.ParseEncoded | plugins/ipam/dhcp/options.go:65-105 | parsing the encoding of any routes gives them back zero-padded |
| ClasslessRoutes.ParseExact | plugins/ipam/dhcp/options.go:65-105 | an option parses to routes exactly if it is their encoding followed by fewer than five bytes |
| ClasslessRoutes.EncodingLayout | plugins/ipam/dhcp/options.go:65-105 | an encoding is the mask's width, the octets in which the mask is not zero, and the router |
| ClasslessRoutes.SentOctetsAreSignificant | plugins/ipam/dhcp/options.go:76-80 | an octet is sent exactly if the mask is not zero in it |
| ClasslessRoutes.OctetsHoldWidth | plugins/ipam/dhcp/options.go:76-80 | as many octets are sent as hold the width |
| ClasslessRoutes.ArrivesMasked | plugins/ipam/dhcp/options.go:89-98 | a destination arrives with zeros exactly where the mask is zero; mask and router arrive unchanged |
| ClasslessRoutes.TwoRoutes | plugins/ipam/dhcp/options_test.go:69-75 | the option of the repository's test parses to its two routes |
| PluginArgs.Stringify | pkg/invoke/args.go:68-76 | prints the pairs |
| PluginArgs.PairOfExactly | pkg/types/args.go:77-82 | a piece is a pair exactly with one equals sign, of what stands before it and after |
| PluginArgs.PrintedForm | pkg/invoke/args.go:68-76 | two pairs print as A=1;B=2 |
| PluginArgs.PrintedReadsBackExactly | pkg/invoke/args.go:68-76 | splitting what was printed gives the pairs back exactly if no key or value holds a separator |
| PluginArgs.Container.LoadArgs | pkg/types/args.go:67-101 | the fields and the error after the loop |
| PluginArgs.LoadSucceedsExactly | pkg/types/args.go:67-101 | succeeds exactly if all pieces are pairs, known values parse, and unknown keys are absent or finally ignored; fields end at their last values |
| PluginArgs.LoadUndoesStringify | pkg/types/args.go:67-101 | the same for the printed form of any separator-free pairs |
| PluginArgs.LoadedByKind | pkg/types/args.go:31-53 | a loaded text field holds the text, an address field the parsed address, a boolean field whether the text is one of the true ones |
| PluginArgs.ParsesByKind | pkg/types/args.go:31-53 | which texts each kind of field takes |
| PluginArgs.StopsAtFirstBadPiece | pkg/types/args.go:74-94 | an error is that of the first piece that is no pair or does not parse, and the fields are as the pieces before it left them |
| PluginArgs.NoIgnoreUnknownPanics | pkg/types/args.go:96 | a container without a boolean IgnoreUnknown panics |
| PluginArgs.ParseBoolExact | pkg/types/args.go:31-42 | the texts taken for a boolean |

## Left out

- Addresses with a leading zero byte and ranges that start after their end: the search is specified for sound ranges only; `RangeIsSoundExactly` delimits them.
- The text of addresses (`net.IP.String`, `net.ParseIP`): library code, a parameter.
- Routes, names and JSON of the configuration, plugin lookup and execution: passed through, or easy.
- A write by a process whose file another process has removed: it can only happen when flock failed and DELs run, and no theorem about the files covers that case except the counterexample, in which it does not occur.
- Fairness of the lock: a waiting process can get it, but nothing says that it will.
- `parseRoutes`, `parseRouter`, `parseSubnetMask`: easier members of the same kind as the classless routes.
- Netlink, sockets, the packets themselves and the DHCP daemon's bookkeeping: the outcome of a request is an input.
- Real time in Go's select: which branch is taken is an input; the expiry theorem assumes only that sleeps last as long as asked.
- Bridge, macvlan, ptp and the other main plugins: kernel calls.
