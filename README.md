# Disco in Dafny

Disco finds the reachable hosts on the local IPv4 networks of a device. This project models its core in Dafny and proves properties of that model. The core has three parts:

- **Address arithmetic** (module `Address`, over `Bits`). An `IPv4Address` holds four raw bytes. `decimalRepresentation` reads them as a big-endian `UInt32`. `init?(decimal:)` writes a `UInt32` back as four big-endian bytes. `isValid` tests the low octet.
- **Subnet enumeration** (module `Interface`, over `Collections`). `IPv4Interface.addressesOnSubnet(ignoringMine:)` computes `first = mask & ip` and `count = ~mask`. It maps every offset in `0..<count` to the address `first + offset`, keeps the valid ones, and can drop the interface's own address.
- **Scan bookkeeping** (module `HostFinding`). It has two classes:
  - `HostFinder` has the fields `isRunning`, `totalCount` and `finishedCount`, the queued pings and the delegate events. Its methods are `start`, `stop` and `pingFinished`.
  - `PingOperation` has the vote counters `successes` and `failures`, `updateStats` and the five ping callbacks.

  Each class method is specified by a function on a value snapshot of the fields (`Scan`, `Stats`). The lemmas are proved about those functions.

`UInt32` is an integer newtype over `0 .. 2^32 - 1`. A sum that leaves that range cannot be converted back to `UInt32`, which is how the model represents Swift's trapping `+`. Bitwise AND is defined bit by bit on naturals. Its meaning is proved against a bit-level reference definition (`Bits.AndBit`). `~x` is `2^32 - 1 - x`. The host passed to the ping operations is kept as an `IPv4Address` rather than as its string form.

`HostFinder` is modelled as the code is written, including these behaviours:

- `start` never resets `finishedCount`. After a completed scan, a second scan that is no larger than the first reports a completed stop on its first result (`SecondScanStopsEarly`).
- `stop` does not clear `isRunning`. It reports `stopped(false)` even when no scan is running. It cancels only pings that have not started yet. After a stop in the middle of a scan, `start` does nothing, and results from pings already under way are still counted and reported (`StopDoesNotEndScan`).
- A scan whose candidate list is empty sets `isRunning` and never clears it.
- A ping whose session never becomes ready never calls its completion (`Disco/HostFinder.swift:127`). It does not produce a `false` verdict.

## Model

| member | source | states |
|---|---|---|
| Bits.And | Disco/IPv4Interface.swift:32 | the result is no larger than either operand; specified by `AndBit` |
| Bits.Not | Disco/IPv4Interface.swift:33 | no contract; specified by `PrefixMaskRange` and `SubnetLowOctets` |
| Bits.AndBit | Disco/IPv4Interface.swift:32 | bit k of `a & b` is set exactly when bit k is set in both a and b |
| Bits.AndPrefixMask | Disco/IPv4Interface.swift:32 | `prefixMask & a` keeps the network part of a and clears its host bits |
| Bits.PrefixMaskRange | Disco/IPv4Interface.swift:32-35 | for a prefix mask, d lies in `[first, first + ~mask)` exactly when `d & mask == a & mask` and d is not the broadcast value |
| Bits.AndLowByte | Sources/Disco/Network+Disco.swift:57 | `x & 0xFF` is `x mod 256` |
| Address.FromRawValue | Sources/Disco/Network+Disco.swift:53 | an address is made exactly when the data has four bytes, and it holds those bytes |
| Address.DecimalRepresentation | Sources/Disco/Network+Disco.swift:43-48 | no contract; specified by `DecimalRoundTrip`, `DecimalInjective` and `LowByteIsLastOctet` |
| Address.BigEndianBytes | Sources/Disco/Network+Disco.swift:50-54 | no contract; specified by `FromDecimalRoundTrip` |
| Address.FromDecimal | Sources/Disco/Network+Disco.swift:50-54 | no contract; specified by `FromDecimalRoundTrip` and `DecimalRoundTrip` |
| Address.IsValid | Sources/Disco/Network+Disco.swift:56-59 | no contract; specified by `IsValidIffLastOctet` and `IsValidOnlyLastOctet` |
| Address.FromDecimalRoundTrip | Sources/Disco/Network+Disco.swift:43-54 | `init?(decimal: d)` always succeeds and its `decimalRepresentation` is d |
| Address.DecimalRoundTrip | Sources/Disco/Network+Disco.swift:43-54 | converting an address to its decimal and back gives the same four bytes |
| Address.DecimalInjective | Sources/Disco/Network+Disco.swift:43-48 | two addresses with the same decimal are equal |
| Address.LowByteIsLastOctet | Sources/Disco/Network+Disco.swift:56-58 | the low byte of the big-endian decimal is the last dotted octet |
| Address.IsValidIffLastOctet | Sources/Disco/Network+Disco.swift:56-59 | `isValid` holds exactly when the last octet is strictly between 0 and 255 |
| Address.IsValidOnlyLastOctet | Sources/Disco/Network+Disco.swift:56-59 | validity depends on the last octet alone; x.y.z.0 and x.y.z.255 are never valid |
| Collections.Filter | Disco/IPv4Interface.swift:37 | `filter` keeps exactly the elements that pass the test and never grows the sequence |
| Collections.Compact | Disco/IPv4Interface.swift:36 | `compactMap` keeps exactly the values of the non-nil entries |
| Collections.CompactAllSome | Disco/IPv4Interface.swift:35-36 | when no entry is nil, `compactMap` keeps every entry in place |
| Collections.Flatten | Disco/HostFinder.swift:51-53 | `reduce([], +)` has the summed length and holds exactly the elements of the parts |
| Collections.FilterKeepsOrder | Disco/IPv4Interface.swift:37-41 | filtering a strictly ascending sequence leaves it strictly ascending |
| Collections.FilterKeepsAll | Disco/IPv4Interface.swift:39-41 | filtering with a test that every element passes changes nothing |
| Collections.FilterDropsOne | Disco/IPv4Interface.swift:39-41 | filtering with a test that only entry k fails removes exactly entry k and keeps the order |
| Interface.FirstIP | Disco/IPv4Interface.swift:29-32 | no contract; specified by `HomeRange` and `SubnetOfPrefix` |
| Interface.Count | Disco/IPv4Interface.swift:30-33 | no contract; specified by `HomeRange` and `GeneratedDecimals` |
| Interface.Generated | Disco/IPv4Interface.swift:35-36 | no contract; specified by `GeneratedDecimals` and `InGenerated` |
| Interface.NotMine | Disco/IPv4Interface.swift:39-41 | no contract; specified by `SubnetIgnoringMine` |
| Interface.AddressesOnSubnet | Disco/IPv4Interface.swift:27-44 | the result has at most `~mask` entries, and it is empty for the mask 255.255.255.255 |
| Interface.GeneratedDecimals | Disco/IPv4Interface.swift:32-36 | `first + count` fits in a `UInt32`, so `$0 + firstIP` never overflows, and offset k yields the address with decimal `first + k` |
| Interface.InGenerated | Disco/IPv4Interface.swift:32-36 | the range yields an address exactly when its decimal lies in `[first, first + count)` |
| Interface.SubnetMembers | Disco/IPv4Interface.swift:27-44 | an address is listed exactly when it is valid, its decimal lies in `[first, first + count)`, and, with ignoringMine, it is not the interface's address |
| Interface.SubnetLowOctets | Disco/IPv4Interface.swift:33-37 | every listed address has a last octet in 1..254 and is never the value `first + ~mask` |
| Interface.SubnetAscending | Disco/IPv4Interface.swift:35-41 | the result is strictly ascending by decimal, so it has no duplicates |
| Interface.SubnetIgnoringMine | Disco/IPv4Interface.swift:39-41 | `ignoringMine: true` gives the `ignoringMine: false` result with only the interface's own address removed, all else kept in order |
| Interface.SubnetOfPrefix | Disco/IPv4Interface.swift:29-37 | for a prefix mask, X is listed exactly when it is valid, `X & mask == address & mask`, X is not the broadcast address, and, with ignoringMine, X is not the own address |
| Interface.HomeRange | Disco/IPv4Interface.swift:29-33 | for 192.168.1.10/255.255.255.0, `first` is 192.168.1.0 and `count` is 255 |
| Interface.HomeSubnet | Disco/IPv4Interface.swift:27-44 | 192.168.1.10/255.255.255.0 with ignoringMine lists 192.168.1.1 through 192.168.1.254 except .10, in order |
| HostFinding.QueuedIPs | Disco/HostFinder.swift:51-53 | no contract; specified by `StartSizesScan` |
| HostFinding.Subnets | Disco/HostFinder.swift:51-52 | no contract; specified by `StartSizesScan` |
| HostFinding.AfterStart | Disco/HostFinder.swift:48-65 | no contract; specifies `HostFinder.Start`, and is specified by `StartSizesScan` |
| HostFinding.AfterStop | Disco/HostFinder.swift:68-71 | no contract; specifies `HostFinder.Stop`, and is specified by `StopReports` |
| HostFinding.AfterPingFinished | Disco/HostFinder.swift:73-87 | no contract; specifies `HostFinder.PingFinished`, and is specified by `PingFinishedReports` |
| HostFinding.Reported | Disco/HostFinder.swift:76-86 | no contract; specified by `ReportedProjections` |
| HostFinding.HostFinder.constructor | Disco/HostFinder.swift:21-37 | a new finder is not running, with both counts zero, nothing queued and no events |
| HostFinding.HostFinder.Start | Disco/HostFinder.swift:40-66 | the new state is `AfterStart` of the old one: nothing changes while running; otherwise the scan is sized and queued, and `finishedCount` is kept |
| HostFinding.HostFinder.AddOperations | Disco/HostFinder.swift:58-65 | one ping is queued per host, in order, and nothing else changes |
| HostFinding.HostFinder.Stop | Disco/HostFinder.swift:68-71 | the new state is `AfterStop` of the old one: the queue is cancelled, `stopped(false)` is appended, and `isRunning` and the counts are unchanged |
| HostFinding.HostFinder.PingFinished | Disco/HostFinder.swift:73-87 | the new state is `AfterPingFinished` of the old one, with `finishedCount` one higher |
| HostFinding.StartSizesScan | Disco/HostFinder.swift:48-65 | start does nothing while running; otherwise it sets the total to the summed subnet sizes, queues exactly the hosts of the interfaces' subnets, and keeps `finishedCount` and the events |
| HostFinding.PingFinishedReports | Disco/HostFinder.swift:73-87 | one result adds one to the count and reports found exactly when available; its last event is either one progress pair while results are missing, or one completed stop that clears `isRunning` |
| HostFinding.ReportedProjections | Disco/HostFinder.swift:76-86 | one result reports one found report exactly when available, and one progress report while results are missing or one completed stop otherwise, never both |
| HostFinding.ReportedOrder | Disco/HostFinder.swift:76-86 | one result reports two events when available and one otherwise: the found report first, and as the last event the progress report `(finished, total)` while results are missing or the completed stop |
| HostFinding.StopReports | Disco/HostFinder.swift:68-71 | stop adds exactly one `stopped(false)` and no progress or found report, and it keeps `isRunning` and the counts |
| HostFinding.Replay | Disco/HostFinder.swift:73-87 | results only append events, and they add their number to `finishedCount` |
| HostFinding.ScanProgress | Disco/HostFinder.swift:74-82 | in a scan of n counted from zero, the progress reports are (1, n), (2, n), … in order, and (n, n) is never reported |
| HostFinding.ScanFound | Disco/HostFinder.swift:76-78 | the found reports are exactly the hosts that answered, in the order of their results |
| HostFinding.ScanStops | Disco/HostFinder.swift:80-86 | a completed stop comes only with the n-th result, exactly once and as the last event, and only then is `isRunning` cleared |
| HostFinding.FractionsBelowOne | Disco/HostFinder.swift:80-82 | the progress pairs reported while results are missing are fractions strictly between 0 and 1 with the scan size as denominator, strictly increasing |
| HostFinding.ScanCompletes | Disco/HostFinder.swift:73-87 | n results complete a scan of n: the progress values strictly increase and stay below one, and one completed stop ends the events |
| HostFinding.FreshScanCompletes | Disco/HostFinder.swift:40-87 | on a new finder, start followed by one result per queued host completes the scan |
| HostFinding.StopDoesNotEndScan | Disco/HostFinder.swift:48-87 | after a stop during a scan, start does nothing, and later results are still reported as found and progress |
| HostFinding.SecondScanStopsEarly | Disco/HostFinder.swift:48-86 | because `finishedCount` is not reset, a second scan no larger than the results already counted stops on its first result |
| HostFinding.Record | Disco/HostFinder.swift:142-159 | no contract; specifies `PingOperation.UpdateStats`, and is specified by `RecordCountsOne` and `VerdictOnce` |
| HostFinding.PingOperation.constructor | Disco/HostFinder.swift:92-103 | a new operation starts with the counters at `(0, 0)` and no completion call |
| HostFinding.PingOperation.UpdateStats | Disco/HostFinder.swift:134-161 | the new tally is `Record` of the old one: one counter goes up, and on the third sample the completion gets `successes >= failures` |
| HostFinding.PingOperation.DidReceiveReply | Disco/HostFinder.swift:163-165 | a reply counts as a success |
| HostFinding.PingOperation.DidReceiveUnexpectedReply | Disco/HostFinder.swift:167-169 | an unexpected reply counts as a success |
| HostFinding.PingOperation.DidTimeout | Disco/HostFinder.swift:171-173 | a timeout counts as a failure |
| HostFinding.PingOperation.DidFail | Disco/HostFinder.swift:175-177 | a ping error counts as a failure |
| HostFinding.PingOperation.DidFailToSend | Disco/HostFinder.swift:179-181 | a send error counts as a failure |
| HostFinding.RecordCountsOne | Disco/HostFinder.swift:142-147 | each sample raises exactly one counter by one and never removes a completion call |
| HostFinding.VerdictOnce | Disco/HostFinder.swift:142-159 | the counters are the numbers of successes and failures; the completion fires once exactly when there are at least three samples, and its verdict is the majority of the first three (3-0 and 2-1 give true, 1-2 and 0-3 give false) |

## Left out

- Concurrency and timing are not modelled: the `OperationQueue` with at most 20 operations at a time, the `DispatchQueue.main.async` hops, the `DispatchGroup` waits, the `Thread.isMainThread` redispatch in `start` and `updateStats`, and `usleep`. Results and samples arrive one at a time, in any order the caller chooses.
- Which queued operation is running when `stop` cancels the queue is not modelled. The model empties the queue and lets `pingFinished` be called at any time, so results from pings already under way are covered.
- The GBPing calls are foreign library calls and network I/O, so they are not modelled: `setup`, `startPinging`, `stop`, and the `setValue(false, forKey: "isPinging")` workaround. The `guard ping.isReady` early return at `Disco/HostFinder.swift:127` is left out for the same reason. The model covers the completion that `updateStats` calls, not the thread it runs on.
- The delegate is a weak optional in the source. The model records every delegate call as an event, as if a delegate were always set.
- Progress is the pair (finished, total), not the `Float` quotient. Floating-point rounding is not modelled.
- `Int` counters are unbounded. A 64-bit overflow of `finishedCount` or of the vote counters is not modelled.
- `stringRepresentation` and `debugDescription` are not modelled, because the Network framework does the formatting. Hosts are carried as `IPv4Address` values.
- `IPv6Address` is not part of this model.
- `IPv4Interface.deviceNetworks`, with its `getifaddrs` flags, `sockaddr` decoding and `inet_ntop`, is not modelled. These are OS calls over unsafe pointers (`Disco/IPv4Interface.swift:77-157`, `Sources/Disco/Network+Disco.swift:68-110`).
- `NWConnection.askLocalNetworkAccess` is network I/O and is not modelled.
- The `CustomStringConvertible` description is not modelled.
- The example application's UI files and `Package.swift` are not part of this model.
- `decimalRepresentation` asserts that the raw value has four bytes. The model builds this into the type: a `RawValue` always has four bytes. `IPv4Address(Data)` makes an address only from four bytes, so the assertion cannot fail.
