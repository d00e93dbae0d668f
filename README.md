# Tools.ConnectionMonitoring in Dafny

Tools.ConnectionMonitoring is a Windows service that watches the IPv4 TCP
connections of the machine. The Dafny files model its core in three parts.

- **The connection-table decoder.** `SocketConnections.GetAllTcpConnections` and
  `GetAllUdpConnections` call the IP Helper API (`GetExtendedTcpTable` /
  `GetExtendedUdpTable`). The buffer they get back holds a 4-byte entry count
  followed by fixed-size rows: 24 bytes for TCP, 12 for UDP. The decoder
  walks the rows, swaps the port bytes and builds one record per row. The
  record constructors look up the owning process's name.
- **The record types and row layouts** of `Domain.cs`: the `MibTcpState`
  values, the fields of `MIB_TCPROW_OWNER_PID` and `MIB_UDPROW_OWNER_PID`,
  and the `TcpProcessRecord` / `UdpProcessRecord` constructors.
- **The service** (`TcpConnectionMonitoringService`).
  - `OnStart` parses the two settings `MiniumConnectionCount` and
    `MonitorIntervalInSeconds`, logs them, and starts a one-shot timer.
  - Each time the timer elapses, a running service reads the TCP table and
    groups the connections by process name. It keeps the processes with at
    least `MiniumConnectionCount` connections and orders them by name.
  - It then logs one totals entry per process at Info level: the remote
    ports that the process uses more than `MiniumConnectionCount` times.
  - It logs one detail line per connection at Debug level, ordered by
    remote port.
  - It re-arms the timer only when the cycle completes. `OnStop` sets the
    stop flag.

Modules, one file each:

- `Wrappers`: Option and Result.
- `Bytes`: little-endian 32-bit fields, as `Marshal.PtrToStructure` reads
  them.
- `Text`: decimal formatting, `int.Parse`, `string.Join`, and IPv4 text.
- `Seqs`: the LINQ operators the pipeline chains: `Where` by key, `GroupBy`,
  the `Count()` filter, the stable `OrderBy`, `Select` and `SelectMany`.
- `Domain`: `Domain.cs`.
- `SocketConnections`: `SocketConnections.cs`. Its file also holds module
  `TableEncoding`, which writes well-formed tables for the round-trip
  lemmas.
- `Aggregation`: the pure pipeline of the `Elapsed` handler.
- `Service`: the settings, one cycle, and the `MonitoringService` class.

The operating system is a parameter. A `TableQuery` says whether
`Marshal.AllocHGlobal` succeeds, which status the filling call returns and
which bytes it leaves in the buffer. A `ProcessList` is what
`Process.GetProcesses()` lists. The set `exited` holds the processes that end
before `Process.GetProcessById` is called, which then raises.

The decoder methods are loops over the buffer. Each is proved equal to a
specification function (`TcpTable`, `TcpRowsFrom`), and the lemmas are about
those functions. The service is a class whose methods update `stopped`
(`_stop`), `armed` (the one-shot timer is started), `config` and `log`.

Choices where the code leaves room:

- **Distinct.** `Distinct()` at the end of both decoders compares the records
  by reference. Each record is a fresh object and the classes do not
  override equality, so Distinct removes nothing. The model returns the
  decoded records as they are.
- **Reading past the buffer.** A buffer shorter than its entry count claims
  is read past its end by `Marshal.PtrToStructure`. In the code that is an
  unchecked read of unmanaged memory, which usually returns garbage, and an
  access violation it may cause is not caught by `catch (Exception)` on
  .NET Framework. The model turns this undefined behaviour into a read that
  raises: the decoder returns the records decoded so far and sets
  `faulted`. So `faulted` is the model's choice, not what the code is
  sure to do.
- **Allocation failure.** `AllocHGlobal` is called outside the `try`. Its
  `OutOfMemoryException` therefore leaves the decoder, and the `Elapsed`
  handler logs it as "Timer error".
- **Lazy totals.** The totals sequence is lazy and is only evaluated inside
  `string.Join` at line 67. A group without a process name that has a busy
  port makes `SimpleProcessName(null)` raise there. Neither the Info line
  nor the Debug line is then logged, and the timer is not re-armed.
- **Negative threshold.** The settings are parsed with `int.Parse` only.
  A zero or negative `MiniumConnectionCount` is accepted, as the code
  accepts it.
- **Line separator.** `Environment.NewLine` is `"\r\n"`, since the service
  runs on Windows.

## Model

| member | source | states |
|---|---|---|
| SocketConnections.GetAllTcpConnections | Tools.ConnectionMonitoring/SocketConnections.cs:45-113 | The result is TcpTable of the OS behaviour. The buffer is freed exactly once whenever it was allocated, on every path (the early return included), and never otherwise. |
| SocketConnections.ReadTcpRows | Tools.ConnectionMonitoring/SocketConnections.cs:77-97 | The row loop returns the longest run of rows from row 0 that decode, and faults exactly when it stops early. The pointer starts at byte 4 and advances 24 bytes per row. |
| SocketConnections.ReadTcpRow | Tools.ConnectionMonitoring/SocketConnections.cs:84-95 | One loop pass gives the record of the row at offset 4 + 24·row, or None where the read or the constructor raises. |
| SocketConnections.TcpTable | Tools.ConnectionMonitoring/SocketConnections.cs:56-69 | Allocation failure escapes. A non-zero status gives the empty list without a fault. Otherwise the records are those of rows 0, 1, … of the entry count read from the first 4 bytes, each the record of its row, stopping only at a row that raises. |
| SocketConnections.TcpRowsFromSpec | Tools.ConnectionMonitoring/SocketConnections.cs:82-106 | Decoding from a row yields records in row order, each that of its row. It reports a fault exactly when it stops before the entry count, and that row raises. |
| SocketConnections.RunFromSpec | Tools.ConnectionMonitoring/SocketConnections.cs:82-106 | The generic "decode until one raises" loop yields each value of its position, and stops early exactly at the first None. |
| SocketConnections.GetAllUdpConnections | Tools.ConnectionMonitoring/SocketConnections.cs:126-186 | As for TCP: the result is UdpTable of the OS behaviour, and the buffer is freed exactly once whenever it was allocated. |
| SocketConnections.ReadUdpRows | Tools.ConnectionMonitoring/SocketConnections.cs:157-170 | The UDP row loop at stride 12 from byte 4 returns the longest run of rows that decode, and faults exactly when it stops early. |
| SocketConnections.ReadUdpRow | Tools.ConnectionMonitoring/SocketConnections.cs:164-168 | One UDP loop pass gives the record of the row at offset 4 + 12·row, or None. |
| SocketConnections.UdpTable | Tools.ConnectionMonitoring/SocketConnections.cs:137-150 | The same outcomes as TcpTable, for UDP rows. |
| SocketConnections.UdpRowsFromSpec | Tools.ConnectionMonitoring/SocketConnections.cs:162-179 | UDP decoding yields records in row order and faults exactly at a row that raises. |
| TableEncoding.TcpTableRoundTrip | Tools.ConnectionMonitoring/SocketConnections.cs:74-97 | A well-formed table of N rows, with every owning process alive, decodes to exactly N records without a fault, in row order, each built from its row's fields. |
| TableEncoding.TcpTableRowAt | Tools.ConnectionMonitoring/SocketConnections.cs:77-96 | Row i of an encoded table sits at byte 4 + 24·i and decodes to the record of the i-th row. |
| TableEncoding.EncodeTcpRowsAt | Tools.ConnectionMonitoring/Domain.cs:63-74 | Rows follow one another at a 24-byte stride. |
| TableEncoding.UdpTableRoundTrip | Tools.ConnectionMonitoring/SocketConnections.cs:155-170 | A well-formed UDP table of N rows decodes to exactly N records in row order, each built from its row. |
| TableEncoding.UdpTableRowAt | Tools.ConnectionMonitoring/SocketConnections.cs:157-169 | UDP row i sits at byte 4 + 12·i and decodes to the record of the i-th row. |
| TableEncoding.EncodeUdpRowsAt | Tools.ConnectionMonitoring/Domain.cs:133-140 | UDP rows follow one another at a 12-byte stride. |
| Bytes.UInt32RoundTrip | Tools.ConnectionMonitoring/Domain.cs:83 | A little-endian `uint` field (such as `dwNumEntries`) reads back the value written. |
| Bytes.UInt32BytesOfRead | Tools.ConnectionMonitoring/Domain.cs:83 | Reading four bytes as a `uint` and writing the value out gives those bytes back. |
| Bytes.Int32RoundTrip | Tools.ConnectionMonitoring/Domain.cs:73 | A little-endian two's-complement `int` field reads back the value written. |
| Bytes.Int32BytesOfRead | Tools.ConnectionMonitoring/Domain.cs:73 | Reading four bytes as an `int` and writing it out gives those bytes back. |
| Bytes.UInt32AtBytes | Tools.ConnectionMonitoring/Domain.cs:67 | The first byte of a field is the least significant and the last the most significant. |
| Bytes.Int32AtSign | Tools.ConnectionMonitoring/Domain.cs:73 | A signed field is negative exactly when the top bit of its last byte is set, and agrees with the unsigned reading modulo 2^32. |
| Domain.MibTcpState.Value | Tools.ConnectionMonitoring/Domain.cs:41-56 | Every state's value lies from 0 to 12. |
| Domain.StateOfValue | Tools.ConnectionMonitoring/Domain.cs:41-56 | A raw value names a member exactly when it is from 0 to 12. |
| Domain.StateValueRoundTrip | Tools.ConnectionMonitoring/Domain.cs:41-56 | NONE=0, CLOSED=1, … DELETE_TCB=12: value and member convert into each other, one member per value. |
| Domain.StateText | Tools.ConnectionMonitoring/TcpConnectionMonitoringService.cs:52 | `{c.State}` in a detail line. Stated by StateTextSpec. |
| Domain.StateTextSpec | Tools.ConnectionMonitoring/Domain.cs:41-56 | `State.ToString()` is the name of the member whose value it holds. The text starts with a capital letter exactly for the values 0 to 12. Any other value prints as a number that parses back to it. |
| Domain.TcpRowRoundTrip | Tools.ConnectionMonitoring/Domain.cs:63-74 | A TCP row is six 4-byte fields in the order state, localAddr, localPort, remoteAddr, remotePort, owningPid: decoding what was encoded gives the row back. |
| Domain.TcpRowBytesRoundTrip | Tools.ConnectionMonitoring/Domain.cs:63-74 | Every one of the 24 bytes of a TCP row lands in some field. |
| Domain.ParseUdpRow | Tools.ConnectionMonitoring/Domain.cs:133-140 | Decoding 12 bytes gives a row with a 4-byte port field. Its field offsets are pinned by UdpRowRoundTrip and UdpRowBytesRoundTrip. |
| Domain.UdpRowRoundTrip | Tools.ConnectionMonitoring/Domain.cs:133-140 | A UDP row is localAddr, localPort, owningPid, 4 bytes each: decoding what was encoded gives the row back. |
| Domain.UdpRowBytesRoundTrip | Tools.ConnectionMonitoring/Domain.cs:133-140 | Every one of the 12 bytes of a UDP row lands in some field. |
| Domain.ParseTcpRow | Tools.ConnectionMonitoring/Domain.cs:63-74 | Decoding 24 bytes gives a row with 4-byte port fields. |
| Domain.AddressTextInMemoryOrder | Tools.ConnectionMonitoring/SocketConnections.cs:87-88 | An address built from a table field prints its four bytes in memory order, dot-separated. |
| Domain.PortOf | Tools.ConnectionMonitoring/SocketConnections.cs:89-94 | The port byte swap. Stated by PortOfNetworkOrder, PortIgnoresUpperBytes and PortRoundTrip. |
| Domain.PortOfNetworkOrder | Tools.ConnectionMonitoring/SocketConnections.cs:89-94 | The decoded port is field[0]·256 + field[1], so it lies from 0 to 65535. |
| Domain.PortIgnoresUpperBytes | Tools.ConnectionMonitoring/SocketConnections.cs:89-94 | Bytes 2 and 3 of a port field play no part in the port. |
| Domain.PortRoundTrip | Tools.ConnectionMonitoring/SocketConnections.cs:89-94 | A port written in network order decodes to itself. |
| Domain.Listed | Tools.ConnectionMonitoring/Domain.cs:121 | `GetProcesses().Any(process => process.Id == pId)` over the listing. ListedIff states it as "some listed process has the id". |
| Domain.ListedIff | Tools.ConnectionMonitoring/Domain.cs:121 | `Process.GetProcesses().Any(p => p.Id == pId)` holds exactly when some listed process has the id. |
| Domain.ProcessNameOf | Tools.ConnectionMonitoring/Domain.cs:123 | A name is found exactly when the id is listed. |
| Domain.ProcessNameOfListed | Tools.ConnectionMonitoring/Domain.cs:123 | The name found is that of a listed process with the id, and no earlier entry has the id. |
| Domain.NewTcpProcessRecord | Tools.ConnectionMonitoring/Domain.cs:111-125 | The constructor stores each argument unchanged in its property. ProcessName is the listed name exactly when the id is listed, and null otherwise. It raises exactly when the listed process exits before GetProcessById. |
| Domain.NewUdpProcessRecord | Tools.ConnectionMonitoring/Domain.cs:172-179 | The constructor stores address, port (widened to uint) and pid unchanged. ProcessName is set exactly when the id is listed. It raises exactly when that process exits first. |
| Text.NatToStringRoundTrip | Tools.ConnectionMonitoring/TcpConnectionMonitoringService.cs:52 | Decimal text of a number reads back as that number. |
| Text.NatToString | Tools.ConnectionMonitoring/TcpConnectionMonitoringService.cs:52 | Decimal text is non-empty, all digits, and has no leading zero. |
| Text.IntToString | Tools.ConnectionMonitoring/TcpConnectionMonitoringService.cs:29 | An interpolated int starts with '-' exactly when it is negative, and is otherwise its decimal text. |
| Text.IntToStringRoundTrip | Tools.ConnectionMonitoring/TcpConnectionMonitoringService.cs:26-29 | `int.Parse` of the text of any 32-bit integer gives that integer back. |
| Text.ParseInt | Tools.ConnectionMonitoring/TcpConnectionMonitoringService.cs:26-27 | `int.Parse` accepts only text with a digit in it. |
| Text.TrimStart | Tools.ConnectionMonitoring/TcpConnectionMonitoringService.cs:26-27 | Exactly the leading white space is dropped. |
| Text.TrimEnd | Tools.ConnectionMonitoring/TcpConnectionMonitoringService.cs:26-27 | Exactly the trailing white space is dropped. |
| Text.IPv4Text | Tools.ConnectionMonitoring/TcpConnectionMonitoringService.cs:52 | `{c.RemoteAddress}` is at least seven characters. AddressTextInMemoryOrder states that it is the four bytes in memory order. |
| Text.Join | Tools.ConnectionMonitoring/TcpConnectionMonitoringService.cs:63-68 | `string.Join` of no parts is "". Of one part it is that part. Otherwise its length is the parts' lengths plus one separator between each two parts. |
| Seqs.SelectMembers | Tools.ConnectionMonitoring/TcpConnectionMonitoringService.cs:44 | The elements chosen for a key have that key and come from the input. |
| Seqs.SelectConcat | Tools.ConnectionMonitoring/TcpConnectionMonitoringService.cs:44 | Choosing by key distributes over concatenation. |
| Seqs.Keys | Tools.ConnectionMonitoring/TcpConnectionMonitoringService.cs:44 | The keys are distinct, include every element's key, and number no more than the elements. |
| Seqs.KeysOccur | Tools.ConnectionMonitoring/TcpConnectionMonitoringService.cs:44 | Every key belongs to some element. |
| Seqs.KeysInFirstAppearanceOrder | Tools.ConnectionMonitoring/TcpConnectionMonitoringService.cs:44 | Keys come in order of first appearance: an earlier key occurs before every element of a later key. |
| Seqs.SelectNonEmptyIffKey | Tools.ConnectionMonitoring/TcpConnectionMonitoringService.cs:44 | A key selects some element exactly when it is one of the keys. |
| Seqs.GroupByIsSelectByKeys | Tools.ConnectionMonitoring/TcpConnectionMonitoringService.cs:44 | `GroupBy` gives the i-th distinct key with exactly its elements, in their order. |
| Seqs.GroupBy | Tools.ConnectionMonitoring/TcpConnectionMonitoringService.cs:44 | The groups together hold as many elements as the input. |
| Seqs.GroupsNonEmpty | Tools.ConnectionMonitoring/TcpConnectionMonitoringService.cs:44 | No group is empty. |
| Seqs.GroupingDistinct | Tools.ConnectionMonitoring/TcpConnectionMonitoringService.cs:44 | A grouping has one group per key. |
| Seqs.KeepGroups | Tools.ConnectionMonitoring/TcpConnectionMonitoringService.cs:45 | `Where(g => g.Count() >= least)` keeps no more groups than it gets. KeepGroupsMembers, KeepGroupsInOrder and KeepGroupsDistinct state which groups are kept, in what order. |
| Seqs.KeepGroupsMembers | Tools.ConnectionMonitoring/TcpConnectionMonitoringService.cs:45 | `Where(g => g.Count() >= least)` keeps exactly the groups with at least `least` elements. |
| Seqs.KeepGroupsInOrder | Tools.ConnectionMonitoring/TcpConnectionMonitoringService.cs:45 | The filter keeps the groups it keeps in their order. |
| Seqs.KeepGroupsDistinct | Tools.ConnectionMonitoring/TcpConnectionMonitoringService.cs:45 | Filtering groups keeps their keys distinct. |
| Seqs.KeptGrouping | Tools.ConnectionMonitoring/TcpConnectionMonitoringService.cs:44-45 | After grouping and filtering, each group is a key with exactly its elements, non-empty and of at least `least` elements. Every key with that many elements is kept, and keys are distinct. |
| Seqs.KeepAll | Tools.ConnectionMonitoring/TcpConnectionMonitoringService.cs:45 | When every group is large enough, the filter keeps them all. |
| Seqs.KeepNone | Tools.ConnectionMonitoring/TcpConnectionMonitoringService.cs:45 | When every group is too small, the filter keeps none. |
| Seqs.SortBy | Tools.ConnectionMonitoring/TcpConnectionMonitoringService.cs:46 | `OrderBy` reorders its input: same elements, same multiplicities. |
| Seqs.SortBySorted | Tools.ConnectionMonitoring/TcpConnectionMonitoringService.cs:46 | `OrderBy` under a total order yields a sequence sorted by key. |
| Seqs.SortByStable | Tools.ConnectionMonitoring/TcpConnectionMonitoringService.cs:51 | `OrderBy` is stable: the elements of each key keep their relative order. |
| Seqs.PermutationDistinct | Tools.ConnectionMonitoring/TcpConnectionMonitoringService.cs:46 | Reordering groups keeps their keys distinct. |
| Seqs.FlatMapLength | Tools.ConnectionMonitoring/TcpConnectionMonitoringService.cs:53 | `SelectMany` over one item per element yields as many items as the groups hold. |
| Seqs.FlatMapAt | Tools.ConnectionMonitoring/TcpConnectionMonitoringService.cs:53 | The items of group i follow those of the groups before it, in order. |
| Seqs.FlatMapOrderedAt | Tools.ConnectionMonitoring/TcpConnectionMonitoringService.cs:48-53 | After ordering each group and mapping every element to one line, line j of group i is the line of that group's j-th element in the new order, placed after the lines of the groups before it. |
| Seqs.MapSeqAt | Tools.ConnectionMonitoring/TcpConnectionMonitoringService.cs:52 | `Select(f)` puts f of the j-th element at position j. |
| Aggregation.SimpleProcessName | Tools.ConnectionMonitoring/TcpConnectionMonitoringService.cs:31-32 | The result has no '.', is no longer than the name, and keeps every other character with its count. |
| Aggregation.SimpleProcessNameConcat | Tools.ConnectionMonitoring/TcpConnectionMonitoringService.cs:31-32 | Removing dots distributes over concatenation, so the other characters stay in order. |
| Aggregation.SimpleProcessNameKeepsDotless | Tools.ConnectionMonitoring/TcpConnectionMonitoringService.cs:31-32 | A name without dots is unchanged. |
| Aggregation.SimpleProcessNameIdempotent | Tools.ConnectionMonitoring/TcpConnectionMonitoringService.cs:31-32 | SimpleProcessName is idempotent. |
| Aggregation.NameLeTotalOrder | Tools.ConnectionMonitoring/TcpConnectionMonitoringService.cs:46 | The name order, with the null name first, is a total order. |
| Aggregation.ProcessGroups | Tools.ConnectionMonitoring/TcpConnectionMonitoringService.cs:44-46 | Group by name, keep, and order. Stated by ProcessGroupsSpec. |
| Aggregation.ProcessGroupsSpec | Tools.ConnectionMonitoring/TcpConnectionMonitoringService.cs:44-46 | Each process group holds exactly the records of its name, at least `min` of them. Every name with at least `min` records has a group. Groups come in strictly increasing name order, the null name first. |
| Aggregation.ProcessGroupsContents | Tools.ConnectionMonitoring/TcpConnectionMonitoringService.cs:44-45 | Each kept group is a name with exactly its records, non-empty and at least `min` of them. |
| Aggregation.ProcessGroupsComplete | Tools.ConnectionMonitoring/TcpConnectionMonitoringService.cs:44-45 | Every name with at least `min` records has a group. |
| Aggregation.ProcessGroupsOrdered | Tools.ConnectionMonitoring/TcpConnectionMonitoringService.cs:46 | The groups are in strictly increasing name order. |
| Aggregation.ZeroThresholdKeepsAllProcesses | Tools.ConnectionMonitoring/TcpConnectionMonitoringService.cs:45 | With a threshold of 0 or less every process keeps its group. |
| Aggregation.ByPort | Tools.ConnectionMonitoring/TcpConnectionMonitoringService.cs:51 | `g.OrderBy(c => c.RemotePort)`. ByPortSpec states that it keeps the records, sorts them by remote port and is stable within a port. |
| Aggregation.ByPortSpec | Tools.ConnectionMonitoring/TcpConnectionMonitoringService.cs:51 | Ordering a group by remote port keeps its records, sorts them by port, and keeps the records of each port in decode order. |
| Aggregation.GroupDetail | Tools.ConnectionMonitoring/TcpConnectionMonitoringService.cs:50-52 | A group has one detail line per record. |
| Aggregation.NameText | Tools.ConnectionMonitoring/TcpConnectionMonitoringService.cs:52 | A null process name interpolates as the empty string. DetailLineAt places the resulting detail lines. |
| Aggregation.DetailLine | Tools.ConnectionMonitoring/TcpConnectionMonitoringService.cs:52 | `{name}={address}:{port} {state}`. DetailLineAt places it. StateTextSpec and AddressTextInMemoryOrder state how the state and the address print. |
| Aggregation.DetailLines | Tools.ConnectionMonitoring/TcpConnectionMonitoringService.cs:48-53 | The `SelectMany` of the per-group detail lists. DetailLineAt states its length and the text at each position. |
| Aggregation.DetailLineAt | Tools.ConnectionMonitoring/TcpConnectionMonitoringService.cs:48-53 | The detail view has as many lines as the kept groups have records. The j-th line of group i comes after the lines of the groups before it and is `{name}={address}:{port} {state}` of the group's j-th record in port order. |
| Aggregation.BusyPortsSpec | Tools.ConnectionMonitoring/TcpConnectionMonitoringService.cs:60-64 | A remote port of a group appears in its totals exactly when more than `min` records use it (strict), with exactly those records, once. |
| Aggregation.BusyPortsInFirstAppearanceOrder | Tools.ConnectionMonitoring/TcpConnectionMonitoringService.cs:60-65 | The ports of a totals entry come in the order in which they first appear in the group. |
| Aggregation.ZeroThresholdKeepsAllPorts | Tools.ConnectionMonitoring/TcpConnectionMonitoringService.cs:60-64 | With a threshold of zero or less, every remote port of a group is listed in its totals, as the grouping makes it. |
| Aggregation.SmallGroupHasEmptyTotals | Tools.ConnectionMonitoring/TcpConnectionMonitoringService.cs:60-65 | A process with at most `min` connections has the empty totals entry. |
| Aggregation.StrictTotalsThreshold | Tools.ConnectionMonitoring/TcpConnectionMonitoringService.cs:64-65 | Five connections of process A to port 80 give the entry "A80=5" at threshold 4 and the empty entry at threshold 5. |
| Aggregation.PortTotal | Tools.ConnectionMonitoring/TcpConnectionMonitoringService.cs:65 | One `{SimpleProcessName(name)}{port}={count}` part. TotalsEntryText ties the count to the records on that port. |
| Aggregation.PortTotals | Tools.ConnectionMonitoring/TcpConnectionMonitoringService.cs:64-65 | The parts of one entry, one per busy port in order. TotalsEntryText states their number and text. |
| Aggregation.TotalsEntryText | Tools.ConnectionMonitoring/TcpConnectionMonitoringService.cs:55-65 | The entry of a named process is its busy-port parts joined by ", ", one per busy port in port-group order. Each part is the name without dots, the port, "=" and the number of that process's records on that port. |
| Aggregation.TotalsEntry | Tools.ConnectionMonitoring/TcpConnectionMonitoringService.cs:62-65 | One process's totals entry. Its text is stated by TotalsEntryText. SmallGroupHasEmptyTotals and StrictTotalsThreshold give the threshold, and AggregateFailsIff says when the null name makes it raise. |
| Aggregation.BusyPorts | Tools.ConnectionMonitoring/TcpConnectionMonitoringService.cs:60-64 | The ports used more than `min` times. Stated by BusyPortsSpec (contents, strictness, completeness) and BusyPortsInFirstAppearanceOrder (order). |
| Aggregation.Totals | Tools.ConnectionMonitoring/TcpConnectionMonitoringService.cs:55-65 | The totals exist exactly when no group's entry raises; there is then one entry per kept group, in group order. |
| Aggregation.Aggregate | Tools.ConnectionMonitoring/TcpConnectionMonitoringService.cs:44-68 | One cycle's report. AggregateReport states its text when it succeeds, and AggregateFailsIff states exactly when it raises. |
| Aggregation.AggregateFailsIff | Tools.ConnectionMonitoring/TcpConnectionMonitoringService.cs:44-67 | The cycle raises before logging exactly when the records without a process name form a kept group with a remote port used more than `min` times. |
| Aggregation.AggregateFailsOnlyUnnamed | Tools.ConnectionMonitoring/TcpConnectionMonitoringService.cs:55-67 | A cycle that raises has a kept unnamed group with a busy port. |
| Aggregation.AggregateFailsOnUnnamed | Tools.ConnectionMonitoring/TcpConnectionMonitoringService.cs:55-67 | A kept unnamed group with a busy port makes the cycle raise. |
| Aggregation.AggregateReport | Tools.ConnectionMonitoring/TcpConnectionMonitoringService.cs:55-68 | A successful cycle logs one totals entry per kept process, newline-joined and in name order, and the newline-joined detail lines, one per connection of a kept process. |
| Service.ParseSetting | Tools.ConnectionMonitoring/TcpConnectionMonitoringService.cs:26-27 | `int.Parse` of an app setting, where a missing key fails. SettingRoundTrip states that any integer setting parses back. |
| Service.TimerAccepts | Tools.ConnectionMonitoring/TcpConnectionMonitoringService.cs:34 | `new Timer(interval)` accepts only a positive interval. IntervalWrapFinding and IntervalMsSpec use it. |
| Service.IntervalMsAsWritten | Tools.ConnectionMonitoring/TcpConnectionMonitoringService.cs:34 | The code's unchecked `monitorIntervalInSeconds * 1000`. IntervalWrapFinding shows it wrapping to a positive 704, and IntervalMsSpec shows it agreeing with IntervalMs in range. |
| Service.IntervalMs | Tools.ConnectionMonitoring/TcpConnectionMonitoringService.cs:34 | The corrected interval in milliseconds. IntervalMsSpec states that it exists exactly for 1 to 2147483 seconds and is seconds * 1000. |
| Service.Wrap32 | Tools.ConnectionMonitoring/TcpConnectionMonitoringService.cs:34 | Unchecked `int` arithmetic keeps the value modulo 2^32, and leaves values in range unchanged. |
| Service.IntervalWrapFinding | Tools.ConnectionMonitoring/TcpConnectionMonitoringService.cs:34 | As written, 4294968 seconds becomes a 704 ms interval that the timer accepts, although no valid interval exists for it. |
| Service.IntervalMsSpec | Tools.ConnectionMonitoring/TcpConnectionMonitoringService.cs:34 | The corrected interval exists exactly for 1 to 2147483 seconds, equals seconds·1000, and agrees there with the code as written. |
| Service.Start | Tools.ConnectionMonitoring/TcpConnectionMonitoringService.cs:22-85 | OnStart's outcome. StartSucceedsIff and StartLog state it, and StartAgreesUnlessWrapped says where it departs from the code as written. |
| Service.StartAgreesUnlessWrapped | Tools.ConnectionMonitoring/TcpConnectionMonitoringService.cs:26-34 | A start that succeeds uses exactly the interval the code's timer gets. A start the code accepts and the model refuses has a millisecond count that overflows an `int`. |
| Service.StartSucceedsIff | Tools.ConnectionMonitoring/TcpConnectionMonitoringService.cs:22-85 | The service starts exactly when both settings parse as integers and the interval is 1 to 2147483 seconds. It then captures both values and logs only the start message. |
| Service.StartMessage | Tools.ConnectionMonitoring/TcpConnectionMonitoringService.cs:29 | The Info text `Start MiniumConnectionCount={m} MonitorIntervalInSeconds={s}`. StartLog states that it is the first entry when both settings parse. |
| Service.StartLog | Tools.ConnectionMonitoring/TcpConnectionMonitoringService.cs:26-84 | When both settings parse, the start message is logged first. A setting that does not parse logs only "unexpected error". A failed start ends with that entry. |
| Service.SettingRoundTrip | Tools.ConnectionMonitoring/TcpConnectionMonitoringService.cs:26-27 | A setting written as an integer parses back to that integer. |
| Service.Cycle | Tools.ConnectionMonitoring/TcpConnectionMonitoringService.cs:38-76 | One running firing's log entries and re-arm decision. Stated by CycleSpec. |
| Service.CycleSpec | Tools.ConnectionMonitoring/TcpConnectionMonitoringService.cs:38-76 | A cycle re-arms the timer exactly when the table could be read and no kept unnamed group has a busy port. It then logs the totals at Info and the detail at Debug, and otherwise only "Timer error". |
| Service.MonitoringService.constructor | Tools.ConnectionMonitoring/TcpConnectionMonitoringService.cs:14-20 | A new service is not stopped, has no timer armed and has logged nothing. |
| Service.MonitoringService.OnStart | Tools.ConnectionMonitoring/TcpConnectionMonitoringService.cs:22-85 | Appends Start's log entries, captures its configuration, and arms the timer exactly when the start succeeds. |
| Service.MonitoringService.Elapsed | Tools.ConnectionMonitoring/TcpConnectionMonitoringService.cs:36-77 | A firing disarms the one-shot timer. A stopped service then logs nothing. A running one reads the TCP table, logs what its cycle logs, and is re-armed exactly when the cycle succeeds. |
| Service.MonitoringService.OnStop | Tools.ConnectionMonitoring/TcpConnectionMonitoringService.cs:87-90 | Sets the stop flag and changes nothing else. A timer already armed stays armed. |
| Service.StopThenElapse | Tools.ConnectionMonitoring/TcpConnectionMonitoringService.cs:40-90 | After OnStop, the firing of the already-armed timer logs nothing and does not re-arm, so it is the last. |

## Left out

- P/Invoke and unmanaged memory. `GetExtendedTcpTable`, `GetExtendedUdpTable`, `Marshal.AllocHGlobal`, `PtrToStructure` and `FreeHGlobal` are foreign calls. They become the `TableQuery` oracle and a count of frees.
- The size query. Its status is discarded by the code. The `bufferSize` it writes sizes the allocation and is passed to the second call. The model takes the buffer the second call leaves as the oracle's `buffer`, and does not relate its length to the size query.
- Process lookup is a parameter. `Process.GetProcesses()` is one `ProcessList` for the whole table, although the code takes a new listing for each row. A process that exits between the listing and `GetProcessById` shows up only through `exited`.
- `Distinct()` is not modelled as an operation. Reference equality on fresh records makes it the identity, and the model's records are values.
- `Console.Error.WriteLine` of the exception message is not modelled. The `faulted` flag tells where it would be written.
- Culture-sensitive string ordering for `OrderBy(g => g.Key)`. Names are ordered ordinally, with the null name first.
- `IPAddress` text beyond IPv4 dotted-quad form, and enum formatting flags. A `MibTcpState` value outside the enum prints as its number.
- Threading. `System.Timers.Timer` fires on a pool thread, and `_stop` is read there without synchronisation. Only the sequential start, fire and stop transitions are modelled. An `OnStop` that lands while a cycle runs is not modelled.
- Hosting, configuration and logging sinks: `ConfigurationManager`, log4net levels and appenders, `InitializeComponent`, and Program.cs. The log is a sequence of entries, and the settings are optional strings.
- The exception objects passed to `Log.Error`, and the rethrow in `OnStart`. The model logs the message, and `OnStart` returns `started == false`.
- Dead code: the unused static lists at SocketConnections.cs:14-16, and the `table` fields of the table structures, which are never read.
- Service.Start: it computes the corrected start. When `seconds * 1000` wraps to a positive `int` (4294968 s gives 704 ms), the code as written starts with that interval, and the model reports a failed start. StartAgreesUnlessWrapped states exactly that gap.
- Service.StartSucceedsIff: it states the corrected start condition, an interval of 1 to 2147483 seconds. The code as written also starts when `seconds * 1000` wraps to a positive `int`; StartAgreesUnlessWrapped states exactly that gap.
- SocketConnections.TcpTable: the header `PtrToStructure` is taken to read only the 4-byte entry count. The marshalled structure also holds one `table` row (24 bytes for TCP, 12 for UDP). A zero-count buffer of at least 4 bytes but shorter than count plus one row would raise in the code, and the model reads it as an empty table without a fault. The records are the same either way; only the `faulted` flag differs. UdpTable makes the same choice.
- SocketConnections.UdpTable: it assumes that `PtrToStructure(…, typeof(MIB_UDPTABLE_OWNER_PID))` succeeds. Its `table` field is declared as an array of the class `UdpProcessRecord`, and the marshalling of that field is not modelled. If it raised, every UDP read would end faulted with no records. `GetAllUdpConnections` is private and nothing in the repository calls it.
- Service.MonitoringService.OnStart: it uses the corrected interval of the Findings table. An interval that wraps to a positive value, which the code accepts, is a failed start in the model.

## Findings

| source | as written | input that shows it | evidently intended | confidence | as-written member | corrected member |
|---|---|---|---|---|---|---|
| Tools.ConnectionMonitoring/TcpConnectionMonitoringService.cs:34 | `monitorIntervalInSeconds * 1000` is unchecked 32-bit `int` arithmetic, so large settings wrap before reaching the timer | `MonitorIntervalInSeconds = 4294968` gives 704 ms, which `new Timer` accepts: the service polls every 0.7 s instead of every 50 days | the interval is the setting in milliseconds, or the start fails when it does not fit in an `int` | not executed | Service.IntervalMsAsWritten, Service.IntervalWrapFinding | Service.IntervalMs, Service.IntervalMsSpec |
