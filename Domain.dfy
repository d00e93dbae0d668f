/**
 * The record types of the connection monitor and the fixed row layouts of
 * the Windows IP Helper tables they are decoded from.
 */
module Domain {
  import opened Wrappers
  import opened Bytes
  import opened Text

  /** The TCP connection states of the IP Helper API, as the `MibTcpState` enum names them. */
  datatype MibTcpState =
    | NoState | Closed | Listening | SynSent | SynRcvd | Established | FinWait1
    | FinWait2 | CloseWait | Closing | LastAck | TimeWait | DeleteTcb
  {
    /** The enum's numeric value. */
    function Value(): (v: int)
      ensures 0 <= v <= 12
    {
      match this
      case NoState => 0
      case Closed => 1
      case Listening => 2
      case SynSent => 3
      case SynRcvd => 4
      case Established => 5
      case FinWait1 => 6
      case FinWait2 => 7
      case CloseWait => 8
      case Closing => 9
      case LastAck => 10
      case TimeWait => 11
      case DeleteTcb => 12
    }

    /** The enum member's identifier, which is what `ToString()` prints. */
    function Name(): (s: string)
      ensures |s| >= 4
    {
      match this
      case NoState => "NONE"
      case Closed => "CLOSED"
      case Listening => "LISTENING"
      case SynSent => "SYN_SENT"
      case SynRcvd => "SYN_RCVD"
      case Established => "ESTABLISHED"
      case FinWait1 => "FIN_WAIT1"
      case FinWait2 => "FIN_WAIT2"
      case CloseWait => "CLOSE_WAIT"
      case Closing => "CLOSING"
      case LastAck => "LAST_ACK"
      case TimeWait => "TIME_WAIT"
      case DeleteTcb => "DELETE_TCB"
    }
  }

  /** The named member with numeric value `v`, if any (a C# enum may hold any value of its underlying type). */
  function StateOfValue(v: int): (s: Option<MibTcpState>)
    ensures s.Some? <==> 0 <= v <= 12
  {
    match v
    case 0 => Some(NoState)
    case 1 => Some(Closed)
    case 2 => Some(Listening)
    case 3 => Some(SynSent)
    case 4 => Some(SynRcvd)
    case 5 => Some(Established)
    case 6 => Some(FinWait1)
    case 7 => Some(FinWait2)
    case 8 => Some(CloseWait)
    case 9 => Some(Closing)
    case 10 => Some(LastAck)
    case 11 => Some(TimeWait)
    case 12 => Some(DeleteTcb)
    case _ => None
  }

  /** Value and StateOfValue are inverse: the named members are exactly the values 0 to 12, one each. */
  lemma StateValueRoundTrip(s: MibTcpState, v: int)
    ensures StateOfValue(s.Value()) == Some(s)
    ensures StateOfValue(v).Some? ==> StateOfValue(v).value.Value() == v
  {
  }

  /** `state.ToString()` for an enum holding the raw value `v`: the member name, or the number if no member has it. */
  function StateText(v: int32): string
  {
    match StateOfValue(v)
    case Some(st) => st.Name()
    case None => IntToString(v)
  }

  /**
   * A state is shown by its member's name, which starts with a capital
   * letter, exactly when its value is a member of MibTcpState; any other
   * value is shown as a number that parses back to it.
   */
  lemma StateTextSpec(v: int32)
    ensures |StateText(v)| >= 1
    ensures 'A' <= StateText(v)[0] <= 'Z' <==> 0 <= v <= 12
    ensures !(0 <= v <= 12) ==> ParseInt(StateText(v)) == Some(v)
    ensures forall st: MibTcpState :: st.Value() == v ==> StateText(v) == st.Name()
  {
    if StateOfValue(v).None? {
      IntToStringRoundTrip(v);
    }
  }

  /** `System.Net.IPAddress` built from a 32-bit address value. */
  datatype IPAddress = IPAddress(address: uint32)
  {
    function ToString(): string { IPv4Text(address) }
  }

  /** An address read from four bytes of the table prints those bytes in memory order. */
  lemma AddressTextInMemoryOrder(b: seq<byte>, off: nat)
    requires off + 4 <= |b|
    ensures IPAddress(UInt32At(b, off)).ToString()
      == NatToString(b[off]) + "." + NatToString(b[off + 1]) + "."
         + NatToString(b[off + 2]) + "." + NatToString(b[off + 3])
  {
    UInt32BytesOfRead(b, off);
  }

  // Row layouts. Each field of MIB_TCPROW_OWNER_PID and MIB_UDPROW_OWNER_PID
  // is four bytes wide and they follow one another without padding.

  const TcpRowSize: nat := 24
  const UdpRowSize: nat := 12

  /** MIB_TCPROW_OWNER_PID: state, localAddr, localPort, remoteAddr, remotePort, owningPid. */
  datatype TcpRow = TcpRow(
    state: int32, localAddr: uint32, localPort: seq<byte>,
    remoteAddr: uint32, remotePort: seq<byte>, owningPid: int32)
  {
    predicate Valid() { |localPort| == 4 && |remotePort| == 4 }
  }

  /** MIB_UDPROW_OWNER_PID: localAddr, localPort, owningPid. */
  datatype UdpRow = UdpRow(localAddr: uint32, localPort: seq<byte>, owningPid: int32)
  {
    predicate Valid() { |localPort| == 4 }
  }

  /** `Marshal.PtrToStructure` of a MIB_TCPROW_OWNER_PID from its 24 bytes. */
  function ParseTcpRow(b: seq<byte>): (r: TcpRow)
    requires |b| == TcpRowSize
    ensures r.Valid()
  {
    TcpRow(Int32At(b, 0), UInt32At(b, 4), b[8..12], UInt32At(b, 12), b[16..20], Int32At(b, 20))
  }

  /** The 24 bytes the IP Helper API writes for a TCP row. */
  function EncodeTcpRow(r: TcpRow): (b: seq<byte>)
    requires r.Valid()
    ensures |b| == TcpRowSize
  {
    Int32Bytes(r.state) + UInt32Bytes(r.localAddr) + r.localPort
      + UInt32Bytes(r.remoteAddr) + r.remotePort + Int32Bytes(r.owningPid)
  }

  /** Field i of a TCP row sits at byte offset 4 * i: decoding what was encoded gives the row back. */
  lemma TcpRowRoundTrip(r: TcpRow)
    requires r.Valid()
    ensures ParseTcpRow(EncodeTcpRow(r)) == r
  {
    var b := EncodeTcpRow(r);
    Int32RoundTrip(r.state);
    UInt32RoundTrip(r.localAddr);
    UInt32RoundTrip(r.remoteAddr);
    Int32RoundTrip(r.owningPid);
    assert b[0..4] == Int32Bytes(r.state);
    assert b[4..8] == UInt32Bytes(r.localAddr);
    assert b[8..12] == r.localPort;
    assert b[12..16] == UInt32Bytes(r.remoteAddr);
    assert b[16..20] == r.remotePort;
    assert b[20..24] == Int32Bytes(r.owningPid);
    FieldAt(b, 4, UInt32Bytes(r.localAddr));
    FieldAt(b, 12, UInt32Bytes(r.remoteAddr));
    FieldAt(b, 20, Int32Bytes(r.owningPid));
    Int32FieldAt(b, 0, Int32Bytes(r.state));
    Int32FieldAt(b, 20, Int32Bytes(r.owningPid));
  }

  /** Any 24 bytes decode to a row that encodes back to the same bytes: no byte of the row is ignored. */
  lemma TcpRowBytesRoundTrip(b: seq<byte>)
    requires |b| == TcpRowSize
    ensures EncodeTcpRow(ParseTcpRow(b)) == b
  {
    Int32BytesOfRead(b, 0);
    UInt32BytesOfRead(b, 4);
    UInt32BytesOfRead(b, 12);
    Int32BytesOfRead(b, 20);
    assert b == b[0..4] + b[4..8] + b[8..12] + b[12..16] + b[16..20] + b[20..24];
  }

  /** `Marshal.PtrToStructure` of a MIB_UDPROW_OWNER_PID from its 12 bytes. */
  function ParseUdpRow(b: seq<byte>): (r: UdpRow)
    requires |b| == UdpRowSize
    ensures r.Valid()
  {
    UdpRow(UInt32At(b, 0), b[4..8], Int32At(b, 8))
  }

  /** The 12 bytes the IP Helper API writes for a UDP row. */
  function EncodeUdpRow(r: UdpRow): (b: seq<byte>)
    requires r.Valid()
    ensures |b| == UdpRowSize
  {
    UInt32Bytes(r.localAddr) + r.localPort + Int32Bytes(r.owningPid)
  }

  lemma UdpRowRoundTrip(r: UdpRow)
    requires r.Valid()
    ensures ParseUdpRow(EncodeUdpRow(r)) == r
  {
    var b := EncodeUdpRow(r);
    UInt32RoundTrip(r.localAddr);
    Int32RoundTrip(r.owningPid);
    assert b[4..8] == r.localPort;
    FieldAt(b, 0, UInt32Bytes(r.localAddr));
    Int32FieldAt(b, 8, Int32Bytes(r.owningPid));
  }

  lemma UdpRowBytesRoundTrip(b: seq<byte>)
    requires |b| == UdpRowSize
    ensures EncodeUdpRow(ParseUdpRow(b)) == b
  {
    UInt32BytesOfRead(b, 0);
    Int32BytesOfRead(b, 8);
    assert b == b[0..4] + b[4..8] + b[8..12];
  }

  lemma FieldAt(b: seq<byte>, off: nat, f: seq<byte>)
    requires off + 4 <= |b| && |f| == 4 && b[off..off + 4] == f
    ensures UInt32At(b, off) == UInt32At(f, 0)
  {
    assert b[off] == f[0] && b[off + 1] == f[1] && b[off + 2] == f[2] && b[off + 3] == f[3];
  }

  lemma Int32FieldAt(b: seq<byte>, off: nat, f: seq<byte>)
    requires off + 4 <= |b| && |f| == 4 && b[off..off + 4] == f
    ensures Int32At(b, off) == Int32At(f, 0)
  {
    FieldAt(b, off, f);
  }

  /**
   * A port as the decoder recovers it from a 4-byte port field:
   * `BitConverter.ToUInt16(new byte[2] { field[1], field[0] }, 0)` on a
   * little-endian machine.
   */
  function PortOf(field: seq<byte>): uint16
    requires |field| == 4
  {
    var swapped := [field[1], field[0]];
    swapped[0] + TwoTo8 * swapped[1]
  }

  /** The first byte of the field is the high byte of the port, the second the low byte: network order. */
  lemma PortOfNetworkOrder(field: seq<byte>)
    requires |field| == 4
    ensures PortOf(field) / TwoTo8 == field[0] && PortOf(field) % TwoTo8 == field[1]
  {
  }

  /** Bytes 2 and 3 of a port field play no part in the port. */
  lemma PortIgnoresUpperBytes(f: seq<byte>, g: seq<byte>)
    requires |f| == 4 && |g| == 4 && f[0] == g[0] && f[1] == g[1]
    ensures PortOf(f) == PortOf(g)
  {
  }

  /** The port field the IP Helper API writes: the port in network byte order, then two zero bytes. */
  function PortField(p: uint16): (f: seq<byte>)
    ensures |f| == 4
  {
    [p / TwoTo8, p % TwoTo8, 0, 0]
  }

  lemma PortRoundTrip(p: uint16)
    ensures PortOf(PortField(p)) == p
  {
  }

  /** The process list of the machine at snapshot time: (process id, process name) pairs. */
  type ProcessList = seq<(int, string)>

  /** `Process.GetProcesses().Any(process => process.Id == pid)`. */
  predicate Listed(pid: int, procs: ProcessList)
  {
    procs != [] && (procs[0].0 == pid || Listed(pid, procs[1..]))
  }

  /** A process is listed exactly when some entry of the list has its id. */
  lemma {:induction false} ListedIff(pid: int, procs: ProcessList)
    ensures Listed(pid, procs) <==> exists i :: 0 <= i < |procs| && procs[i].0 == pid
  {
    if procs != [] {
      ListedIff(pid, procs[1..]);
      if exists i :: 0 <= i < |procs| && procs[i].0 == pid {
        var i :| 0 <= i < |procs| && procs[i].0 == pid;
        if i > 0 {
          assert procs[1..][i - 1].0 == pid;
        }
      }
      if exists i :: 0 <= i < |procs[1..]| && procs[1..][i].0 == pid {
        var i :| 0 <= i < |procs[1..]| && procs[1..][i].0 == pid;
        assert procs[i + 1].0 == pid;
      }
    }
  }

  /** The name `Process.GetProcessById(pid).ProcessName` gives: that of the first listed process with the id. */
  function ProcessNameOf(pid: int, procs: ProcessList): (r: Option<string>)
    ensures r.Some? <==> Listed(pid, procs)
  {
    if procs == [] then None
    else if procs[0].0 == pid then Some(procs[0].1)
    else ProcessNameOf(pid, procs[1..])
  }

  /** The name found belongs to a listed process with that id, and no earlier entry has the id. */
  lemma {:induction false} ProcessNameOfListed(pid: int, procs: ProcessList)
    requires Listed(pid, procs)
    ensures exists i :: (0 <= i < |procs| && procs[i] == (pid, ProcessNameOf(pid, procs).value) &&
      forall j :: 0 <= j < i ==> procs[j].0 != pid)
  {
    if procs[0].0 != pid {
      ProcessNameOfListed(pid, procs[1..]);
      var i :| 0 <= i < |procs[1..]| && procs[1..][i] == (pid, ProcessNameOf(pid, procs[1..]).value)
        && forall j :: 0 <= j < i ==> procs[1..][j].0 != pid;
      assert procs[i + 1] == procs[1..][i];
      forall j | 0 <= j < i + 1 ensures procs[j].0 != pid {
        if j > 0 {
          assert procs[j] == procs[1..][j - 1];
        }
      }
    } else {
      assert procs[0] == (pid, ProcessNameOf(pid, procs).value);
    }
  }

  /** TcpProcessRecord: one TCP connection with its owning process. */
  datatype TcpProcessRecord = TcpProcessRecord(
    localAddress: IPAddress, localPort: uint16,
    remoteAddress: IPAddress, remotePort: uint16,
    state: int32, processId: int32, processName: Option<string>)

  /** UdpProcessRecord: one UDP endpoint with its owning process. */
  datatype UdpProcessRecord = UdpProcessRecord(
    localAddress: IPAddress, localPort: uint32, processId: int32, processName: Option<string>)

  /**
   * `new TcpProcessRecord(localIp, remoteIp, localPort, remotePort, pId, state)`.
   * `procs` is what `Process.GetProcesses()` lists; `exited` holds the ids of
   * processes that end between that listing and `Process.GetProcessById`,
   * which then raises: the result is `None` exactly in that case.
   */
  function NewTcpProcessRecord(
    localIp: IPAddress, remoteIp: IPAddress, localPort: uint16, remotePort: uint16,
    pId: int32, state: int32, procs: ProcessList, exited: set<int>): (r: Option<TcpProcessRecord>)
    ensures r.None? <==> Listed(pId, procs) && pId in exited
    ensures r.Some? ==>
      && r.value.localAddress == localIp && r.value.remoteAddress == remoteIp
      && r.value.localPort == localPort && r.value.remotePort == remotePort
      && r.value.state == state && r.value.processId == pId
      && (r.value.processName.Some? <==> Listed(pId, procs))
      && r.value.processName == ProcessNameOf(pId, procs)
  {
    var name := if Listed(pId, procs) then ProcessNameOf(pId, procs) else None;
    if Listed(pId, procs) && pId in exited then None
    else Some(TcpProcessRecord(localIp, localPort, remoteIp, remotePort, state, pId, name))
  }

  /** `new UdpProcessRecord(localAddress, localPort, pId)`; `procs` and `exited` as for TCP. */
  function NewUdpProcessRecord(
    localAddress: IPAddress, localPort: uint32, pId: int32,
    procs: ProcessList, exited: set<int>): (r: Option<UdpProcessRecord>)
    ensures r.None? <==> Listed(pId, procs) && pId in exited
    ensures r.Some? ==>
      && r.value.localAddress == localAddress && r.value.localPort == localPort
      && r.value.processId == pId
      && (r.value.processName.Some? <==> Listed(pId, procs))
      && r.value.processName == ProcessNameOf(pId, procs)
  {
    var name := if Listed(pId, procs) then ProcessNameOf(pId, procs) else None;
    if Listed(pId, procs) && pId in exited then None
    else Some(UdpProcessRecord(localAddress, localPort, pId, name))
  }
}
