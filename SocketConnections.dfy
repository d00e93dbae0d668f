/**
 * Reading the IPv4 TCP and UDP connection tables (GetExtendedTcpTable /
 * GetExtendedUdpTable with the OWNER_PID table classes) and decoding them
 * into records.
 *
 * The foreign calls are an oracle: a TableQuery says whether
 * `Marshal.AllocHGlobal` succeeds, which status the filling call returns,
 * and which bytes it leaves in the buffer. The buffer starts with the
 * 4-byte entry count `dwNumEntries`, followed by fixed-size rows.
 */
module SocketConnections {
  import opened Wrappers
  import opened Bytes
  import opened Domain

  /** What the operating system does for one table read. */
  datatype TableQuery = TableQuery(allocates: bool, status: int, buffer: seq<byte>)

  /**
   * The outcome of one table read: `OutOfMemory` when `AllocHGlobal`
   * raises (it is called outside the `try`, so the exception reaches the
   * caller), otherwise the records decoded and whether decoding stopped on
   * an exception (which the source reports on standard error).
   */
  datatype Snapshot<R> = OutOfMemory | Snapshot(records: seq<R>, faulted: bool)

  /** `Marshal.SizeOf(dwNumEntries)`: the first row starts right after the entry count. */
  const EntryCountSize: nat := 4

  function EntryCount(buffer: seq<byte>): uint32
    requires |buffer| >= EntryCountSize
  {
    UInt32At(buffer, 0)
  }

  // ---------------------------------------------------------------- TCP

  /**
   * `f(row)`, `f(row + 1)`, ... up to `count`, stopping at the first that is
   * `None`: the values before it, and whether the run stopped there.
   */
  function RunFrom<R>(f: nat -> Option<R>, row: nat, count: nat): (seq<R>, bool)
    requires row <= count
    decreases count - row
  {
    if row == count then ([], false)
    else match f(row)
      case None => ([], true)
      case Some(r) =>
        var rest := RunFrom(f, row + 1, count);
        ([r] + rest.0, rest.1)
  }

  /**
   * RunFrom yields the longest run of values from `row` on, each `f` of its
   * position, and reports a stop exactly when the run ends before `count`,
   * at a `None`.
   */
  lemma {:induction false} RunFromSpec<R>(f: nat -> Option<R>, row: nat, count: nat)
    requires row <= count
    ensures var d := RunFrom(f, row, count);
      && row + |d.0| <= count
      && (forall j :: 0 <= j < |d.0| ==> f(row + j) == Some(d.0[j]))
      && (d.1 <==> row + |d.0| < count)
      && (d.1 ==> f(row + |d.0|).None?)
    decreases count - row
  {
    if row < count && f(row).Some? {
      RunFromSpec(f, row + 1, count);
      var d := RunFrom(f, row, count);
      var rest := RunFrom(f, row + 1, count);
      assert d == ([f(row).value] + rest.0, rest.1);
      forall j | 0 <= j < |d.0| ensures f(row + j) == Some(d.0[j]) {
        if j > 0 {
          var k := j - 1;
          assert d.0[j] == rest.0[k];
          assert row + j == row + 1 + k;
        }
      }
    }
  }

  function TcpRowOffset(row: nat): nat { EntryCountSize + TcpRowSize * row }

  /** The record an in-range row turns into, or `None` when its constructor raises. */
  function RecordOfTcpRow(r: TcpRow, procs: ProcessList, exited: set<int>): Option<TcpProcessRecord>
    requires r.Valid()
  {
    NewTcpProcessRecord(
      IPAddress(r.localAddr), IPAddress(r.remoteAddr),
      PortOf(r.localPort), PortOf(r.remotePort), r.owningPid, r.state, procs, exited)
  }

  /**
   * The record of row `row`, or `None` where decoding raises: the row does
   * not lie inside the buffer, or its process exits during the lookup.
   */
  function TcpRowRecord(buffer: seq<byte>, row: nat, procs: ProcessList, exited: set<int>): Option<TcpProcessRecord>
  {
    var off := TcpRowOffset(row);
    if off + TcpRowSize > |buffer| then None
    else RecordOfTcpRow(ParseTcpRow(buffer[off..off + TcpRowSize]), procs, exited)
  }

  /**
   * Rows `row` to `count - 1`, decoded in order until one raises. The
   * result is the longest run of rows that decode, and the flag says
   * whether it ended on a row that raised rather than at `count`.
   */
  function TcpRowsFrom(buffer: seq<byte>, procs: ProcessList, exited: set<int>, row: nat, count: nat)
    : (seq<TcpProcessRecord>, bool)
    requires row <= count
  {
    RunFrom(TcpRowDecoder(buffer, procs, exited), row, count)
  }

  /** Row number to record, for the rows of one buffer. */
  function TcpRowDecoder(buffer: seq<byte>, procs: ProcessList, exited: set<int>): nat -> Option<TcpProcessRecord>
  {
    (j: nat) => TcpRowRecord(buffer, j, procs, exited)
  }

  /**
   * TcpRowsFrom yields the longest run of rows from `row` on that decode,
   * each the record of its row, and it reports a fault exactly when the run
   * stops before `count`, at a row that raises.
   */
  lemma TcpRowsFromSpec(buffer: seq<byte>, procs: ProcessList, exited: set<int>, row: nat, count: nat)
    requires row <= count
    ensures var d := TcpRowsFrom(buffer, procs, exited, row, count);
      && row + |d.0| <= count
      && (forall j :: 0 <= j < |d.0| ==> TcpRowRecord(buffer, row + j, procs, exited) == Some(d.0[j]))
      && (d.1 <==> row + |d.0| < count)
      && (d.1 ==> TcpRowRecord(buffer, row + |d.0|, procs, exited).None?)
  {
    RunFromSpec(TcpRowDecoder(buffer, procs, exited), row, count);
  }

  /** What `GetAllTcpConnections` returns for a given behaviour of the operating system. */
  function TcpTable(q: TableQuery, procs: ProcessList, exited: set<int>): (s: Snapshot<TcpProcessRecord>)
    ensures !q.allocates <==> s.OutOfMemory?
    ensures q.allocates && q.status != 0 ==> s == Snapshot([], false)
    ensures q.allocates && q.status == 0 && |q.buffer| < EntryCountSize ==> s == Snapshot([], true)
    ensures q.allocates && q.status == 0 && |q.buffer| >= EntryCountSize ==>
      && |s.records| <= EntryCount(q.buffer)
      && (forall i :: 0 <= i < |s.records| ==> TcpRowRecord(q.buffer, i, procs, exited) == Some(s.records[i]))
      && (s.faulted <==> |s.records| < EntryCount(q.buffer))
      && (s.faulted ==> TcpRowRecord(q.buffer, |s.records|, procs, exited).None?)
  {
    if !q.allocates then OutOfMemory
    else if q.status != 0 then Snapshot([], false)
    else if |q.buffer| < EntryCountSize then Snapshot([], true)
    else
      var d := TcpRowsFrom(q.buffer, procs, exited, 0, EntryCount(q.buffer));
      TcpRowsFromSpec(q.buffer, procs, exited, 0, EntryCount(q.buffer));
      Snapshot(d.0, d.1)
  }

  /**
   * `SocketConnections.GetAllTcpConnections`. `frees` counts the calls of
   * `Marshal.FreeHGlobal`: one for every buffer that was allocated, on
   * every path out of the `try` (the early return on a failed query
   * included).
   */
  method GetAllTcpConnections(q: TableQuery, procs: ProcessList, exited: set<int>)
    returns (s: Snapshot<TcpProcessRecord>, frees: nat)
    ensures s == TcpTable(q, procs, exited)
    ensures frees == (if q.allocates then 1 else 0)
  {
    frees := 0;
    if !q.allocates {
      return OutOfMemory, frees;
    }
    var buffer := q.buffer;
    var records: seq<TcpProcessRecord> := [];
    var faulted := false;
    if q.status != 0 {
      frees := frees + 1;
      return Snapshot([], false), frees;
    }
    if |buffer| < EntryCountSize {
      faulted := true;
    } else {
      records, faulted := ReadTcpRows(buffer, EntryCount(buffer), procs, exited);
    }
    frees := frees + 1;
    s := Snapshot(records, faulted);
  }

  /** The `for` loop of GetAllTcpConnections: reads `count` rows, stopping at the first that raises. */
  method ReadTcpRows(buffer: seq<byte>, count: nat, procs: ProcessList, exited: set<int>)
    returns (records: seq<TcpProcessRecord>, faulted: bool)
    ensures (records, faulted) == TcpRowsFrom(buffer, procs, exited, 0, count)
  {
    ghost var whole := TcpRowsFrom(buffer, procs, exited, 0, count);
    records, faulted := [], false;
    var rowPtr := EntryCountSize;
    var row := 0;
    while row < count && !faulted
      invariant 0 <= row <= count
      invariant rowPtr == TcpRowOffset(row)
      invariant !faulted ==>
        var rest := TcpRowsFrom(buffer, procs, exited, row, count);
        records + rest.0 == whole.0 && rest.1 == whole.1
      invariant faulted ==> records == whole.0 && whole.1
      decreases count - row, if faulted then 0 else 1
    {
      var record := ReadTcpRow(buffer, rowPtr, row, procs, exited);
      if record.None? {
        faulted := true;
      } else {
        ghost var rest := TcpRowsFrom(buffer, procs, exited, row + 1, count);
        assert records + [record.value] + rest.0 == records + ([record.value] + rest.0);
        records := records + [record.value];
        rowPtr := rowPtr + TcpRowSize;
        row := row + 1;
      }
    }
    if !faulted {
      assert records + [] == records;
    }
  }

  /**
   * One pass of the loop body: `Marshal.PtrToStructure` at `rowPtr` and the
   * record constructor; `None` where either raises.
   */
  method ReadTcpRow(buffer: seq<byte>, rowPtr: nat, row: nat, procs: ProcessList, exited: set<int>)
    returns (record: Option<TcpProcessRecord>)
    requires rowPtr == TcpRowOffset(row)
    ensures record == TcpRowRecord(buffer, row, procs, exited)
  {
    if rowPtr + TcpRowSize > |buffer| {
      return None;
    }
    var tcpRow := ParseTcpRow(buffer[rowPtr..rowPtr + TcpRowSize]);
    record := NewTcpProcessRecord(
          IPAddress(tcpRow.localAddr), IPAddress(tcpRow.remoteAddr),
          PortOf(tcpRow.localPort), PortOf(tcpRow.remotePort),
          tcpRow.owningPid, tcpRow.state, procs, exited);
  }

  // ---------------------------------------------------------------- UDP

  function UdpRowOffset(row: nat): nat { EntryCountSize + UdpRowSize * row }

  function RecordOfUdpRow(r: UdpRow, procs: ProcessList, exited: set<int>): Option<UdpProcessRecord>
    requires r.Valid()
  {
    NewUdpProcessRecord(IPAddress(r.localAddr), PortOf(r.localPort), r.owningPid, procs, exited)
  }

  function UdpRowRecord(buffer: seq<byte>, row: nat, procs: ProcessList, exited: set<int>): Option<UdpProcessRecord>
  {
    var off := UdpRowOffset(row);
    if off + UdpRowSize > |buffer| then None
    else RecordOfUdpRow(ParseUdpRow(buffer[off..off + UdpRowSize]), procs, exited)
  }

  function UdpRowsFrom(buffer: seq<byte>, procs: ProcessList, exited: set<int>, row: nat, count: nat)
    : (seq<UdpProcessRecord>, bool)
    requires row <= count
  {
    RunFrom(UdpRowDecoder(buffer, procs, exited), row, count)
  }

  /** Row number to record, for the rows of one buffer. */
  function UdpRowDecoder(buffer: seq<byte>, procs: ProcessList, exited: set<int>): nat -> Option<UdpProcessRecord>
  {
    (j: nat) => UdpRowRecord(buffer, j, procs, exited)
  }

  /**
   * UdpRowsFrom yields the longest run of rows from `row` on that decode,
   * each the record of its row, and it reports a fault exactly when the run
   * stops before `count`, at a row that raises.
   */
  lemma UdpRowsFromSpec(buffer: seq<byte>, procs: ProcessList, exited: set<int>, row: nat, count: nat)
    requires row <= count
    ensures var d := UdpRowsFrom(buffer, procs, exited, row, count);
      && row + |d.0| <= count
      && (forall j :: 0 <= j < |d.0| ==> UdpRowRecord(buffer, row + j, procs, exited) == Some(d.0[j]))
      && (d.1 <==> row + |d.0| < count)
      && (d.1 ==> UdpRowRecord(buffer, row + |d.0|, procs, exited).None?)
  {
    RunFromSpec(UdpRowDecoder(buffer, procs, exited), row, count);
  }

  /** What `GetAllUdpConnections` returns for a given behaviour of the operating system. */
  function UdpTable(q: TableQuery, procs: ProcessList, exited: set<int>): (s: Snapshot<UdpProcessRecord>)
    ensures !q.allocates <==> s.OutOfMemory?
    ensures q.allocates && q.status != 0 ==> s == Snapshot([], false)
    ensures q.allocates && q.status == 0 && |q.buffer| < EntryCountSize ==> s == Snapshot([], true)
    ensures q.allocates && q.status == 0 && |q.buffer| >= EntryCountSize ==>
      && |s.records| <= EntryCount(q.buffer)
      && (forall i :: 0 <= i < |s.records| ==> UdpRowRecord(q.buffer, i, procs, exited) == Some(s.records[i]))
      && (s.faulted <==> |s.records| < EntryCount(q.buffer))
      && (s.faulted ==> UdpRowRecord(q.buffer, |s.records|, procs, exited).None?)
  {
    if !q.allocates then OutOfMemory
    else if q.status != 0 then Snapshot([], false)
    else if |q.buffer| < EntryCountSize then Snapshot([], true)
    else
      var d := UdpRowsFrom(q.buffer, procs, exited, 0, EntryCount(q.buffer));
      UdpRowsFromSpec(q.buffer, procs, exited, 0, EntryCount(q.buffer));
      Snapshot(d.0, d.1)
  }

  /** `SocketConnections.GetAllUdpConnections`; `frees` as for TCP. */
  method GetAllUdpConnections(q: TableQuery, procs: ProcessList, exited: set<int>)
    returns (s: Snapshot<UdpProcessRecord>, frees: nat)
    ensures s == UdpTable(q, procs, exited)
    ensures frees == (if q.allocates then 1 else 0)
  {
    frees := 0;
    if !q.allocates {
      return OutOfMemory, frees;
    }
    var buffer := q.buffer;
    var records: seq<UdpProcessRecord> := [];
    var faulted := false;
    if q.status != 0 {
      frees := frees + 1;
      return Snapshot([], false), frees;
    }
    if |buffer| < EntryCountSize {
      faulted := true;
    } else {
      records, faulted := ReadUdpRows(buffer, EntryCount(buffer), procs, exited);
    }
    frees := frees + 1;
    s := Snapshot(records, faulted);
  }

  /** The `for` loop of GetAllUdpConnections: reads `count` rows, stopping at the first that raises. */
  method ReadUdpRows(buffer: seq<byte>, count: nat, procs: ProcessList, exited: set<int>)
    returns (records: seq<UdpProcessRecord>, faulted: bool)
    ensures (records, faulted) == UdpRowsFrom(buffer, procs, exited, 0, count)
  {
    ghost var whole := UdpRowsFrom(buffer, procs, exited, 0, count);
    records, faulted := [], false;
    var rowPtr := EntryCountSize;
    var i := 0;
    while i < count && !faulted
      invariant 0 <= i <= count
      invariant rowPtr == UdpRowOffset(i)
      invariant !faulted ==>
        var rest := UdpRowsFrom(buffer, procs, exited, i, count);
        records + rest.0 == whole.0 && rest.1 == whole.1
      invariant faulted ==> records == whole.0 && whole.1
      decreases count - i, if faulted then 0 else 1
    {
      var record := ReadUdpRow(buffer, rowPtr, i, procs, exited);
      if record.None? {
        faulted := true;
      } else {
        ghost var rest := UdpRowsFrom(buffer, procs, exited, i + 1, count);
        assert records + [record.value] + rest.0 == records + ([record.value] + rest.0);
        records := records + [record.value];
        rowPtr := rowPtr + UdpRowSize;
        i := i + 1;
      }
    }
    if !faulted {
      assert records + [] == records;
    }
  }

  /**
   * One pass of the loop body: `Marshal.PtrToStructure` at `rowPtr` and the
   * record constructor; `None` where either raises.
   */
  method ReadUdpRow(buffer: seq<byte>, rowPtr: nat, row: nat, procs: ProcessList, exited: set<int>)
    returns (record: Option<UdpProcessRecord>)
    requires rowPtr == UdpRowOffset(row)
    ensures record == UdpRowRecord(buffer, row, procs, exited)
  {
    if rowPtr + UdpRowSize > |buffer| {
      return None;
    }
    var udpRow := ParseUdpRow(buffer[rowPtr..rowPtr + UdpRowSize]);
    record := NewUdpProcessRecord(
          IPAddress(udpRow.localAddr), PortOf(udpRow.localPort), udpRow.owningPid, procs, exited);
  }
}

module TableEncoding {
  import opened Wrappers
  import opened Bytes
  import opened Domain
  import opened SocketConnections

  // A table as the IP Helper API lays it out: the entry count, then the rows.

  function EncodeTcpRows(rows: seq<TcpRow>): (b: seq<byte>)
    requires forall i :: 0 <= i < |rows| ==> rows[i].Valid()
    ensures |b| == TcpRowSize * |rows|
  {
    if rows == [] then [] else EncodeTcpRow(rows[0]) + EncodeTcpRows(rows[1..])
  }

  lemma {:induction false} EncodeTcpRowsAt(rows: seq<TcpRow>, i: nat)
    requires forall i :: 0 <= i < |rows| ==> rows[i].Valid()
    requires i < |rows|
    ensures EncodeTcpRows(rows)[TcpRowSize * i..TcpRowSize * i + TcpRowSize] == EncodeTcpRow(rows[i])
  {
    if i > 0 {
      EncodeTcpRowsAt(rows[1..], i - 1);
      var b := EncodeTcpRows(rows);
      assert b[TcpRowSize * i..TcpRowSize * i + TcpRowSize]
        == EncodeTcpRows(rows[1..])[TcpRowSize * (i - 1)..TcpRowSize * (i - 1) + TcpRowSize];
    }
  }

  function EncodeTcpTable(rows: seq<TcpRow>): (b: seq<byte>)
    requires forall i :: 0 <= i < |rows| ==> rows[i].Valid()
    requires |rows| < TwoTo32
  {
    UInt32Bytes(|rows|) + EncodeTcpRows(rows)
  }

  /**
   * Decoding a well-formed TCP table of N rows, with every owning process
   * still alive, gives exactly N records, in row order, each built from the
   * fields of its row.
   */
  lemma TcpTableRoundTrip(rows: seq<TcpRow>, procs: ProcessList)
    requires forall i :: 0 <= i < |rows| ==> rows[i].Valid()
    requires |rows| < TwoTo32
    ensures var s := TcpTable(TableQuery(true, 0, EncodeTcpTable(rows)), procs, {});
      && s.Snapshot? && !s.faulted && |s.records| == |rows|
      && forall i :: 0 <= i < |rows| ==> RecordOfTcpRow(rows[i], procs, {}) == Some(s.records[i])
  {
    var buffer := EncodeTcpTable(rows);
    UInt32RoundTrip(|rows|);
    FieldAt(buffer, 0, UInt32Bytes(|rows|));
    assert EntryCount(buffer) == |rows|;
    forall i | 0 <= i < |rows|
      ensures TcpRowRecord(buffer, i, procs, {}) == RecordOfTcpRow(rows[i], procs, {})
    {
      TcpTableRowAt(rows, procs, i);
    }
  }

  /** Row `i` of an encoded table decodes to the record of the `i`-th row. */
  lemma TcpTableRowAt(rows: seq<TcpRow>, procs: ProcessList, i: nat)
    requires forall i :: 0 <= i < |rows| ==> rows[i].Valid()
    requires |rows| < TwoTo32
    requires i < |rows|
    ensures TcpRowRecord(EncodeTcpTable(rows), i, procs, {}) == RecordOfTcpRow(rows[i], procs, {})
  {
    var buffer := EncodeTcpTable(rows);
    EncodeTcpRowsAt(rows, i);
    var off := TcpRowOffset(i);
    assert buffer[off..off + TcpRowSize] == EncodeTcpRows(rows)[TcpRowSize * i..TcpRowSize * i + TcpRowSize];
    TcpRowAtOffset(buffer, i, rows[i], procs);
  }

  /** A row whose bytes sit at its offset decodes to its record. */
  lemma TcpRowAtOffset(buffer: seq<byte>, i: nat, r: TcpRow, procs: ProcessList)
    requires r.Valid()
    requires TcpRowOffset(i) + TcpRowSize <= |buffer|
    requires buffer[TcpRowOffset(i)..TcpRowOffset(i) + TcpRowSize] == EncodeTcpRow(r)
    ensures TcpRowRecord(buffer, i, procs, {}) == RecordOfTcpRow(r, procs, {})
  {
    TcpRowRoundTrip(r);
  }

  function EncodeUdpRows(rows: seq<UdpRow>): (b: seq<byte>)
    requires forall i :: 0 <= i < |rows| ==> rows[i].Valid()
    ensures |b| == UdpRowSize * |rows|
  {
    if rows == [] then [] else EncodeUdpRow(rows[0]) + EncodeUdpRows(rows[1..])
  }

  lemma {:induction false} EncodeUdpRowsAt(rows: seq<UdpRow>, i: nat)
    requires forall i :: 0 <= i < |rows| ==> rows[i].Valid()
    requires i < |rows|
    ensures EncodeUdpRows(rows)[UdpRowSize * i..UdpRowSize * i + UdpRowSize] == EncodeUdpRow(rows[i])
  {
    if i > 0 {
      EncodeUdpRowsAt(rows[1..], i - 1);
      var b := EncodeUdpRows(rows);
      assert b[UdpRowSize * i..UdpRowSize * i + UdpRowSize]
        == EncodeUdpRows(rows[1..])[UdpRowSize * (i - 1)..UdpRowSize * (i - 1) + UdpRowSize];
    }
  }

  function EncodeUdpTable(rows: seq<UdpRow>): (b: seq<byte>)
    requires forall i :: 0 <= i < |rows| ==> rows[i].Valid()
    requires |rows| < TwoTo32
  {
    UInt32Bytes(|rows|) + EncodeUdpRows(rows)
  }

  /** The UDP counterpart of TcpTableRoundTrip. */
  lemma UdpTableRoundTrip(rows: seq<UdpRow>, procs: ProcessList)
    requires forall i :: 0 <= i < |rows| ==> rows[i].Valid()
    requires |rows| < TwoTo32
    ensures var s := UdpTable(TableQuery(true, 0, EncodeUdpTable(rows)), procs, {});
      && s.Snapshot? && !s.faulted && |s.records| == |rows|
      && forall i :: 0 <= i < |rows| ==> RecordOfUdpRow(rows[i], procs, {}) == Some(s.records[i])
  {
    var buffer := EncodeUdpTable(rows);
    UInt32RoundTrip(|rows|);
    FieldAt(buffer, 0, UInt32Bytes(|rows|));
    assert EntryCount(buffer) == |rows|;
    forall i | 0 <= i < |rows|
      ensures UdpRowRecord(buffer, i, procs, {}) == RecordOfUdpRow(rows[i], procs, {})
    {
      UdpTableRowAt(rows, procs, i);
    }
  }

  /** Row `i` of an encoded table decodes to the record of the `i`-th row. */
  lemma UdpTableRowAt(rows: seq<UdpRow>, procs: ProcessList, i: nat)
    requires forall i :: 0 <= i < |rows| ==> rows[i].Valid()
    requires |rows| < TwoTo32
    requires i < |rows|
    ensures UdpRowRecord(EncodeUdpTable(rows), i, procs, {}) == RecordOfUdpRow(rows[i], procs, {})
  {
    var buffer := EncodeUdpTable(rows);
    EncodeUdpRowsAt(rows, i);
    var off := UdpRowOffset(i);
    assert buffer[off..off + UdpRowSize] == EncodeUdpRows(rows)[UdpRowSize * i..UdpRowSize * i + UdpRowSize];
    UdpRowAtOffset(buffer, i, rows[i], procs);
  }

  /** A row whose bytes sit at its offset decodes to its record. */
  lemma UdpRowAtOffset(buffer: seq<byte>, i: nat, r: UdpRow, procs: ProcessList)
    requires r.Valid()
    requires UdpRowOffset(i) + UdpRowSize <= |buffer|
    requires buffer[UdpRowOffset(i)..UdpRowOffset(i) + UdpRowSize] == EncodeUdpRow(r)
    ensures UdpRowRecord(buffer, i, procs, {}) == RecordOfUdpRow(r, procs, {})
  {
    UdpRowRoundTrip(r);
  }
}
