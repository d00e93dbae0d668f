/**
 * The report the monitor's timer callback computes from one TCP snapshot:
 * records grouped by process name, groups with at least
 * `minimumConectionCount` records kept and ordered by name, a detail line
 * per record ordered by remote port, and per process the remote ports
 * used by more than `minimumConectionCount` records.
 */
module Aggregation {
  import opened Wrappers
  import opened Bytes
  import opened Text
  import opened Domain
  import opened Seqs

  /** `Environment.NewLine` on Windows, where the service runs. */
  const NewLine: string := "\r\n"

  // ------------------------------------------------------------ names

  /** `SimpleProcessName`: `processName.Replace(".", string.Empty)`. */
  function SimpleProcessName(name: string): (r: string)
    ensures '.' !in r
    ensures |r| <= |name|
    ensures forall c :: c != '.' ==> multiset(r)[c] == multiset(name)[c]
  {
    if name == [] then []
    else
      assert name == [name[0]] + name[1..];
      (if name[0] == '.' then [] else [name[0]]) + SimpleProcessName(name[1..])
  }

  /** Removing dots distributes over concatenation, so every other character stays, in order. */
  lemma {:induction false} SimpleProcessNameConcat(a: string, b: string)
    ensures SimpleProcessName(a + b) == SimpleProcessName(a) + SimpleProcessName(b)
  {
    if a != [] {
      assert (a + b)[1..] == a[1..] + b;
      SimpleProcessNameConcat(a[1..], b);
    } else {
      assert a + b == b;
    }
  }

  /** A name without dots is left as it is. */
  lemma {:induction false} SimpleProcessNameKeepsDotless(name: string)
    requires '.' !in name
    ensures SimpleProcessName(name) == name
  {
    if name != [] {
      SimpleProcessNameKeepsDotless(name[1..]);
    }
  }

  /** SimpleProcessName is idempotent. */
  lemma SimpleProcessNameIdempotent(name: string)
    ensures SimpleProcessName(SimpleProcessName(name)) == SimpleProcessName(name)
  {
    SimpleProcessNameKeepsDotless(SimpleProcessName(name));
  }

  /**
   * Ordinal string order: by the first differing character, a proper
   * prefix first. The source orders names with the culture-sensitive
   * default comparer, which is not modelled.
   */
  predicate OrdinalLe(a: string, b: string)
  {
    if a == [] then true
    else if b == [] then false
    else if a[0] != b[0] then a[0] < b[0]
    else OrdinalLe(a[1..], b[1..])
  }

  /** The order of `OrderBy(g => g.Key)` on process names: the null name first. */
  predicate NameLe(a: Option<string>, b: Option<string>)
  {
    match a
    case None => true
    case Some(x) => b.Some? && OrdinalLe(x, b.value)
  }

  lemma {:induction false} OrdinalLeAntisymmetric(a: string, b: string)
    requires OrdinalLe(a, b) && OrdinalLe(b, a)
    ensures a == b
  {
    if a != [] && b != [] {
      OrdinalLeAntisymmetric(a[1..], b[1..]);
      assert a == [a[0]] + a[1..] && b == [b[0]] + b[1..];
    }
  }

  lemma {:induction false} OrdinalLeTransitive(a: string, b: string, c: string)
    requires OrdinalLe(a, b) && OrdinalLe(b, c)
    ensures OrdinalLe(a, c)
  {
    if a != [] && b != [] && c != [] && a[0] == b[0] == c[0] {
      OrdinalLeTransitive(a[1..], b[1..], c[1..]);
    }
  }

  lemma {:induction false} OrdinalLeTotal(a: string, b: string)
    ensures OrdinalLe(a, b) || OrdinalLe(b, a)
  {
    if a != [] && b != [] && a[0] == b[0] {
      OrdinalLeTotal(a[1..], b[1..]);
    }
  }

  lemma {:induction false} OrdinalLeReflexive(a: string)
    ensures OrdinalLe(a, a)
  {
    if a != [] {
      OrdinalLeReflexive(a[1..]);
    }
  }

  /** The name order is a total order. */
  lemma NameLeTotalOrder()
    ensures TotalOrder(NameLe)
  {
    forall a: Option<string> ensures NameLe(a, a) {
      if a.Some? { OrdinalLeReflexive(a.value); }
    }
    forall a: Option<string>, b: Option<string> | NameLe(a, b) && NameLe(b, a) ensures a == b {
      if a.Some? { OrdinalLeAntisymmetric(a.value, b.value); }
    }
    forall a: Option<string>, b: Option<string>, c: Option<string> | NameLe(a, b) && NameLe(b, c)
      ensures NameLe(a, c)
    {
      if a.Some? { OrdinalLeTransitive(a.value, b.value, c.value); }
    }
    forall a: Option<string>, b: Option<string> ensures NameLe(a, b) || NameLe(b, a) {
      if a.Some? && b.Some? { OrdinalLeTotal(a.value, b.value); }
    }
  }


  // ------------------------------------------------------------ grouping

  type NameGroup = (Option<string>, seq<TcpProcessRecord>)
  type PortGroup = (uint16, seq<TcpProcessRecord>)

  function NameOf(c: TcpProcessRecord): Option<string> { c.processName }
  function RemotePortOf(c: TcpProcessRecord): uint16 { c.remotePort }
  function GroupName(g: NameGroup): Option<string> { g.0 }
  predicate PortLe(a: uint16, b: uint16) { a <= b }

  /**
   * `connections.GroupBy(c => c.ProcessName).Where(g => g.Count() >= min)
   * .OrderBy(g => g.Key)`.
   */
  function ProcessGroups(records: seq<TcpProcessRecord>, min: int): seq<NameGroup>
  {
    SortBy(KeepGroups(GroupBy(records, NameOf), min), GroupName, NameLe)
  }

  /**
   * The process groups: each holds exactly the records of its name, and at
   * least `min` of them; every name with at least `min` records has a
   * group; the groups come in strictly increasing name order.
   */
  lemma ProcessGroupsSpec(records: seq<TcpProcessRecord>, min: int)
    ensures var gs := ProcessGroups(records, min);
      && (forall i :: 0 <= i < |gs| ==>
            gs[i].1 == Select(records, NameOf, gs[i].0) && gs[i].1 != [] && |gs[i].1| >= min)
      && (forall k :: Select(records, NameOf, k) != [] && |Select(records, NameOf, k)| >= min ==>
            exists i :: 0 <= i < |gs| && gs[i].0 == k)
      && (forall i, j :: 0 <= i < j < |gs| ==> NameLe(gs[i].0, gs[j].0) && gs[i].0 != gs[j].0)
  {
    ProcessGroupsContents(records, min);
    ProcessGroupsComplete(records, min);
    ProcessGroupsOrdered(records, min);
  }

  lemma ProcessGroupsContents(records: seq<TcpProcessRecord>, min: int)
    ensures var gs := ProcessGroups(records, min);
      forall i :: 0 <= i < |gs| ==>
        gs[i].1 == Select(records, NameOf, gs[i].0) && gs[i].1 != [] && |gs[i].1| >= min
  {
    var kept := KeepGroups(GroupBy(records, NameOf), min);
    var gs := ProcessGroups(records, min);
    KeptGrouping(records, NameOf, min);
    forall i | 0 <= i < |gs|
      ensures gs[i].1 == Select(records, NameOf, gs[i].0) && gs[i].1 != [] && |gs[i].1| >= min
    {
      assert gs[i] in multiset(kept);
    }
  }

  lemma ProcessGroupsComplete(records: seq<TcpProcessRecord>, min: int)
    ensures var gs := ProcessGroups(records, min);
      forall k :: Select(records, NameOf, k) != [] && |Select(records, NameOf, k)| >= min ==>
        exists i :: 0 <= i < |gs| && gs[i].0 == k
  {
    var gs := ProcessGroups(records, min);
    KeptGrouping(records, NameOf, min);
    forall k | Select(records, NameOf, k) != [] && |Select(records, NameOf, k)| >= min
      ensures exists i :: 0 <= i < |gs| && gs[i].0 == k
    {
      var g := (k, Select(records, NameOf, k));
      assert g in multiset(gs);
      var i :| 0 <= i < |gs| && gs[i] == g;
      assert gs[i].0 == k;
    }
  }

  lemma ProcessGroupsOrdered(records: seq<TcpProcessRecord>, min: int)
    ensures var gs := ProcessGroups(records, min);
      forall i, j :: 0 <= i < j < |gs| ==> NameLe(gs[i].0, gs[j].0) && gs[i].0 != gs[j].0
  {
    var kept := KeepGroups(GroupBy(records, NameOf), min);
    var gs := ProcessGroups(records, min);
    KeptGrouping(records, NameOf, min);
    NameLeTotalOrder();
    SortBySorted(kept, GroupName, NameLe);
    PermutationDistinct(kept, gs);
  }

  // ------------------------------------------------------------ detail

  /** A null process name interpolates as the empty string. */
  function NameText(n: Option<string>): string
  {
    match n
    case None => ""
    case Some(s) => s
  }

  /** `$"{c.ProcessName}={c.RemoteAddress}:{c.RemotePort} {c.State}"`. */
  function DetailLine(c: TcpProcessRecord): string
  {
    NameText(c.processName) + "=" + c.remoteAddress.ToString() + ":" + NatToString(c.remotePort)
      + " " + StateText(c.state)
  }

  /** `g.OrderBy(c => c.RemotePort)`. */
  function ByPort(g: seq<TcpProcessRecord>): seq<TcpProcessRecord>
  {
    SortBy(g, RemotePortOf, PortLe)
  }

  /**
   * Ordering a group by remote port keeps its records, puts them in port
   * order, and keeps the records of one port in their original order.
   */
  lemma ByPortSpec(g: seq<TcpProcessRecord>)
    ensures multiset(ByPort(g)) == multiset(g)
    ensures SortedBy(ByPort(g), RemotePortOf, PortLe)
    ensures forall p :: Select(ByPort(g), RemotePortOf, p) == Select(g, RemotePortOf, p)
  {
    assert TotalOrder(PortLe);
    SortBySorted(g, RemotePortOf, PortLe);
    forall p ensures Select(ByPort(g), RemotePortOf, p) == Select(g, RemotePortOf, p) {
      SortByStable(g, RemotePortOf, PortLe, p);
    }
  }

  /** The detail lines of one group, in port order. */
  function GroupDetail(g: NameGroup): (ls: seq<string>)
    ensures |ls| == |g.1|
  {
    MapSeq(ByPort(g.1), DetailLine)
  }

  /** `.SelectMany(s => s)` over the groups' detail lines. */
  function DetailLines(gs: seq<NameGroup>): seq<string>
  {
    FlatMap(gs, GroupDetail)
  }

  /**
   * One detail line per record: the lines of group `i` come after those of
   * the groups before it, and its `j`-th line shows its `j`-th record in
   * port order.
   */
  lemma DetailLineAt(gs: seq<NameGroup>, i: nat, j: nat)
    requires i < |gs| && j < |gs[i].1|
    ensures |DetailLines(gs)| == SumSizes(gs)
    ensures SumSizes(gs[..i]) + j < |DetailLines(gs)|
    ensures DetailLines(gs)[SumSizes(gs[..i]) + j] == DetailLine(ByPort(gs[i].1)[j])
  {
    FlatMapOrderedAt(gs, GroupDetail, ByPort, DetailLine, i, j);
  }

  // ------------------------------------------------------------ totals

  /** `g.GroupBy(c => c.RemotePort).Where(t => t.Count() > min)`. */
  function BusyPorts(g: seq<TcpProcessRecord>, min: int): seq<PortGroup>
  {
    KeepGroups(GroupBy(g, RemotePortOf), min + 1)
  }

  /**
   * The busy ports of a group: each holds exactly the records of its port,
   * more than `min` of them; every port with more than `min` records is
   * there once.
   */
  lemma BusyPortsSpec(g: seq<TcpProcessRecord>, min: int)
    ensures var bs := BusyPorts(g, min);
      && (forall i :: 0 <= i < |bs| ==>
            bs[i].1 == Select(g, RemotePortOf, bs[i].0) && |bs[i].1| > min && bs[i].1 != [])
      && (forall p: uint16 :: Select(g, RemotePortOf, p) != [] && |Select(g, RemotePortOf, p)| > min ==>
            (p, Select(g, RemotePortOf, p)) in bs)
      && DistinctKeys(bs)
  {
    KeptGrouping(g, RemotePortOf, min + 1);
  }

  /** The busy ports come in the order in which the ports first appear in the group. */
  lemma BusyPortsInFirstAppearanceOrder(g: seq<TcpProcessRecord>, min: int)
    ensures forall i, j :: 0 <= i < j < |BusyPorts(g, min)| ==>
      OccursBefore(g, RemotePortOf, BusyPorts(g, min)[i].0, BusyPorts(g, min)[j].0)
  {
    var gs := GroupBy(g, RemotePortOf);
    var ks := Keys(g, RemotePortOf);
    var bs := BusyPorts(g, min);
    GroupByIsSelectByKeys(g, RemotePortOf);
    KeepGroupsInOrder(gs, min + 1);
    KeysInFirstAppearanceOrder(g, RemotePortOf);
    forall i, j | 0 <= i < j < |bs| ensures OccursBefore(g, RemotePortOf, bs[i].0, bs[j].0) {
      assert InOrder(gs, bs[i], bs[j]);
      var a, b :| 0 <= a < b < |gs| && gs[a] == bs[i] && gs[b] == bs[j];
      assert bs[i].0 == ks[a] && bs[j].0 == ks[b];
    }
  }

  /** `$"{SimpleProcessName(p.processName)}{c.Key}={c.Count()}"`. */
  function PortTotal(simpleName: string, pg: PortGroup): string
  {
    simpleName + NatToString(pg.0) + "=" + NatToString(|pg.1|)
  }

  /**
   * The totals entry of one process group: its busy ports joined by ", ".
   * `None` where the source dereferences a null name, which happens only
   * when there is a busy port to print.
   */
  function TotalsEntry(g: NameGroup, min: int): Option<string>
  {
    var busy := BusyPorts(g.1, min);
    if busy == [] then Some("")
    else
      match g.0
      case None => None
      case Some(name) =>
        Some(Join(", ", PortTotals(SimpleProcessName(name), busy)))
  }

  /** One `{name}{port}={count}` part per busy port, in the order of the ports. */
  function PortTotals(simpleName: string, busy: seq<PortGroup>): seq<string>
  {
    seq(|busy|, i requires 0 <= i < |busy| => PortTotal(simpleName, busy[i]))
  }

  /**
   * The totals entry of a named process: for each busy port, in the order of
   * the busy ports, the name without dots, the port, '=' and the number of
   * the process's records on that port; the parts joined by ", ".
   */
  lemma TotalsEntryText(name: string, rs: seq<TcpProcessRecord>, min: int)
    ensures var busy := BusyPorts(rs, min);
      var parts := PortTotals(SimpleProcessName(name), busy);
      && TotalsEntry((Some(name), rs), min) == Some(Join(", ", parts))
      && |parts| == |busy|
      && forall i :: 0 <= i < |busy| ==>
           parts[i] == SimpleProcessName(name) + NatToString(busy[i].0) + "="
             + NatToString(|Select(rs, RemotePortOf, busy[i].0)|)
  {
    BusyPortsSpec(rs, min);
  }

  /** The totals entries of all groups, `None` if any of them raises. */
  function Totals(gs: seq<NameGroup>, min: int): (r: Option<seq<string>>)
    ensures r.Some? <==> forall i :: 0 <= i < |gs| ==> TotalsEntry(gs[i], min).Some?
    ensures r.Some? ==> |r.value| == |gs| && forall i :: 0 <= i < |gs| ==> TotalsEntry(gs[i], min) == Some(r.value[i])
  {
    if gs == [] then Some([])
    else
      var e, es := TotalsEntry(gs[0], min), Totals(gs[1..], min);
      if e.Some? && es.Some? then Some([e.value] + es.value) else None
  }

  // ------------------------------------------------------------ report

  /** What one cycle logs: the totals at Info level, then the detail at Debug level. */
  datatype Report = Report(totals: string, detail: string)

  /**
   * The report of one snapshot, or `None` where the callback raises a
   * NullReferenceException before logging anything.
   */
  function Aggregate(records: seq<TcpProcessRecord>, min: int): Option<Report>
  {
    var gs := ProcessGroups(records, min);
    match Totals(gs, min)
    case None => None
    case Some(entries) => Some(Report(Join(NewLine, entries), Join(NewLine, DetailLines(gs))))
  }

  // ------------------------------------------------------------ properties of the report

  /** A threshold of zero or less keeps every process group. */
  lemma ZeroThresholdKeepsAllProcesses(records: seq<TcpProcessRecord>, min: int)
    requires min <= 0
    ensures ProcessGroups(records, min) == SortBy(GroupBy(records, NameOf), GroupName, NameLe)
  {
    var all := GroupBy(records, NameOf);
    forall i | 0 <= i < |all| ensures |all[i].1| >= min {
      GroupsNonEmpty(records, NameOf, i);
    }
    KeepAll(all, min);
  }

  /** A threshold of zero or less makes every port of a group busy. */
  lemma ZeroThresholdKeepsAllPorts(g: seq<TcpProcessRecord>, min: int)
    requires min <= 0
    ensures BusyPorts(g, min) == GroupBy(g, RemotePortOf)
  {
    var all := GroupBy(g, RemotePortOf);
    forall i | 0 <= i < |all| ensures |all[i].1| >= min + 1 {
      GroupsNonEmpty(g, RemotePortOf, i);
    }
    KeepAll(all, min + 1);
  }

  /** A process with no more than `min` connections has an empty totals entry. */
  lemma SmallGroupHasEmptyTotals(g: NameGroup, min: int)
    requires |g.1| <= min
    ensures BusyPorts(g.1, min) == []
    ensures TotalsEntry(g, min) == Some("")
  {
    GroupsBounded(g.1, RemotePortOf);
    KeepNone(GroupBy(g.1, RemotePortOf), min + 1);
  }

  /**
   * The totals count is strict: five connections of one process to port
   * 80 are reported with a threshold of 4 and not with a threshold of 5.
   */
  lemma StrictTotalsThreshold(g: seq<TcpProcessRecord>)
    requires |g| == 5
    requires forall i :: 0 <= i < |g| ==> g[i].remotePort == 80
    ensures TotalsEntry((Some("A"), g), 4) == Some("A80=5")
    ensures TotalsEntry((Some("A"), g), 5) == Some("")
  {
    SingleKeyGrouping(g, RemotePortOf, 80);
    var busy := BusyPorts(g, 4);
    assert busy == [(80, g)];
    assert SimpleProcessName("A") == "A";
    var parts := PortTotals("A", busy);
    assert parts == [PortTotal("A", (80, g))];
    assert NatToString(80) == "80" by {
      assert NatToString(8) == "8";
    }
    assert NatToString(5) == "5";
    assert PortTotal("A", (80, g)) == "A80=5";
    SmallGroupHasEmptyTotals((Some("A"), g), 5);
  }

  /**
   * A cycle raises exactly when the connections whose process name is
   * unknown form a kept group (at least `min` of them) with a remote port
   * used more than `min` times.
   */
  lemma AggregateFailsIff(records: seq<TcpProcessRecord>, min: int)
    ensures var unnamed := Select(records, NameOf, None);
      Aggregate(records, min).None? <==>
        unnamed != [] && |unnamed| >= min && BusyPorts(unnamed, min) != []
  {
    var unnamed := Select(records, NameOf, None);
    if Aggregate(records, min).None? {
      AggregateFailsOnlyUnnamed(records, min);
    }
    if unnamed != [] && |unnamed| >= min && BusyPorts(unnamed, min) != [] {
      AggregateFailsOnUnnamed(records, min);
    }
  }

  lemma AggregateFailsOnlyUnnamed(records: seq<TcpProcessRecord>, min: int)
    requires Aggregate(records, min).None?
    ensures var unnamed := Select(records, NameOf, None);
      unnamed != [] && |unnamed| >= min && BusyPorts(unnamed, min) != []
  {
    var gs := ProcessGroups(records, min);
    ProcessGroupsSpec(records, min);
    var i :| 0 <= i < |gs| && TotalsEntry(gs[i], min).None?;
    assert gs[i].0 == None;
  }

  lemma AggregateFailsOnUnnamed(records: seq<TcpProcessRecord>, min: int)
    requires var unnamed := Select(records, NameOf, None);
      unnamed != [] && |unnamed| >= min && BusyPorts(unnamed, min) != []
    ensures Aggregate(records, min).None?
  {
    var gs := ProcessGroups(records, min);
    ProcessGroupsSpec(records, min);
    var i :| 0 <= i < |gs| && gs[i].0 == None;
    assert TotalsEntry(gs[i], min).None?;
  }

  /**
   * A successful cycle reports one totals entry per kept process, in name
   * order, and one detail line per connection of a kept process.
   */
  lemma AggregateReport(records: seq<TcpProcessRecord>, min: int)
    requires Aggregate(records, min).Some?
    ensures var gs := ProcessGroups(records, min);
      var entries := Totals(gs, min);
      && entries.Some? && |entries.value| == |gs|
      && (forall i :: 0 <= i < |gs| ==> TotalsEntry(gs[i], min) == Some(entries.value[i]))
      && Aggregate(records, min).value
           == Report(Join(NewLine, entries.value), Join(NewLine, DetailLines(gs)))
      && |DetailLines(gs)| == SumSizes(gs)
  {
    FlatMapLength(ProcessGroups(records, min), GroupDetail);
  }
}
