/**
 * The scanner of the bindings: the options that build the tool's command
 * line, the scanner constructor, and one scan run, from starting the process
 * to the filtered report.
 */
module RustScan {
  import opened Wrappers
  import opened Text
  import opened Sequences
  import opened Errors
  import opened Report
  import opened Pipeline

  /** The context a run waits on; the background context is never done. */
  datatype Context = Background | Cancellable(id: nat)

  /** Which of the run's two awaited events comes first. */
  datatype WaitArm = ContextDone | ProcessExited

  const PortFlag := "-p"
  const RangeFlag := "-r"
  const PortSeparator := ','

  /** The flag for a joined port list: a list with a comma is a port list, anything else a range. */
  function FlagFor(portList: string): (flag: string)
    ensures flag == PortFlag <==> PortSeparator in portList
    ensures flag == PortFlag || flag == RangeFlag
  {
    ContainsSingle(portList, PortSeparator);
    if Contains(portList, [PortSeparator]) then PortFlag else RangeFlag
  }

  /**
   * Given the ports one by one, the option uses the port-list flag exactly
   * when there are two or more of them or one of them already holds a comma.
   */
  lemma PortFlagChoice(ports: seq<string>)
    ensures FlagFor(Join(ports, [PortSeparator])) == PortFlag
            <==> |ports| >= 2 || exists k | 0 <= k < |ports| :: PortSeparator in ports[k]
  {
    CharInJoin(ports, [PortSeparator], PortSeparator);
  }

  /**
   * The state the option returned by WithPorts captures: the flag, fixed when
   * the option is made, and the port list, which the option reassigns each
   * time it merges into an existing port argument.
   */
  class PortsOption {
    const flag: string
    var portList: string

    /** WithPorts: the ports joined with commas, and the flag that list calls for. */
    constructor (ports: seq<string>)
      ensures portList == Join(ports, [PortSeparator])
      ensures flag == FlagFor(portList)
    {
      portList := Join(ports, [PortSeparator]);
      flag := FlagFor(Join(ports, [PortSeparator]));
    }
  }

  /** The options a scanner can be given, one constructor per option function. */
  datatype ScanOption =
      /** None stands for a nil context, which takes the context away again. */
    | WithContext(context: Option<Context>)
    | WithBinaryPath(path: string)
    | WithCustomArguments(extra: seq<string>)
      /** None stands for a nil filter, which switches port filtering off again. */
    | WithFilterPort(keepPort: Option<Port -> bool>)
      /** None stands for a nil filter, which switches host filtering off again. */
    | WithFilterHost(keepHost: Option<Host -> bool>)
    | WithTargets(targets: seq<string>)
    | WithPorts(cell: PortsOption)
    | WithBatchSize(size: int)
    | WithTimeout(millis: int)
    | WithScanOrder(order: string)
    | WithUlimit(ulimit: int)

  /** The port-list cells captured by the ports options among `options`. */
  function Cells(options: seq<ScanOption>): set<PortsOption>
  {
    set k | 0 <= k < |options| && options[k].WithPorts? :: options[k].cell
  }

  /** The current port list of each captured cell. */
  function Lists(options: seq<ScanOption>): map<PortsOption, string>
    reads Cells(options)
  {
    map c | c in Cells(options) :: c.portList
  }

  /** The configurable state of a scanner, as a value. */
  datatype Settings = Settings(args: seq<string>, binaryPath: string, ctx: Option<Context>,
                               portFilter: Option<Port -> bool>, hostFilter: Option<Host -> bool>)

  /** A scanner before any option is applied. */
  const Unset := Settings([], "", None, None, None)

  /**
   * What each option other than a ports option does to the settings: each
   * field changes only under the option that sets it, and the arguments
   * already given stay as they are, at the front.
   */
  function Configure(st: Settings, o: ScanOption): (r: Settings)
    requires !o.WithPorts?
    ensures |r.args| >= |st.args| && r.args[..|st.args|] == st.args
    ensures o.WithContext? || o.WithBinaryPath? || o.WithFilterPort? || o.WithFilterHost? ==> r.args == st.args
    ensures !o.WithContext? ==> r.ctx == st.ctx
    ensures !o.WithBinaryPath? ==> r.binaryPath == st.binaryPath
    ensures !o.WithFilterPort? ==> r.portFilter == st.portFilter
    ensures !o.WithFilterHost? ==> r.hostFilter == st.hostFilter
    ensures o.WithContext? ==> r.ctx == o.context
    ensures o.WithBinaryPath? ==> r.binaryPath == o.path
    ensures o.WithFilterPort? ==> r.portFilter == o.keepPort
    ensures o.WithFilterHost? ==> r.hostFilter == o.keepHost
  {
    match o
    case WithContext(c) => st.(ctx := c)
    case WithBinaryPath(p) => st.(binaryPath := p)
    case WithCustomArguments(extra) => st.(args := st.args + extra)
    case WithFilterPort(f) => st.(portFilter := f)
    case WithFilterHost(f) => st.(hostFilter := f)
    case WithTargets(ts) => st.(args := st.args + ["-a"] + ts)
    case WithBatchSize(n) => st.(args := st.args + ["-b", Decimal(n)])
    case WithTimeout(n) => st.(args := st.args + ["-t", Decimal(n)])
    case WithScanOrder(order) => st.(args := st.args + ["--scan-order", order])
    case WithUlimit(n) => st.(args := st.args + ["-u", Decimal(n)])
  }

  /**
   * The numeric options append their flag and the number in decimal, and the
   * tool reading that argument back gets the number that was given.
   */
  lemma NumericOptionReadsBack(st: Settings, o: ScanOption)
    requires o.WithBatchSize? || o.WithTimeout? || o.WithUlimit?
    ensures var next := Configure(st, o).args;
            var n := if o.WithBatchSize? then o.size else if o.WithTimeout? then o.millis else o.ulimit;
            |next| == |st.args| + 2 && next[..|st.args|] == st.args
            && next[|st.args|] == (if o.WithBatchSize? then "-b" else if o.WithTimeout? then "-t" else "-u")
            && ParseDecimal(next[|st.args| + 1]) == n
  {
    var n := if o.WithBatchSize? then o.size else if o.WithTimeout? then o.millis else o.ulimit;
    DecimalRoundTrip(n);
  }

  /** The arguments and port list after a ports option merges in, or appends, its list. */
  datatype Merged = Merged(args: seq<string>, portList: string)

  /**
   * Applying a ports option to `args`: when a "-p" is present, the argument
   * after the first one gets "," and the captured list appended and becomes the
   * new captured list; otherwise the option's flag and list are appended.
   * None stands for the index-out-of-range panic when that "-p" is the last argument.
   */
  function MergePorts(args: seq<string>, flag: string, portList: string): (r: Option<Merged>)
    ensures r.None? <==> |args| > 0 && args[|args| - 1] == PortFlag && PortFlag !in args[..|args| - 1]
  {
    var place := FirstIndex(args, PortFlag);
    if place >= 0 then
      if place + 1 < |args| then
        var merged := args[place + 1] + [PortSeparator] + portList;
        Some(Merged(args[place + 1 := merged], merged))
      else
        None
    else
      Some(Merged(args + [flag, portList], portList))
  }

  /**
   * Merging keeps the ports already given: split at commas, the merged list is
   * the old argument's ports followed by the option's, and the argument after
   * the first "-p" is that list; no other argument changes.
   */
  lemma MergeKeepsEarlierPorts(args: seq<string>, flag: string, portList: string)
    requires PortFlag in args && MergePorts(args, flag, portList).Some?
    ensures var place := FirstIndex(args, PortFlag);
            var m := MergePorts(args, flag, portList).value;
            |m.args| == |args| && m.args[place + 1] == m.portList
            && (forall k | 0 <= k < |args| && k != place + 1 :: m.args[k] == args[k])
            && Split(m.portList, [PortSeparator]) == Split(args[place + 1], [PortSeparator]) + Split(portList, [PortSeparator])
  {
    var place := FirstIndex(args, PortFlag);
    var m := MergePorts(args, flag, portList).value;
    assert m.portList == args[place + 1] + [PortSeparator] + portList;
    assert m.args == args[place + 1 := m.portList];
    hide MergePorts;
    SplitAtChar(args[place + 1], PortSeparator, portList);
  }

  /** Without a "-p" the option adds its own flag and list at the end. */
  lemma MergeAppendsFresh(args: seq<string>, flag: string, portList: string)
    requires PortFlag !in args
    ensures MergePorts(args, flag, portList) == Some(Merged(args + [flag, portList], portList))
  {
  }

  /** After a "-p" option is applied, its list is the argument right after the first "-p". */
  lemma PortListFollowsFlag(args: seq<string>, portList: string)
    requires MergePorts(args, PortFlag, portList).Some?
    ensures var m := MergePorts(args, PortFlag, portList).value;
            var place := FirstIndex(m.args, PortFlag);
            0 <= place && place + 1 < |m.args| && m.args[place + 1] == m.portList
  {
    var m := MergePorts(args, PortFlag, portList).value;
    if PortFlag in args {
      var p := FirstIndex(args, PortFlag);
      assert m.args[..p] == args[..p];
      FirstIndexAt(m.args, PortFlag, p);
    } else {
      assert m.args == args + [PortFlag, portList];
      assert m.args[..|args|] == args;
      FirstIndexAt(m.args, PortFlag, |args|);
    }
  }

  /**
   * Applying the same port-list option a second time merges its own, already
   * merged, list into itself: the ports after "-p" come out twice.
   */
  lemma ReapplyDoublesPorts(args: seq<string>, portList: string)
    requires MergePorts(args, PortFlag, portList).Some?
    ensures var m1 := MergePorts(args, PortFlag, portList).value;
            var m2 := MergePorts(m1.args, PortFlag, m1.portList);
            m2.Some? && FirstIndex(m1.args, PortFlag) == FirstIndex(m2.value.args, PortFlag)
            && m2.value.args[FirstIndex(m2.value.args, PortFlag) + 1] == m2.value.portList
            && Split(m2.value.portList, [PortSeparator]) == Split(m1.portList, [PortSeparator]) + Split(m1.portList, [PortSeparator])
  {
    var m1 := MergePorts(args, PortFlag, portList).value;
    PortListFollowsFlag(args, portList);
    var place := FirstIndex(m1.args, PortFlag);
    var m2 := MergePorts(m1.args, PortFlag, m1.portList).value;
    assert m2.portList == m1.portList + [PortSeparator] + m1.portList;
    assert m2.args == m1.args[place + 1 := m2.portList];
    assert m2.args[..place] == m1.args[..place];
    FirstIndexAt(m2.args, PortFlag, place);
    SplitAtChar(m1.portList, PortSeparator, m1.portList);
  }

  /** A range option given twice without a "-p" appends its flag and list twice. */
  lemma ReapplyRangeAppendsTwice(args: seq<string>, portList: string)
    requires PortFlag !in args && portList != PortFlag
    ensures var m1 := MergePorts(args, RangeFlag, portList).value;
            MergePorts(m1.args, RangeFlag, m1.portList)
              == Some(Merged(args + [RangeFlag, portList, RangeFlag, portList], portList))
  {
    var m1 := MergePorts(args, RangeFlag, portList).value;
    assert RangeFlag[1] != PortFlag[1];
    assert m1.args == args + [RangeFlag, portList];
    assert PortFlag !in m1.args;
    assert m1.args + [RangeFlag, portList] == args + [RangeFlag, portList, RangeFlag, portList];
  }

  /** The settings together with the current list of every captured port cell. */
  datatype Configured = Configured(settings: Settings, lists: map<PortsOption, string>)

  /** One option applied to configured state; None when it panics. */
  function Step(c: Configured, o: ScanOption): (r: Option<Configured>)
    requires o.WithPorts? ==> o.cell in c.lists
    ensures r.Some? ==> r.value.lists.Keys == c.lists.Keys
  {
    if o.WithPorts? then
      match MergePorts(c.settings.args, o.cell.flag, c.lists[o.cell])
      case None => None
      case Some(m) => Some(Configured(c.settings.(args := m.args), c.lists[o.cell := m.portList]))
    else
      Some(Configured(Configure(c.settings, o), c.lists))
  }

  predicate Covers(lists: map<PortsOption, string>, options: seq<ScanOption>)
  {
    forall k | 0 <= k < |options| && options[k].WithPorts? :: options[k].cell in lists
  }

  /** Options applied in order, stopping at the first that panics. */
  function Replay(c: Configured, options: seq<ScanOption>): (r: Option<Configured>)
    requires Covers(c.lists, options)
    ensures r.Some? ==> r.value.lists.Keys == c.lists.Keys
  {
    if |options| == 0 then Some(c)
    else
      match Replay(c, options[..|options| - 1])
      case None => None
      case Some(d) => Step(d, options[|options| - 1])
  }

  /** Applying options in two batches is applying them all in one. */
  lemma {:induction false} ReplayConcat(c: Configured, a: seq<ScanOption>, b: seq<ScanOption>)
    requires Covers(c.lists, a + b)
    ensures Covers(c.lists, a) && Covers(c.lists, b)
    ensures Replay(c, a + b) == match Replay(c, a)
                                case None => None
                                case Some(d) => Replay(d, b)
    decreases |b|
  {
    assert forall k | 0 <= k < |a| :: (a + b)[k] == a[k];
    assert forall k | 0 <= k < |b| :: (a + b)[|a| + k] == b[k];
    if |b| > 0 {
      var init := b[..|b| - 1];
      assert (a + b)[..|a + b| - 1] == a + init;
      ReplayConcat(c, a, init);
    } else {
      assert a + b == a;
    }
  }

  /** Once an option has panicked, the options after it are not applied. */
  lemma {:induction false} PanicIsFinal(c: Configured, options: seq<ScanOption>, i: nat)
    requires Covers(c.lists, options) && i <= |options|
    requires Replay(c, options[..i]).None?
    ensures Replay(c, options).None?
    decreases |options| - i
  {
    if i < |options| {
      assert options[..i + 1][..i] == options[..i];
      PanicIsFinal(c, options, i + 1);
    } else {
      assert options[..i] == options;
    }
  }

  /** Options without a ports option never panic and never rewrite an argument already there. */
  lemma {:induction false} ReplayWithoutPorts(c: Configured, options: seq<ScanOption>)
    requires forall k | 0 <= k < |options| :: !options[k].WithPorts?
    ensures Replay(c, options).Some?
    ensures |Replay(c, options).value.settings.args| >= |c.settings.args|
    ensures Replay(c, options).value.settings.args[..|c.settings.args|] == c.settings.args
    ensures Replay(c, options).value.lists == c.lists
  {
    if |options| > 0 {
      var init := options[..|options| - 1];
      ReplayWithoutPorts(c, init);
    }
  }

  /**
   * The hosts a run returns: ports filtered first, then hosts, each filter only
   * when set. No host is added; without a host filter none is dropped; every
   * host left passes the host filter and every port left the port filter.
   */
  function FilteredHosts(hosts: seq<Host>, portFilter: Option<Port -> bool>, hostFilter: Option<Host -> bool>): (r: seq<Host>)
    ensures |r| <= |hosts|
    ensures hostFilter.None? ==> |r| == |hosts|
    ensures forall h | h in r ::
              (hostFilter.Some? ==> hostFilter.value(h))
              && (portFilter.Some? ==> forall p | p in h.ports :: portFilter.value(p))
  {
    var afterPorts := if portFilter.Some? then PortsFiltered(hosts, portFilter.value) else hosts;
    if hostFilter.Some? then Filter(afterPorts, hostFilter.value) else afterPorts
  }

  /**
   * The host filter sees the hosts after port filtering: a host filter that
   * wants a port left, after a port filter that removes every port, leaves no host.
   */
  lemma HostFilterSeesFilteredPorts(hosts: seq<Host>, keepPort: Port -> bool, keepHost: Host -> bool)
    requires forall p: Port :: !keepPort(p)
    requires forall h: Host :: keepHost(h) ==> |h.ports| > 0
    ensures FilteredHosts(hosts, Some(keepPort), Some(keepHost)) == []
  {
    var afterPorts := PortsFiltered(hosts, keepPort);
    PortsFilteredDropsAll(hosts, keepPort);
    FilterDropsAll(afterPorts, keepHost);
  }

  /** The arguments the process gets: the scanner's, plus XML output to stdout unless resuming. */
  function Invocation(args: seq<string>): (argv: seq<string>)
    ensures |argv| >= |args| && argv[..|args|] == args
    ensures argv == args <==> ResumeFlag in args
    ensures ResumeFlag !in args ==> argv[|args|..] == XmlToStdout
  {
    if ResumeFlag in args then args else args + XmlToStdout
  }

  /** The error a report's own error message stands for. */
  function ClassifyReportError(msg: string): (e: ScanError)
    ensures e == ResolveName <==> Contains(msg, ResolveNameMarker)
    ensures e != ResolveName ==> e == ScanFailed(msg)
  {
    if Contains(msg, ResolveNameMarker) then ResolveName else ScanFailed(msg)
  }

  class Scanner {
    var args: seq<string>
    var binaryPath: string
    var ctx: Option<Context>
    var portFilter: Option<Port -> bool>
    var hostFilter: Option<Host -> bool>

    function Current(): Settings
      reads this
    {
      Settings(args, binaryPath, ctx, portFilter, hostFilter)
    }

    /** The zero scanner options are applied to. */
    constructor ()
      ensures Current() == Unset
    {
      args := [];
      binaryPath := "";
      ctx := None;
      portFilter := None;
      hostFilter := None;
    }

    /** Applies one option; `panicked` when the option panics, before changing anything. */
    method Apply(o: ScanOption) returns (panicked: bool)
      modifies this, Cells([o])
      ensures o.WithPorts? ==>
                var m := MergePorts(old(args), o.cell.flag, old(o.cell.portList));
                panicked == m.None?
                && (m.Some? ==> Current() == old(Current()).(args := m.value.args) && o.cell.portList == m.value.portList)
      ensures !o.WithPorts? ==> !panicked && Current() == Configure(old(Current()), o)
      ensures panicked ==> Current() == old(Current()) && forall c | c in Cells([o]) :: c.portList == old(c.portList)
    {
      panicked := false;
      match o
      case WithContext(c) =>
        ctx := c;
      case WithBinaryPath(p) =>
        binaryPath := p;
      case WithCustomArguments(extra) =>
        args := args + extra;
      case WithFilterPort(f) =>
        portFilter := f;
      case WithFilterHost(f) =>
        hostFilter := f;
      case WithTargets(ts) =>
        args := args + ["-a"];
        args := args + ts;
      case WithPorts(cell) =>
        assert cell in Cells([o]) by {
          assert [o][0].cell == cell;
        }
        var place := IndexOf(args, PortFlag);
        if place >= 0 {
          if place + 1 < |args| {
            cell.portList := args[place + 1] + [PortSeparator] + cell.portList;
            args := args[place + 1 := cell.portList];
          } else {
            panicked := true;
          }
        } else {
          args := args + [cell.flag];
          args := args + [cell.portList];
        }
      case WithBatchSize(n) =>
        args := args + ["-b"];
        args := args + [Decimal(n)];
      case WithTimeout(n) =>
        args := args + ["-t"];
        args := args + [Decimal(n)];
      case WithScanOrder(order) =>
        args := args + ["--scan-order"];
        args := args + [order];
      case WithUlimit(n) =>
        args := args + ["-u"];
        args := args + [Decimal(n)];
    }

    /** AddOptions: applies the options in order, stopping at one that panics. */
    method AddOptions(options: seq<ScanOption>) returns (panicked: bool)
      modifies this, Cells(options)
      ensures var r := Replay(Configured(old(Current()), old(Lists(options))), options);
              panicked == r.None?
              && (r.Some? ==> Current() == r.value.settings && Lists(options) == r.value.lists)
    {
      hide Configure, MergePorts;
      ghost var start := Configured(Current(), Lists(options));
      panicked := false;
      for i := 0 to |options|
        invariant Replay(start, options[..i]) == Some(Configured(Current(), Lists(options)))
      {
        assert options[..i + 1][..i] == options[..i];
        var o := options[i];
        ghost var before := Lists(options);
        panicked := Apply(o);
        if panicked {
          PanicIsFinal(start, options, i + 1);
          return;
        }
        if o.WithPorts? {
          assert Lists(options) == before[o.cell := o.cell.portList];
        } else {
          assert Lists(options) == before;
        }
      }
      assert options[..|options|] == options;
    }

    /** Run: one scan, from starting the process to the filtered report. */
    method Run(limit: int, startError: Option<string>, received: seq<string>, last: string,
               arm: WaitArm, stderr: string, parse: string -> Result<RunData, string>)
      returns (argv: seq<string>, result: NmapRun?, warnings: seq<string>, err: Option<ScanError>)
      requires Fits(received + [last])
      requires ctx.Some? || startError.Some? || OpenCount(received + [last]) > limit
      requires arm == ContextDone && ctx.Some? ==> ctx.value.Cancellable?
      ensures argv == Invocation(args)
      ensures startError.Some? ==>
                result == null && warnings == [] && err == Some(StartFailed(startError.value))
      ensures startError.None? && OpenCount(received + [last]) > limit ==>
                result == null && warnings == [] && err == Some(ScanCDN)
      ensures startError.None? && OpenCount(received + [last]) <= limit && arm == ContextDone ==>
                result == null && warnings == [] && err == Some(ScanTimeout)
      ensures startError.None? && OpenCount(received + [last]) <= limit && arm == ProcessExited ==>
                var ws := Warnings(stderr);
                var parsed := parse(Selected(Accumulated(received + [last])));
                if AnalyzeWarnings(ws).Some? then
                  result == null && warnings == ws && err == Some(MallocFailed)
                else if parsed.Err? then
                  result == null && warnings == ws + [parsed.error] && err == Some(ParseOutput)
                else
                  var msg := parsed.value.stats.finished.errorMsg;
                  result != null && fresh(result) && warnings == ws && result.Stats == parsed.value.stats
                  && (|msg| > 0 ==> result.Hosts == parsed.value.hosts && err == Some(ClassifyReportError(msg)))
                  && (|msg| == 0 ==> result.Hosts == FilteredHosts(parsed.value.hosts, portFilter, hostFilter) && err.None?)
    {
      hide Structure, Selected;
      var resume := Occurs(args, ResumeFlag);
      argv := args;
      if !resume {
        argv := argv + XmlToStdout;
      }
      result, warnings := null, [];
      if startError.Some? {
        err := Some(StartFailed(startError.value));
        return;
      }
      var n, outTmp := DrainStdout(received, last);
      if n > limit {
        err := Some(ScanCDN);
        return;
      }
      if arm == ContextDone {
        err := Some(ScanTimeout);
        return;
      }
      if |stderr| > 0 {
        warnings := Warnings(stderr);
      }
      err := AnalyzeWarnings(warnings);
      if err.Some? {
        return;
      }
      var out := SelectPayload(outTmp);
      var parsed := parse(out);
      if parsed.Err? {
        warnings := warnings + [parsed.error];
        err := Some(ParseOutput);
        return;
      }
      result := new NmapRun(parsed.value);
      var msg := result.Stats.finished.errorMsg;
      if |msg| > 0 {
        err := Some(ClassifyReportError(msg));
        return;
      }
      if portFilter.Some? {
        result := ChoosePorts(result, portFilter.value);
      }
      if hostFilter.Some? {
        result := ChooseHosts(result, hostFilter.value);
      }
    }
  }

  /**
   * NewScanner: applies the options to a zero scanner, looks the binary up when
   * no path was given, and defaults the context to the background one.
   * `lookPath` is the result of that lookup; `panicked` when an option panics.
   */
  method NewScanner(options: seq<ScanOption>, lookPath: Option<string>)
    returns (s: Scanner?, err: Option<ScanError>, panicked: bool)
    modifies Cells(options)
    ensures var r := Replay(Configured(Unset, old(Lists(options))), options);
            panicked == r.None? && (panicked ==> s == null)
            && (r.Some? ==>
                  var st := r.value.settings;
                  Lists(options) == r.value.lists
                  && (st.binaryPath == "" && lookPath.None? ==> s == null && err == Some(RustScanNotInstalled))
                  && (st.binaryPath != "" || lookPath.Some? ==>
                        s != null && fresh(s) && err.None?
                        && s.Current() == st.(binaryPath := if st.binaryPath == "" then lookPath.value else st.binaryPath,
                                              ctx := if st.ctx.None? then Some(Background) else st.ctx)))
  {
    var scanner := new Scanner();
    err := None;
    panicked := scanner.AddOptions(options);
    if panicked {
      s := null;
      return;
    }
    if scanner.binaryPath == "" {
      if lookPath.None? {
        s, err := null, Some(RustScanNotInstalled);
        return;
      }
      scanner.binaryPath := lookPath.value;
    }
    if scanner.ctx.None? {
      scanner.ctx := Some(Background);
    }
    s := scanner;
  }
}
