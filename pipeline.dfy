/**
 * The steps of a scan run that only compute: reading the process output in
 * 1024-byte buffers, counting open-port notices, turning stderr into warnings,
 * spotting fatal warnings, and choosing the XML payload out of the tool's
 * informational sections.
 */
module Pipeline {
  import opened Wrappers
  import opened Text
  import opened Sequences
  import opened Errors

  /** Size of the buffer each stdout read fills. */
  const ReadBufferSize: nat := 1024
  /** Printed by the tool for each open port it finds. */
  const OpenMarker := "Open "
  /** Starts each informational section of the tool's output. */
  const InfoDelimiter := "[~]"
  const XmlDeclaration := "<?xml "
  /** Printed instead of an XML report when no port is open. */
  const NoOpenPortsNotice := "Looks like I didn't find any open ports"
  /** A stderr line with this marker means the process ran out of memory. */
  const MallocMarker := "Malloc Failed!"
  /** A report error message with this marker means a name could not be resolved. */
  const ResolveNameMarker := "Error resolving name"
  const ResumeFlag := "--resume"
  /** Appended to a fresh scan's arguments: XML output, written to stdout. */
  const XmlToStdout: seq<string> := ["--", "-oX", "-"]

  /*
   * The report synthesised when no port is open: a fixed nmap XML document
   * with four placeholder slots (two host addresses, the scan comment and
   * the args attribute), each holding a placeholder that is then replaced
   * by a fixed host.
   */
  const Placeholder := "rustscan_info"
  const FallbackTarget := "www.baidu.com"

  /** The template text around the four placeholder slots: before the first, between them, and after the last. */
  function Fragment(k: nat): string
    requires k < 5
  {
    if k == 0 then
      "<?xml version=\"1.0\" encoding=\"UTF-8\"?>\n"
      + "<!DOCTYPE nmaprun>\n"
      + "<?xml-stylesheet href=\"file:///usr/local/bin/../share/nmap/nmap.xsl\" type=\"text/xsl\"?>\n"
      + "<!-- Nmap 7.92 scan initiated Tue Dec  7 15:34:04 2021 as: nmap -p 80,443 -oX - "
    else if k == 1 then
      " -->\n"
      + "<nmaprun scanner=\"nmap\" args=\"nmap -p 80,443 -oX - "
    else if k == 2 then
      "\" start=\"1638862444\" startstr=\"Tue Dec  7 15:34:04 2021\" version=\"7.92\" xmloutputversion=\"1.05\">\n"
      + "<scaninfo type=\"connect\" protocol=\"tcp\" numservices=\"2\" services=\"80,443\"/>\n"
      + "<verbose level=\"0\"/>\n"
      + "<debugging level=\"0\"/>\n"
      + "<hosthint><status state=\"up\" reason=\"unknown-response\" reason_ttl=\"0\"/>\n"
      + "<address addr=\""
    else if k == 3 then
      "\" addrtype=\"ipv4\"/>\n"
      + "<hostnames>\n"
      + "</hostnames>\n"
      + "</hosthint>\n"
      + "<host starttime=\"1638862444\" endtime=\"1638862444\"><status state=\"up\" reason=\"conn-refused\" reason_ttl=\"0\"/>\n"
      + "<address addr=\""
    else
      "\" addrtype=\"ipv4\"/>\n"
      + "<hostnames>\n"
      + "</hostnames>\n"
      + "<ports><port protocol=\"tcp\" portid=\"80\"><state state=\"closed\" reason=\"conn-refused\" reason_ttl=\"0\"/><service name=\"http\" method=\"table\" conf=\"3\"/></port>\n"
      + "</ports>\n"
      + "<times srtt=\"53510\" rttvar=\"31142\" to=\"178078\"/>\n"
      + "</host>\n"
      + "<runstats><finished time=\"1638862444\" timestr=\"Tue Dec  7 15:34:04 2021\" summary=\"Nmap done at Tue Dec  7 15:34:04 2021; 1 IP address (1 host up) scanned in 0.25 seconds\" elapsed=\"0.25\" exit=\"success\"/><hosts up=\"1\" down=\"0\" total=\"1\"/>\n"
      + "</runstats>\n"
      + "</nmaprun>"
  }

  /** The report with `slot` in each of its four placeholder slots. */
  function TemplateWith(slot: string): string
  {
    Fragment(0) + (slot + (Fragment(1) + (slot + (Fragment(2) + (slot + (Fragment(3) + (slot + Fragment(4))))))))
  }

  /**
   * Whatever the text around the four slots, filling them leaves no
   * placeholder behind and puts the fixed host in.
   */
  lemma FilledTemplate(f0: string, f1: string, f2: string, f3: string, f4: string)
    ensures var t := f0 + (Placeholder + (f1 + (Placeholder + (f2 + (Placeholder + (f3 + (Placeholder + f4)))))));
            !Contains(ReplaceAll(t, Placeholder, FallbackTarget), Placeholder)
            && Contains(ReplaceAll(t, Placeholder, FallbackTarget), FallbackTarget)
  {
    var t := f0 + (Placeholder + (f1 + (Placeholder + (f2 + (Placeholder + (f3 + (Placeholder + f4)))))));
    assert Inert(Placeholder, FallbackTarget);
    ReplaceAllClears(t, Placeholder, FallbackTarget);
    assert t[|f0|..|f0| + |Placeholder|] == Placeholder;
    assert OccursAt(t, Placeholder, |f0|);
    ReplaceAllInserts(t, Placeholder, FallbackTarget);
  }

  /**
   * When the text around the slots holds no placeholder, replacing puts the
   * fixed host in exactly the four slots and changes nothing else.
   */
  lemma FilledTemplateExactly(f0: string, f1: string, f2: string, f3: string, f4: string)
    requires !Contains(f0, Placeholder) && !Contains(f1, Placeholder) && !Contains(f2, Placeholder)
    requires !Contains(f3, Placeholder) && !Contains(f4, Placeholder)
    ensures var t := f0 + (Placeholder + (f1 + (Placeholder + (f2 + (Placeholder + (f3 + (Placeholder + f4)))))));
            ReplaceAll(t, Placeholder, FallbackTarget)
            == f0 + (FallbackTarget + (f1 + (FallbackTarget + (f2 + (FallbackTarget + (f3 + (FallbackTarget + f4)))))))
  {
    assert Placeholder[0] !in Placeholder[1..];
    ReplaceAllSlots(f0, f1, f2, f3, f4, Placeholder, FallbackTarget);
  }

  /**
   * Structure: the template with every placeholder replaced by the fixed
   * host. The report names the fixed host and keeps no placeholder.
   */
  function Structure(): (report: string)
    ensures !Contains(report, Placeholder)
    ensures Contains(report, FallbackTarget)
  {
    TemplateFilled();
    ReplaceAll(TemplateWith(Placeholder), Placeholder, FallbackTarget)
  }

  lemma TemplateFilled()
    ensures !Contains(ReplaceAll(TemplateWith(Placeholder), Placeholder, FallbackTarget), Placeholder)
    ensures Contains(ReplaceAll(TemplateWith(Placeholder), Placeholder, FallbackTarget), FallbackTarget)
  {
    // Only where the slots are matters, not the text around them.
    hide Fragment;
    FilledTemplate(Fragment(0), Fragment(1), Fragment(2), Fragment(3), Fragment(4));
  }

  /**
   * When the text around the slots holds no placeholder of its own, the
   * synthesised report is the template with the fixed host in each of the
   * four slots.
   */
  lemma StructureFilled()
    ensures (forall k | 0 <= k < 5 :: !Contains(Fragment(k), Placeholder)) ==> Structure() == TemplateWith(FallbackTarget)
  {
    // Only where the slots are matters, not the text around them.
    hide Fragment;
    if forall k | 0 <= k < 5 :: !Contains(Fragment(k), Placeholder) {
      FilledTemplateExactly(Fragment(0), Fragment(1), Fragment(2), Fragment(3), Fragment(4));
    }
  }

  /** Every read the bindings make fills at most the 1024-byte buffer. */
  predicate Fits(chunks: seq<string>)
  {
    forall k | 0 <= k < |chunks| :: |chunks[k]| <= ReadBufferSize
  }

  /**
   * The buffer after a read of `data`: a fresh zeroed 1024-byte buffer whose
   * first |data| bytes were filled. The whole buffer is what gets appended.
   */
  function Buffer(data: string): (b: string)
    requires |data| <= ReadBufferSize
    ensures |b| == ReadBufferSize
  {
    data + seq(ReadBufferSize - |data|, _ => 0 as char)
  }

  /** The zero padding of a buffer neither makes nor hides an open-port notice. */
  lemma BufferKeepsMarker(data: string)
    requires |data| <= ReadBufferSize
    ensures Contains(Buffer(data), OpenMarker) <==> Contains(data, OpenMarker)
  {
    var b := Buffer(data);
    assert b[0..|data|] == data;
    forall k | |data| <= k < |b| ensures b[k] == 0 as char {
    }
    ContainsWindow(b, 0, |data|, 0 as char, OpenMarker);
  }

  /** The number of reads whose buffer holds an open-port notice. */
  function OpenCount(chunks: seq<string>): (n: nat)
    requires Fits(chunks)
    ensures n <= |chunks|
  {
    if |chunks| == 0 then 0
    else
      OpenCount(chunks[..|chunks| - 1])
        + (if Contains(Buffer(chunks[|chunks| - 1]), OpenMarker) then 1 else 0)
  }

  /** The text accumulated from the reads: every buffer, whole. */
  function Accumulated(chunks: seq<string>): (out: string)
    requires Fits(chunks)
    ensures |out| == ReadBufferSize * |chunks|
  {
    if |chunks| == 0 then ""
    else Accumulated(chunks[..|chunks| - 1]) + Buffer(chunks[|chunks| - 1])
  }

  predicate HasOpenMarker(data: string)
  {
    Contains(data, OpenMarker)
  }

  /**
   * The counter counts reads, not notices: it is the number of reads whose data
   * holds at least one open-port notice.
   */
  lemma {:induction false} OpenCountCountsReads(chunks: seq<string>)
    requires Fits(chunks)
    ensures OpenCount(chunks) == |Filter(chunks, HasOpenMarker)|
  {
    if |chunks| > 0 {
      var init := chunks[..|chunks| - 1];
      OpenCountCountsReads(init);
      BufferKeepsMarker(chunks[|chunks| - 1]);
    }
  }

  /**
   * The read loop: read into a fresh 1024-byte buffer, append the whole buffer,
   * count it when it holds an open-port notice, and stop after the read that
   * returned an error. `received` are the reads that returned no error and `last`
   * the one that did.
   */
  method DrainStdout(received: seq<string>, last: string) returns (n: nat, outTmp: string)
    requires Fits(received + [last])
    ensures n == OpenCount(received + [last])
    ensures outTmp == Accumulated(received + [last])
  {
    var chunks := received + [last];
    n, outTmp := 0, "";
    var i := 0;
    while true
      invariant 0 <= i < |chunks|
      invariant n == OpenCount(chunks[..i])
      invariant outTmp == Accumulated(chunks[..i])
      decreases |chunks| - i
    {
      var tmp := Buffer(chunks[i]);
      outTmp := outTmp + tmp;
      if Contains(tmp, OpenMarker) {
        n := n + 1;
      }
      assert chunks[..i + 1][..i] == chunks[..i];
      if i == |received| {
        break;
      }
      i := i + 1;
    }
    assert chunks[..i + 1] == chunks;
  }

  /** The stderr text as warnings: trimmed of newlines at both ends, split at each newline. */
  function Warnings(stderr: string): (warnings: seq<string>)
    ensures stderr == "" ==> warnings == []
    ensures stderr != "" ==> |warnings| >= 1 && Join(warnings, "\n") == Trim(stderr, '\n')
    ensures forall k | 0 <= k < |warnings| :: '\n' !in warnings[k]
  {
    if |stderr| > 0 then
      var text := Trim(stderr, '\n');
      JoinSplit(text, "\n");
      SplitPartsFree(text, "\n");
      PartsWithoutChar(Split(text, "\n"), '\n');
      Split(text, "\n")
    else
      []
  }

  /** analyzeWarnings: the out-of-memory error when any warning carries its marker. */
  function AnalyzeWarnings(warnings: seq<string>): (err: Option<ScanError>)
    ensures err.Some? <==> exists k | 0 <= k < |warnings| :: Contains(warnings[k], MallocMarker)
    ensures err.Some? ==> err.value == MallocFailed
  {
    if |warnings| == 0 then None
    else if Contains(warnings[0], MallocMarker) then Some(MallocFailed)
    else
      assert forall k | 1 <= k < |warnings| :: warnings[k] == warnings[1..][k - 1];
      AnalyzeWarnings(warnings[1..])
  }

  /** Where the marker sits in the warnings does not matter. */
  lemma AnalyzeWarningsOrderFree(a: seq<string>, b: seq<string>)
    requires multiset(a) == multiset(b)
    ensures AnalyzeWarnings(a) == AnalyzeWarnings(b)
  {
    if exists k | 0 <= k < |a| :: Contains(a[k], MallocMarker) {
      var k :| 0 <= k < |a| && Contains(a[k], MallocMarker);
      assert a[k] in multiset(b);
      var j :| 0 <= j < |b| && b[j] == a[k];
    }
    if exists k | 0 <= k < |b| :: Contains(b[k], MallocMarker) {
      var k :| 0 <= k < |b| && Contains(b[k], MallocMarker);
      assert b[k] in multiset(a);
      var j :| 0 <= j < |a| && a[j] == b[k];
    }
  }

  /**
   * From stderr to the out-of-memory error: the marker anywhere in the stderr
   * text, on any line, yields it, and nothing else does.
   */
  lemma MallocFoundAnywhere(stderr: string)
    ensures AnalyzeWarnings(Warnings(stderr)) == Some(MallocFailed) <==> Contains(stderr, MallocMarker)
  {
    if stderr == "" {
      assert !Contains(stderr, MallocMarker);
    } else {
      var text := Trim(stderr, '\n');
      assert '\n' !in MallocMarker;
      ContainsTrim(stderr, '\n', MallocMarker);
      JoinSplit(text, "\n");
      ContainsJoin(Split(text, "\n"), "\n", MallocMarker);
    }
  }

  /** A section of the output that determines the payload. */
  predicate Matches(segment: string)
  {
    Contains(segment, XmlDeclaration) || Contains(segment, NoOpenPortsNotice)
  }

  /**
   * The payload a matching section gives: an XML section without its first
   * byte (checked first), otherwise `synthesised`, the report made up when no
   * port is open.
   */
  function Extract(segment: string, synthesised: string): (payload: string)
    requires Matches(segment)
    ensures Contains(segment, XmlDeclaration) ==> |segment| > 0 && [segment[0]] + payload == segment
    ensures Contains(segment, XmlDeclaration) && !OccursAt(segment, XmlDeclaration, 0) ==>
              Contains(payload, XmlDeclaration)
    ensures !Contains(segment, XmlDeclaration) ==> payload == synthesised
  {
    if Contains(segment, XmlDeclaration) then
      ContainsDropFirst(segment, XmlDeclaration);
      segment[1..]
    else synthesised
  }

  /** What the section loop leaves in `out` after going through `segments`. */
  function Payload(segments: seq<string>, synthesised: string): (payload: string)
    ensures payload == "" || exists k | 0 <= k < |segments| :: Matches(segments[k]) && payload == Extract(segments[k], synthesised)
  {
    if |segments| == 0 then ""
    else
      var segment := segments[|segments| - 1];
      if Matches(segment) then Extract(segment, synthesised)
      else
        var init := segments[..|segments| - 1];
        assert forall j | 0 <= j < |init| :: init[j] == segments[j];
        Payload(init, synthesised)
  }

  /**
   * The last matching section alone decides the payload: that section without
   * its first byte when it holds an XML declaration, even if it also holds the
   * no-open-ports notice, and otherwise the synthesised report.
   */
  lemma {:induction false} PayloadIsLastMatch(segments: seq<string>, synthesised: string, k: int)
    requires 0 <= k < |segments| && Matches(segments[k])
    requires forall j | k < j < |segments| :: !Matches(segments[j])
    ensures Contains(segments[k], XmlDeclaration) ==>
              |segments[k]| >= |XmlDeclaration| && Payload(segments, synthesised) == segments[k][1..]
    ensures !Contains(segments[k], XmlDeclaration) ==> Payload(segments, synthesised) == synthesised
  {
    if k < |segments| - 1 {
      var init := segments[..|segments| - 1];
      assert forall j | k < j < |init| :: init[j] == segments[j];
      PayloadIsLastMatch(init, synthesised, k);
    }
  }

  /** Without a matching section the payload is empty. */
  lemma {:induction false} PayloadWithoutMatch(segments: seq<string>, synthesised: string)
    requires forall j | 0 <= j < |segments| :: !Matches(segments[j])
    ensures Payload(segments, synthesised) == ""
  {
    if |segments| > 0 {
      var init := segments[..|segments| - 1];
      assert forall j | 0 <= j < |init| :: init[j] == segments[j];
      PayloadWithoutMatch(init, synthesised);
    }
  }

  /** The payload chosen from the accumulated output, split at each "[~]". */
  function Selected(outTmp: string): (payload: string)
    ensures !Contains(outTmp, XmlDeclaration) && !Contains(outTmp, NoOpenPortsNotice) ==> payload == ""
    ensures !Contains(outTmp, XmlDeclaration) ==> payload == "" || payload == Structure()
  {
    PayloadFromOutput(outTmp, Structure());
    Payload(Split(outTmp, InfoDelimiter), Structure())
  }

  /**
   * A section holds whatever the whole output holds, so output without an XML
   * declaration yields at most the synthesised report, and output without
   * either marker yields nothing.
   */
  lemma PayloadFromOutput(outTmp: string, synthesised: string)
    ensures var payload := Payload(Split(outTmp, InfoDelimiter), synthesised);
            (!Contains(outTmp, XmlDeclaration) ==> payload == "" || payload == synthesised) &&
            (!Contains(outTmp, XmlDeclaration) && !Contains(outTmp, NoOpenPortsNotice) ==> payload == "")
  {
    hide Split, Join, Payload;
    var sections := Split(outTmp, InfoDelimiter);
    JoinSplit(outTmp, InfoDelimiter);
    ContainsJoin(sections, InfoDelimiter, XmlDeclaration);
    ContainsJoin(sections, InfoDelimiter, NoOpenPortsNotice);
    if !Contains(outTmp, XmlDeclaration) && !Contains(outTmp, NoOpenPortsNotice) {
      PayloadWithoutMatch(sections, synthesised);
    }
  }

  /** The section loop over the accumulated output. */
  method SelectPayload(outTmp: string) returns (out: string)
    ensures out == Selected(outTmp)
  {
    hide Structure;
    var sections := Split(outTmp, InfoDelimiter);
    out := "";
    for i := 0 to |sections|
      invariant out == Payload(sections[..i], Structure())
    {
      var info := sections[i];
      assert sections[..i + 1][..i] == sections[..i];
      if Contains(info, XmlDeclaration) {
        out := info[1..];
      } else if Contains(info, NoOpenPortsNotice) {
        out := Structure();
      }
    }
    assert sections[..|sections|] == sections;
  }
}
