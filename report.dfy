/**
 * The parsed scan report (the nmap XML schema, reduced to the fields the
 * bindings read) and the host and port filters that rewrite it in place.
 */
module Report {
  import opened Sequences

  datatype Service = Service(name: string)

  datatype Port = Port(id: nat, protocol: string, state: string, service: Service)

  datatype Host = Host(addresses: seq<string>, hostnames: seq<string>, ports: seq<Port>)

  /** Finish statistics; only the error message is read by the bindings. */
  datatype Finished = Finished(errorMsg: string)

  datatype Stats = Stats(finished: Finished)

  /** What the XML decoder produces for one report. */
  datatype RunData = RunData(hosts: seq<Host>, stats: Stats)

  /** The report object the scanner hands back; the filters overwrite its host list. */
  class NmapRun {
    var Hosts: seq<Host>
    var Stats: Stats

    constructor (data: RunData)
      ensures Hosts == data.hosts && Stats == data.stats
    {
      Hosts := data.hosts;
      Stats := data.stats;
    }
  }

  /** Each host with only the ports `keep` accepts, hosts kept in number and order. */
  function PortsFiltered(hosts: seq<Host>, keep: Port -> bool): (r: seq<Host>)
    ensures |r| == |hosts|
    ensures forall i | 0 <= i < |hosts| :: r[i] == hosts[i].(ports := Filter(hosts[i].ports, keep))
  {
    if |hosts| == 0 then []
    else
      var last := hosts[|hosts| - 1];
      PortsFiltered(hosts[..|hosts| - 1], keep) + [last.(ports := Filter(last.ports, keep))]
  }

  /** A port predicate that accepts everything leaves every host as it was. */
  lemma PortsFilteredKeepsAll(hosts: seq<Host>, keep: Port -> bool)
    requires forall p: Port :: keep(p)
    ensures PortsFiltered(hosts, keep) == hosts
  {
    var r := PortsFiltered(hosts, keep);
    forall i | 0 <= i < |hosts| ensures r[i] == hosts[i] {
      FilterKeepsAll(hosts[i].ports, keep);
    }
  }

  /** A port predicate that accepts nothing keeps every host, each with no ports. */
  lemma PortsFilteredDropsAll(hosts: seq<Host>, keep: Port -> bool)
    requires forall p: Port :: !keep(p)
    ensures |PortsFiltered(hosts, keep)| == |hosts|
    ensures forall i | 0 <= i < |hosts| :: PortsFiltered(hosts, keep)[i].ports == []
  {
    var r := PortsFiltered(hosts, keep);
    forall i | 0 <= i < |hosts| ensures r[i].ports == [] {
      FilterDropsAll(hosts[i].ports, keep);
    }
  }

  /** chooseHosts: keeps the accepted hosts, in order, in the same report object. */
  method ChooseHosts(result: NmapRun, filter: Host -> bool) returns (r: NmapRun)
    modifies result
    ensures r == result
    ensures result.Hosts == Filter(old(result.Hosts), filter)
    ensures result.Stats == old(result.Stats)
  {
    var filteredHosts := KeepMatching(result.Hosts, filter);
    result.Hosts := filteredHosts;
    r := result;
  }

  /** choosePorts: rewrites each host's ports in place to the accepted ones, in order. */
  method ChoosePorts(result: NmapRun, filter: Port -> bool) returns (r: NmapRun)
    modifies result
    ensures r == result
    ensures result.Hosts == PortsFiltered(old(result.Hosts), filter)
    ensures result.Stats == old(result.Stats)
  {
    ghost var hosts := result.Hosts;
    for idx := 0 to |result.Hosts|
      invariant |result.Hosts| == |hosts|
      invariant forall j | 0 <= j < idx :: result.Hosts[j] == hosts[j].(ports := Filter(hosts[j].ports, filter))
      invariant forall j | idx <= j < |hosts| :: result.Hosts[j] == hosts[j]
      invariant result.Stats == old(result.Stats)
    {
      var filteredPorts := KeepMatching(result.Hosts[idx].ports, filter);
      result.Hosts := result.Hosts[idx := result.Hosts[idx].(ports := filteredPorts)];
    }
    r := result;
  }
}
