/**
 The circuit object's containers as one value, and each builder operation of the
 circuit (get_gate_type, add_gate, add_net, add_gate_to_net, add_outnet_to_gate,
 add_output_edge, add_input_edge, and the gate statement of the netlist reader) as a
 function on that value. The lemmas say what each operation does to the lists, the
 name tables and the counters, and that each keeps the containers consistent.
 */
module Model {
  import opened Types
  import opened Graph
  import opened Tables

  /** gate_list, net_list, edge_map, gate_t, gate_type[] and net_type[]. */
  datatype Netlist = Netlist(gates: seq<Gate>, nets: seq<Net>, names: map<string, nat>,
                             types: map<string, nat>, gateCount: map<nat, int>,
                             netCount: map<NetType, int>)

  /** A circuit before anything is read. */
  const Empty: Netlist := Netlist([], [], map[], map[], map[], map[])

  /** The containers agree with each other: the lists are well formed, names denote distinct
      nets, type codes are dense and distinct, the counters count, and fan-ins count readers. */
  ghost predicate Consistent(s: Netlist) {
    && WellFormed(s.gates, s.nets)
    && NamesOk(s.names, |s.nets|)
    && IsRegistry(s.types)
    && NetCountsOk(s.netCount, s.nets)
    && GateCountsOk(s.gateCount, s.gates)
    && FanInOk(s.gates, s.nets)
  }

  /** Every bound name denotes an existing net (what the lookups of add_output_edge rely on). */
  ghost predicate NamesInRange(s: Netlist) {
    forall k :: k in s.names ==> s.names[k] < |s.nets|
  }

  /** The five category counters added up. */
  function NetTotal(m: map<NetType, int>): int {
    Tally(m, InputNet) + Tally(m, OutputNet) + Tally(m, InternalNet) + Tally(m, IoNet) + Tally(m, Hyperedge)
  }

  /** A bump of one counter moves the sum of the category counters by the same amount. */
  lemma NetTotalBump(m: map<NetType, int>, k: NetType, d: int)
    ensures NetTotal(Bump(m, k, d)) == NetTotal(m) + d
  {
    match k
    case InputNet =>
    case OutputNet =>
    case InternalNet =>
    case IoNet =>
    case Hyperedge =>
  }

  // ---------------------------------------------------------------------------
  // The operations

  /** get_gate_type: the code of a type name, registered under the next free code when new. */
  function GateType(s: Netlist, name: string): (Netlist, nat) {
    if name in s.types then (s, s.types[name])
    else (s.(types := s.types[name := |s.types|]), |s.types|)
  }

  /** add_gate: a fresh gate of the given type at the end of the gate list, counted. */
  function AddGate(s: Netlist, t: nat): (Netlist, nat) {
    var id := |s.gates|;
    (s.(gates := s.gates + [NewGate(id, t)], gateCount := Bump(s.gateCount, t, 1)), id)
  }

  /** add_net: the net bound to tag, or a fresh reader-less net of category t bound to it. */
  function AddNet(s: Netlist, t: NetType, tag: string): (r: (Netlist, nat))
    ensures tag in r.0.names && r.0.names[tag] == r.1
    ensures NamesInRange(s) ==> NamesInRange(r.0) && r.1 < |r.0.nets|
  {
    if tag in s.names then (s, s.names[tag])
    else
      var id := |s.nets|;
      (s.(names := s.names[tag := id], nets := s.nets + [Net(id, t, 0, None, [])],
          netCount := Bump(s.netCount, t, 1)), id)
  }

  /** Net n changes category to t, and the counters follow: `net_type[old]--, net_type[t]++`. */
  function Retype(s: Netlist, n: nat, t: NetType): Netlist
    requires n < |s.nets|
  {
    s.(nets := s.nets[n := s.nets[n].(ntype := t)],
       netCount := Bump(Bump(s.netCount, s.nets[n].ntype, -1), t, 1))
  }

  /** `net_list[n].gates.push_back(g)`, with no recategorisation. */
  function ListReader(s: Netlist, n: nat, g: nat): Netlist
    requires n < |s.nets|
  {
    s.(nets := s.nets[n := s.nets[n].(gates := s.nets[n].gates + [g])])
  }

  /** The assignment `gate_list[g].fan_in = k`. */
  function SetFanIn(s: Netlist, g: nat, k: nat): Netlist
    requires g < |s.gates|
  {
    s.(gates := s.gates[g := s.gates[g].(fanIn := k)])
  }

  /** add_gate_to_net: gate g becomes one more reader of net n and gains one fan-in;
      a net that already had a reader is recategorised as a hyperedge first. */
  function AddGateToNet(s: Netlist, n: nat, g: nat): Netlist
    requires n < |s.nets| && g < |s.gates|
  {
    var s1 := if s.nets[n].gates != [] then Retype(s, n, Hyperedge) else s;
    SetFanIn(ListReader(s1, n, g), g, s.gates[g].fanIn + 1)
  }

  /** add_outnet_to_gate: net n is appended to the nets gate g drives. */
  function AddOutnetToGate(s: Netlist, g: nat, n: nat): Netlist
    requires g < |s.gates|
  {
    s.(gates := s.gates[g := s.gates[g].(nets := s.gates[g].nets + [n])])
  }

  /** add_output_edge's recategorisation: an input net read by an output becomes an IO net. */
  function PromoteInput(s: Netlist, n: nat): Netlist
    requires n < |s.nets|
  {
    if s.nets[n].ntype == InputNet then Retype(s, n, IoNet) else s
  }

  /** `gate_list[g].in_nets.push_back(n)`. */
  function RecordInput(s: Netlist, g: nat, n: nat): Netlist
    requires g < |s.gates|
  {
    s.(gates := s.gates[g := s.gates[g].(inNets := s.gates[g].inNets + [n])])
  }

  /** `net_list[n].driving_gate = g`. */
  function Drive(s: Netlist, n: nat, g: nat): Netlist
    requires n < |s.nets|
  {
    s.(nets := s.nets[n := s.nets[n].(drivingGate := Some(g))])
  }

  /** add_output_edge after the name check: an OUTPUT gate of fan-in 1, the net of that name
      (created as an output net if new, turned from input into IO net if it was an input),
      the gate listed directly as one more reader of the net, and the net as the gate's input. */
  function OutputEdge(s: Netlist, name: string): (Netlist, nat, nat)
    requires NamesInRange(s)
  {
    var (s1, code) := GateType(s, "OUTPUT");
    var (s2, g) := AddGate(s1, code);
    var (s3, n) := AddNet(SetFanIn(s2, g, 1), OutputNet, name);
    (RecordInput(ListReader(PromoteInput(s3, n), n, g), g, n), g, n)
  }

  /** add_output_edge: -1 for an empty name, otherwise OutputEdge and 0. */
  function AddOutputEdge(s: Netlist, name: string): (Netlist, Status)
    requires NamesInRange(s)
  {
    if name == "" then (s, Failed) else (OutputEdge(s, name).0, Ok)
  }

  /** add_input_edge: -1 for an empty name; otherwise the name is bound to a new input net
      driven by a new INPUT gate, whether or not it named a net before. */
  function AddInputEdge(s: Netlist, name: string): (Netlist, Status) {
    if name == "" then (s, Failed)
    else
      var n, g := |s.nets|, |s.gates|;
      var s1 := s.(names := s.names[name := n], nets := s.nets + [Net(n, InputNet, 0, Some(g), [])]);
      var (s2, code) := GateType(s1, "INPUT");
      (s2.(gates := s2.gates + [NewGate(g, code).(nets := [n])],
           gateCount := Bump(s2.gateCount, code, 1),
           netCount := Bump(s2.netCount, InputNet, 1)), Ok)
  }

  /** One input of a gate statement: the net of that name (an internal net if new) gets gate g
      as a reader, and g records the net as an input. */
  function ReadInput(s: Netlist, g: nat, name: string): (r: Netlist)
    requires g < |s.gates| && NamesInRange(s)
    ensures |r.gates| == |s.gates| && NamesInRange(r)
  {
    var (s1, n) := AddNet(s, InternalNet, name);
    RecordInput(AddGateToNet(s1, n, g), g, n)
  }

  /** The inputs of a gate statement, left to right. */
  function ReadInputs(s: Netlist, g: nat, names: seq<string>): (r: Netlist)
    requires g < |s.gates| && NamesInRange(s)
    ensures |r.gates| == |s.gates| && NamesInRange(r)
    decreases |names|
  {
    if names == [] then s
    else ReadInput(ReadInputs(s, g, names[..|names| - 1]), g, names[|names| - 1])
  }

  /** Reading the first j + 1 names is reading the first j, then name j. */
  lemma ReadInputsStep(s: Netlist, g: nat, names: seq<string>, j: nat)
    requires g < |s.gates| && NamesInRange(s) && j < |names|
    ensures ReadInputs(s, g, names[..j + 1]) == ReadInput(ReadInputs(s, g, names[..j]), g, names[j])
  {
    assert names[..j + 1][..j] == names[..j];
  }

  /** The head of a gate statement `out = type(...)`: the output net (an internal net if new),
      a gate of that type driving it, and the net's driver set to that gate. */
  function GateHead(s: Netlist, out: string, typeName: string): (Netlist, nat)
    requires NamesInRange(s)
  {
    var (s1, onet) := AddNet(s, InternalNet, out);
    var (s2, code) := GateType(s1, typeName);
    var (s3, g) := AddGate(s2, code);
    (Drive(AddOutnetToGate(s3, g, onet), onet, g), g)
  }

  /** A whole gate statement `out = type(in_1, ..., in_k)`. */
  function GateStatement(s: Netlist, out: string, typeName: string, ins: seq<string>): (Netlist, nat)
    requires NamesInRange(s)
  {
    var (s1, g) := GateHead(s, out, typeName);
    (ReadInputs(s1, g, ins), g)
  }

  // ---------------------------------------------------------------------------
  // The containers stay consistent

  lemma EmptyConsistent()
    ensures Consistent(Empty)
  {
    assert NetCountsOk(map[], []) by {
      forall t: NetType
        ensures Tally(map[], t) == CountNetType([], t)
      {
      }
    }
  }

  lemma ConsistentNamesInRange(s: Netlist)
    requires Consistent(s)
    ensures NamesInRange(s)
  {
  }

  lemma GateTypeKeeps(s: Netlist, name: string)
    requires Consistent(s)
    ensures Consistent(GateType(s, name).0)
  {
    Register(s.types, name);
  }

  lemma AddGateKeeps(s: Netlist, t: nat)
    requires Consistent(s)
    ensures Consistent(AddGate(s, t).0)
  {
    var x := NewGate(|s.gates|, t);
    AppendGate(s.gates, s.nets, x);
    GateCountsAppend(s.gateCount, s.gates, x);
    FanInAppendGate(s.gates, s.nets, x);
  }

  lemma AddNetKeeps(s: Netlist, t: NetType, tag: string)
    requires Consistent(s)
    ensures Consistent(AddNet(s, t, tag).0)
  {
    if tag !in s.names {
      var x := Net(|s.nets|, t, 0, None, []);
      AppendNet(s.gates, s.nets, x);
      NamesBind(s.names, |s.nets|, tag);
      NetCountsAppend(s.netCount, s.nets, x);
      FanInAppendNet(s.gates, s.nets, x);
    }
  }

  lemma RetypeKeeps(s: Netlist, n: nat, t: NetType)
    requires Consistent(s) && n < |s.nets|
    ensures Consistent(Retype(s, n, t))
  {
    var nl' := Retype(s, n, t).nets;
    SameLinks(s.gates, s.nets, s.gates, nl');
    NetCountsMove(s.netCount, s.nets, nl', n);
    AllReadersSameGates(s.nets, nl');
    FanInSame(s.gates, s.nets, s.gates, nl');
  }

  /** Listing g as a reader of n and counting it in g's fan-in, the heart of add_gate_to_net. */
  lemma CountReaderKeeps(s: Netlist, n: nat, g: nat)
    requires Consistent(s) && n < |s.nets| && g < |s.gates|
    ensures Consistent(SetFanIn(ListReader(s, n, g), g, s.gates[g].fanIn + 1))
  {
    var nl' := ListReader(s, n, g).nets;
    var gl' := s.gates[g := s.gates[g].(fanIn := s.gates[g].fanIn + 1)];
    AddReader(s.gates, s.nets, n, g, s.nets[n].ntype);
    assert nl' == s.nets[n := s.nets[n].(ntype := s.nets[n].ntype, gates := s.nets[n].gates + [g])];
    SameLinks(s.gates, nl', gl', nl');
    GateCountsSame(s.gateCount, s.gates, gl');
    FanInAddReader(s.gates, s.nets, nl', n, g);
    NetCountsSame(s.netCount, s.nets, nl');
  }

  lemma AddGateToNetKeeps(s: Netlist, n: nat, g: nat)
    requires Consistent(s) && n < |s.nets| && g < |s.gates|
    ensures Consistent(AddGateToNet(s, n, g))
  {
    AddGateToNetSteps(s, n, g);
    if s.nets[n].gates != [] {
      var s1 := Retype(s, n, Hyperedge);
      RetypeKeeps(s, n, Hyperedge);
      CountReaderKeeps(s1, n, g);
      ConsistentSame(SetFanIn(ListReader(s1, n, g), g, s1.gates[g].fanIn + 1), AddGateToNet(s, n, g));
    } else {
      CountReaderKeeps(s, n, g);
      ConsistentSame(SetFanIn(ListReader(s, n, g), g, s.gates[g].fanIn + 1), AddGateToNet(s, n, g));
    }
  }

  /** add_gate_to_net as its two steps: the recategorisation, when the net already has a
      reader, then the reader entry with the fan-in increment. */
  lemma AddGateToNetSteps(s: Netlist, n: nat, g: nat)
    requires n < |s.nets| && g < |s.gates|
    ensures s.nets[n].gates != [] ==>
              var s1 := Retype(s, n, Hyperedge);
              AddGateToNet(s, n, g) == SetFanIn(ListReader(s1, n, g), g, s1.gates[g].fanIn + 1)
    ensures s.nets[n].gates == [] ==>
              AddGateToNet(s, n, g) == SetFanIn(ListReader(s, n, g), g, s.gates[g].fanIn + 1)
  {
  }

  lemma ConsistentSame(a: Netlist, b: Netlist)
    requires Consistent(a) && a == b
    ensures Consistent(b)
  {
  }

  lemma AddOutnetToGateKeeps(s: Netlist, g: nat, n: nat)
    requires Consistent(s) && g < |s.gates| && n < |s.nets|
    ensures Consistent(AddOutnetToGate(s, g, n))
  {
    var gl' := AddOutnetToGate(s, g, n).gates;
    AddOutNet(s.gates, s.nets, g, n);
    GateCountsSame(s.gateCount, s.gates, gl');
    FanInSame(s.gates, s.nets, gl', s.nets);
  }

  lemma RecordInputKeeps(s: Netlist, g: nat, n: nat)
    requires Consistent(s) && g < |s.gates| && n < |s.nets| && g in s.nets[n].gates
    ensures Consistent(RecordInput(s, g, n))
  {
    var gl' := RecordInput(s, g, n).gates;
    AddInNet(s.gates, s.nets, g, n);
    GateCountsSame(s.gateCount, s.gates, gl');
    FanInSame(s.gates, s.nets, gl', s.nets);
  }

  lemma DriveKeeps(s: Netlist, n: nat, g: nat)
    requires Consistent(s) && n < |s.nets| && g < |s.gates| && n in s.gates[g].nets
    ensures Consistent(Drive(s, n, g))
  {
    var nl' := Drive(s, n, g).nets;
    SetDriver(s.gates, s.nets, n, g);
    NetCountsSame(s.netCount, s.nets, nl');
    AllReadersSameGates(s.nets, nl');
    FanInSame(s.gates, s.nets, s.gates, nl');
  }

  /** The tail of add_output_edge on a gate nobody reads yet: its fan-in of 1 is the one
      listing it then gets. */
  lemma AttachOutputKeeps(s: Netlist, n: nat, g: nat)
    requires Consistent(s) && n < |s.nets| && g < |s.gates| && s.gates[g].fanIn == 0
    ensures Consistent(RecordInput(ListReader(SetFanIn(s, g, 1), n, g), g, n))
  {
    assert ListReader(SetFanIn(s, g, 1), n, g) == SetFanIn(ListReader(s, n, g), g, s.gates[g].fanIn + 1);
    CountReaderKeeps(s, n, g);
    RecordInputKeeps(ListReader(SetFanIn(s, g, 1), n, g), g, n);
  }

  lemma OutputEdgeKeeps(s: Netlist, name: string)
    requires Consistent(s)
    ensures NamesInRange(s) && Consistent(OutputEdge(s, name).0)
  {
    ConsistentNamesInRange(s);
    OutputEdgeSteps(s, name);
    var (s1, code) := GateType(s, "OUTPUT");
    GateTypeKeeps(s, "OUTPUT");
    var (s2, g) := AddGate(s1, code);
    AddGateKeeps(s1, code);
    var (s3, n) := AddNet(s2, OutputNet, name);
    AddNetKeeps(s2, OutputNet, name);
    var s4 := PromoteInput(s3, n);
    if s3.nets[n].ntype == InputNet {
      RetypeKeeps(s3, n, IoNet);
    }
    AttachOutputKeeps(s4, n, g);
    ConsistentSame(RecordInput(ListReader(SetFanIn(s4, g, 1), n, g), g, n), OutputEdge(s, name).0);
  }

  /** The non-empty branch of add_output_edge as its steps, with the fan-in of the new gate
      set after the net is found or added. */
  lemma OutputEdgeSteps(s: Netlist, name: string)
    requires NamesInRange(s)
    ensures var (s1, code) := GateType(s, "OUTPUT");
            var (s2, g) := AddGate(s1, code);
            var (s3, n) := AddNet(s2, OutputNet, name);
            && n < |s3.nets| && g < |s3.gates| && s3.gates[g].fanIn == 0
            && OutputEdge(s, name) == (RecordInput(ListReader(SetFanIn(PromoteInput(s3, n), g, 1), n, g), g, n), g, n)
  {
    var (s1, code) := GateType(s, "OUTPUT");
    var (s2, g) := AddGate(s1, code);
    var (s3, n) := AddNet(s2, OutputNet, name);
    assert AddNet(SetFanIn(s2, g, 1), OutputNet, name) == (SetFanIn(s3, g, 1), n);
    assert PromoteInput(SetFanIn(s3, g, 1), n) == SetFanIn(PromoteInput(s3, n), g, 1);
  }

  lemma AddOutputEdgeKeeps(s: Netlist, name: string)
    requires Consistent(s)
    ensures NamesInRange(s) && Consistent(AddOutputEdge(s, name).0)
  {
    if name != "" {
      OutputEdgeKeeps(s, name);
    }
  }

  lemma AddInputEdgeKeeps(s: Netlist, name: string)
    requires Consistent(s)
    ensures Consistent(AddInputEdge(s, name).0)
  {
    if name != "" {
      var n, g := |s.nets|, |s.gates|;
      var code := CodeOf(s.types, "INPUT");
      Register(s.types, "INPUT");
      var x := Net(n, InputNet, 0, Some(g), []);
      var y := NewGate(g, code).(nets := [n]);
      AppendInput(s.gates, s.nets, x, y);
      NamesBind(s.names, n, name);
      NetCountsAppend(s.netCount, s.nets, x);
      GateCountsAppend(s.gateCount, s.gates, y);
      FanInAppendGate(s.gates, s.nets, y);
      FanInAppendNet(s.gates + [y], s.nets, x);
    }
  }

  lemma ReadInputKeeps(s: Netlist, g: nat, name: string)
    requires Consistent(s) && g < |s.gates|
    ensures Consistent(ReadInput(s, g, name))
  {
    ConsistentNamesInRange(s);
    var (s1, n) := AddNet(s, InternalNet, name);
    AddNetKeeps(s, InternalNet, name);
    AddGateToNetKeeps(s1, n, g);
    AddGateToNetSteps(s1, n, g);
    RecordInputKeeps(AddGateToNet(s1, n, g), g, n);
    ConsistentSame(RecordInput(AddGateToNet(s1, n, g), g, n), ReadInput(s, g, name));
  }

  lemma {:induction false} ReadInputsKeeps(s: Netlist, g: nat, names: seq<string>)
    requires Consistent(s) && g < |s.gates|
    ensures Consistent(ReadInputs(s, g, names))
    decreases |names|
  {
    if names != [] {
      ReadInputsKeeps(s, g, names[..|names| - 1]);
      ReadInputKeeps(ReadInputs(s, g, names[..|names| - 1]), g, names[|names| - 1]);
    }
  }

  lemma GateHeadKeeps(s: Netlist, out: string, typeName: string)
    requires Consistent(s)
    ensures Consistent(GateHead(s, out, typeName).0)
    ensures GateHead(s, out, typeName).1 < |GateHead(s, out, typeName).0.gates|
  {
    var (s1, onet) := AddNet(s, InternalNet, out);
    AddNetKeeps(s, InternalNet, out);
    var (s2, code) := GateType(s1, typeName);
    GateTypeKeeps(s1, typeName);
    var (s3, g) := AddGate(s2, code);
    AddGateKeeps(s2, code);
    AddOutnetToGateKeeps(s3, g, onet);
    DriveKeeps(AddOutnetToGate(s3, g, onet), onet, g);
  }

  lemma GateStatementKeeps(s: Netlist, out: string, typeName: string, ins: seq<string>)
    requires Consistent(s)
    ensures Consistent(GateStatement(s, out, typeName, ins).0)
  {
    GateHeadKeeps(s, out, typeName);
    var (s1, g) := GateHead(s, out, typeName);
    ReadInputsKeeps(s1, g, ins);
  }

  // ---------------------------------------------------------------------------
  // What each operation does

  /** The five category counters of a consistent circuit add up to the number of nets. */
  lemma NetTotalCountsNets(s: Netlist)
    requires Consistent(s)
    ensures NetTotal(s.netCount) == |s.nets|
  {
    CountNetTypeTotal(s.nets);
  }

  /** get_gate_type hands out codes densely in first-seen order: a known name keeps its code
      and changes nothing, a new name gets the number of names seen so far, and no code of an
      earlier name ever changes. */
  lemma GateTypeCodes(s: Netlist, name: string)
    requires IsRegistry(s.types)
    ensures var (r, c) := GateType(s, name);
            && IsRegistry(r.types) && name in r.types && r.types[name] == c && c < |r.types|
            && (name in s.types ==> r == s)
            && (name !in s.types ==> c == |s.types| && |r.types| == |s.types| + 1)
            && (forall k :: k in s.types ==> k in r.types && r.types[k] == s.types[k])
            && r.(types := s.types) == s
  {
    Register(s.types, name);
  }

  /** add_net on a bound name changes nothing and returns its net; on a new name it appends a
      reader-less, undriven net of category t and delay 0, numbered by the count of nets so far,
      and counts it under t. Either way the name then denotes the returned net, and a second
      call with the same name changes nothing and returns the same net. */
  lemma AddNetEffect(s: Netlist, t: NetType, tag: string)
    ensures var (r, id) := AddNet(s, t, tag);
            && (tag in s.names ==> r == s && id == s.names[tag])
            && (tag !in s.names ==>
                  && id == |s.nets| && r.nets == s.nets + [Net(id, t, 0, None, [])]
                  && r.names == s.names[tag := id] && r.gates == s.gates && r.types == s.types
                  && r.gateCount == s.gateCount
                  && Tally(r.netCount, t) == Tally(s.netCount, t) + 1
                  && (forall u :: u != t ==> Tally(r.netCount, u) == Tally(s.netCount, u))
                  && NetTotal(r.netCount) == NetTotal(s.netCount) + 1)
            && r.names[tag] == id
            && AddNet(r, t, tag) == (r, id)
  {
  }

  /** add_gate_to_net lists g once more among n's readers and adds one to g's fan-in, and
      changes no other net or gate; n is a hyperedge afterwards exactly when it already had a
      reader or already was one; on that promotion the counter of n's old category goes down
      by one and the hyperedge counter up by one, otherwise no counter changes. */
  lemma AddGateToNetEffect(s: Netlist, n: nat, g: nat)
    requires n < |s.nets| && g < |s.gates|
    ensures var r := AddGateToNet(s, n, g);
            && |r.nets| == |s.nets| && |r.gates| == |s.gates|
            && r.nets[n] == s.nets[n].(ntype := if s.nets[n].gates != [] then Hyperedge else s.nets[n].ntype,
                                       gates := s.nets[n].gates + [g])
            && r.gates[g] == s.gates[g].(fanIn := s.gates[g].fanIn + 1)
            && (r.nets[n].ntype == Hyperedge <==> s.nets[n].gates != [] || s.nets[n].ntype == Hyperedge)
            && (forall i :: 0 <= i < |s.nets| && i != n ==> r.nets[i] == s.nets[i])
            && (forall i :: 0 <= i < |s.gates| && i != g ==> r.gates[i] == s.gates[i])
            && (s.nets[n].gates != [] ==> r.netCount == Bump(Bump(s.netCount, s.nets[n].ntype, -1), Hyperedge, 1))
            && (s.nets[n].gates == [] ==> r.netCount == s.netCount)
            && NetTotal(r.netCount) == NetTotal(s.netCount)
            && r.names == s.names && r.types == s.types && r.gateCount == s.gateCount
  {
    var x := s.nets[n];
    NetTotalBump(s.netCount, x.ntype, -1);
    NetTotalBump(Bump(s.netCount, x.ntype, -1), Hyperedge, 1);
  }

  /** add_output_edge on a non-empty name, gate side: one new gate, with fan-in 1 and the
      named net as its only input; no other gate changes. */
  lemma OutputEdgeGate(s: Netlist, name: string)
    requires NamesInRange(s)
    ensures var e := OutputEdge(s, name);
            && e.1 == |s.gates|
            && e.0.gates == s.gates + [NewGate(e.1, CodeOf(s.types, "OUTPUT")).(fanIn := 1, inNets := [e.2])]
  {
    var (s1, code) := GateType(s, "OUTPUT");
    var (s2, g) := AddGate(s1, code);
    AddNetEffect(SetFanIn(s2, g, 1), OutputNet, name);
    var (s3, n) := AddNet(SetFanIn(s2, g, 1), OutputNet, name);
    var s4 := ListReader(PromoteInput(s3, n), n, g);
    assert s4.gates == s3.gates == s2.gates[g := NewGate(g, code).(fanIn := 1)];
    assert s2.gates == s.gates + [NewGate(g, code)];
    var y := NewGate(g, code).(fanIn := 1, inNets := [n]);
    assert s4.gates[g].inNets + [n] == [n];
    assert (s.gates + [NewGate(g, code)])[g := y] == s.gates + [y];
  }

  /** add_output_edge registers the OUTPUT type if needed and counts one more gate of it. */
  lemma OutputEdgeType(s: Netlist, name: string)
    requires NamesInRange(s)
    ensures var e := OutputEdge(s, name);
            var code := CodeOf(s.types, "OUTPUT");
            && e.0.types == s.types["OUTPUT" := code]
            && e.0.gateCount == Bump(s.gateCount, code, 1)
  {
    var (s1, c) := GateType(s, "OUTPUT");
    var (s2, g) := AddGate(s1, c);
    assert s2.types == s1.types == s.types["OUTPUT" := c];
    assert s2.gateCount == Bump(s.gateCount, c, 1);
  }

  /** add_output_edge on a name that already denotes a net: that net keeps its driver, gets
      the new gate as one more reader without becoming a hyperedge, and changes category only
      from input to IO net, moving one count from the input-net to the IO-net counter; no
      other net changes. */
  lemma OutputEdgeKnownNet(s: Netlist, name: string)
    requires NamesInRange(s) && name in s.names
    ensures var e := OutputEdge(s, name);
            var n := s.names[name];
            && e.2 == n && e.0.names == s.names && |e.0.nets| == |s.nets|
            && e.0.nets[n] == s.nets[n].(ntype := if s.nets[n].ntype == InputNet then IoNet else s.nets[n].ntype,
                                         gates := s.nets[n].gates + [e.1])
            && (forall i :: 0 <= i < |s.nets| && i != n ==> e.0.nets[i] == s.nets[i])
            && (s.nets[n].ntype == InputNet ==> e.0.netCount == Bump(Bump(s.netCount, InputNet, -1), IoNet, 1))
            && (s.nets[n].ntype != InputNet ==> e.0.netCount == s.netCount)
            && NetTotal(e.0.netCount) == NetTotal(s.netCount)
  {
    OutputEdgeSteps(s, name);
    var (s1, code) := GateType(s, "OUTPUT");
    var (s2, g) := AddGate(s1, code);
    var (s3, n) := AddNet(s2, OutputNet, name);
    assert s3 == s2;
    if s3.nets[n].ntype == InputNet {
      NetTotalBump(s3.netCount, InputNet, -1);
      NetTotalBump(Bump(s3.netCount, InputNet, -1), IoNet, 1);
    }
  }

  /** add_output_edge on a new name: a new output net, bound to the name, undriven, with the
      new gate as its only reader, counted as an output net. */
  lemma OutputEdgeNewNet(s: Netlist, name: string)
    requires NamesInRange(s) && name !in s.names
    ensures var e := OutputEdge(s, name);
            && e.2 == |s.nets| && e.0.names == s.names[name := e.2]
            && e.0.nets == s.nets + [Net(e.2, OutputNet, 0, None, [e.1])]
            && e.0.netCount == Bump(s.netCount, OutputNet, 1)
            && NetTotal(e.0.netCount) == NetTotal(s.netCount) + 1
  {
    var (s1, code) := GateType(s, "OUTPUT");
    var (s2, g) := AddGate(s1, code);
    var (s3, n) := AddNet(SetFanIn(s2, g, 1), OutputNet, name);
    NetTotalBump(s.netCount, OutputNet, 1);
    var x := Net(n, OutputNet, 0, None, []);
    assert s3.nets == s.nets + [x];
    assert [] + [g] == [g];
    assert (s.nets + [x])[n := x.(gates := [] + [g])] == s.nets + [x.(gates := [g])];
  }

  /** add_input_edge on a non-empty name: a new input net bound to the name, driven by a new
      INPUT gate that drives nothing else; one more net, one more gate, one more input net and
      one more gate of the INPUT type. */
  lemma InputEdgeEffect(s: Netlist, name: string)
    requires name != ""
    ensures var (r, st) := AddInputEdge(s, name);
            var n, g, code := |s.nets|, |s.gates|, CodeOf(s.types, "INPUT");
            && st == Ok
            && r.names == s.names[name := n]
            && r.nets == s.nets + [Net(n, InputNet, 0, Some(g), [])]
            && r.gates == s.gates + [NewGate(g, code).(nets := [n])]
            && r.types == s.types["INPUT" := code]
            && Tally(r.gateCount, code) == Tally(s.gateCount, code) + 1
            && Tally(r.netCount, InputNet) == Tally(s.netCount, InputNet) + 1
            && NetTotal(r.netCount) == NetTotal(s.netCount) + 1
  {
    NetTotalBump(s.netCount, InputNet, 1);
  }

  /** add_input_edge rebinds a name that already denotes a net: the earlier net stays in the
      list, unchanged, but no name denotes it any more. */
  lemma InputEdgeRebinds(s: Netlist, name: string)
    requires NamesOk(s.names, |s.nets|) && name in s.names && name != ""
    ensures var r := AddInputEdge(s, name).0;
            var old_n := s.names[name];
            && r.names[name] == |s.nets| != old_n
            && old_n < |r.nets| && r.nets[old_n] == s.nets[old_n]
            && forall k :: k in r.names ==> r.names[k] != old_n
  {
    var old_n := s.names[name];
    assert old_n < |s.nets|;
    var r := AddInputEdge(s, name).0;
    assert r.names == s.names[name := |s.nets|];
    assert r.nets == s.nets + [Net(|s.nets|, InputNet, 0, Some(|s.gates|), [])];
  }

  /** r only adds to s where a gate statement can: names keep their nets, nets keep their
      drivers and readers, new nets may follow, and the type registry is untouched. */
  ghost predicate Extends(s: Netlist, r: Netlist) {
    && (forall k :: k in s.names ==> k in r.names && r.names[k] == s.names[k])
    && |r.nets| >= |s.nets|
    && (forall i :: 0 <= i < |s.nets| ==> r.nets[i].drivingGate == s.nets[i].drivingGate)
    && (forall i, x :: 0 <= i < |s.nets| && x in s.nets[i].gates ==> x in r.nets[i].gates)
    && r.types == s.types
  }

  /** The nets the names denote, in order. */
  function NetsOf(m: map<string, nat>, names: seq<string>): seq<nat>
    requires forall j :: 0 <= j < |names| ==> names[j] in m
  {
    seq(|names|, j requires 0 <= j < |names| => m[names[j]])
  }

  /** Reading one input of a gate statement: the name then denotes a net that g reads and has
      as its last input; g gains one fan-in; no other gate changes. */
  lemma ReadInputEffect(s: Netlist, g: nat, name: string)
    requires g < |s.gates| && NamesInRange(s)
    ensures var r := ReadInput(s, g, name);
            && Extends(s, r)
            && name in r.names && g in r.nets[r.names[name]].gates
            && r.gates[g] == s.gates[g].(fanIn := s.gates[g].fanIn + 1, inNets := s.gates[g].inNets + [r.names[name]])
            && (forall i :: 0 <= i < |s.gates| && i != g ==> r.gates[i] == s.gates[i])
  {
    var (s1, n) := AddNet(s, InternalNet, name);
    AddNetEffect(s, InternalNet, name);
    var s2 := AddGateToNet(s1, n, g);
    AddGateToNetEffect(s1, n, g);
    var r := RecordInput(s2, g, n);
    assert r == ReadInput(s, g, name);
    assert r.nets == s2.nets && r.names == s1.names && r.types == s.types;
  }

  /** Reading one input: names keep their nets, the name is bound, and its net is g's last input. */
  lemma ReadInputNames(s: Netlist, g: nat, name: string)
    requires g < |s.gates| && NamesInRange(s)
    ensures var r := ReadInput(s, g, name);
            && (forall k :: k in s.names ==> k in r.names && r.names[k] == s.names[k])
            && name in r.names
            && r.gates[g].inNets == s.gates[g].inNets + [r.names[name]]
  {
    var (s1, n) := AddNet(s, InternalNet, name);
    AddGateToNetEffect(s1, n, g);
  }

  /** Reading the inputs binds every one of their names. */
  lemma {:induction false} ReadInputsBind(s: Netlist, g: nat, ins: seq<string>)
    requires g < |s.gates| && NamesInRange(s)
    ensures forall j :: 0 <= j < |ins| ==> ins[j] in ReadInputs(s, g, ins).names
    decreases |ins|
  {
    if ins != [] {
      var init, last := ins[..|ins| - 1], ins[|ins| - 1];
      assert ins == init + [last];
      ReadInputsBind(s, g, init);
      ReadInputNames(ReadInputs(s, g, init), g, last);
    }
  }

  lemma NetsOfSnoc(m1: map<string, nat>, m2: map<string, nat>, init: seq<string>, last: string)
    requires forall j :: 0 <= j < |init| ==> init[j] in m1 && init[j] in m2 && m2[init[j]] == m1[init[j]]
    requires last in m2
    ensures NetsOf(m2, init + [last]) == NetsOf(m1, init) + [m2[last]]
  {
  }

  /** Reading the inputs of a gate statement: each name denotes a net that g reads, and g's
      fan-in grows by their number; no other gate changes. */
  lemma {:induction false} ReadInputsExtend(s: Netlist, g: nat, ins: seq<string>)
    requires g < |s.gates| && NamesInRange(s)
    ensures var r := ReadInputs(s, g, ins);
            && Extends(s, r)
            && (forall j :: 0 <= j < |ins| ==> ins[j] in r.names && g in r.nets[r.names[ins[j]]].gates)
            && r.gates[g] == s.gates[g].(fanIn := s.gates[g].fanIn + |ins|, inNets := r.gates[g].inNets)
            && (forall i :: 0 <= i < |s.gates| && i != g ==> r.gates[i] == s.gates[i])
    decreases |ins|
  {
    if ins != [] {
      var init := ins[..|ins| - 1];
      assert ins == init + [ins[|ins| - 1]];
      var m := ReadInputs(s, g, init);
      ReadInputsExtend(s, g, init);
      ReadInputEffect(m, g, ins[|ins| - 1]);
      var r := ReadInputs(s, g, ins);
      forall j | 0 <= j < |ins|
        ensures ins[j] in r.names && g in r.nets[r.names[ins[j]]].gates
      {
        if j < |init| {
          assert ins[j] == init[j];
        }
      }
    }
  }

  /** Reading the inputs of a gate statement appends the nets the names denote, in order,
      to g's inputs. */
  lemma {:induction false} ReadInputsNets(s: Netlist, g: nat, ins: seq<string>)
    requires g < |s.gates| && NamesInRange(s)
    ensures forall j :: 0 <= j < |ins| ==> ins[j] in ReadInputs(s, g, ins).names
    ensures ReadInputs(s, g, ins).gates[g].inNets == s.gates[g].inNets + NetsOf(ReadInputs(s, g, ins).names, ins)
    decreases |ins|
  {
    ReadInputsBind(s, g, ins);
    if ins == [] {
      assert s.gates[g].inNets + [] == s.gates[g].inNets;
    } else {
      var init, last := ins[..|ins| - 1], ins[|ins| - 1];
      assert ins == init + [last];
      ReadInputsNets(s, g, init);
      var m := ReadInputs(s, g, init);
      ReadInputNames(m, g, last);
      NetsOfSnoc(m.names, ReadInputs(s, g, ins).names, init, last);
    }
  }

  /** The head of a gate statement: one new gate of the named type, driving exactly the net
      named out and recorded as its driver. */
  lemma GateHeadEffect(s: Netlist, out: string, typeName: string)
    requires NamesInRange(s)
    ensures var (r, g) := GateHead(s, out, typeName);
            var code := CodeOf(s.types, typeName);
            && g == |s.gates| && r.gates == s.gates + [NewGate(g, code).(nets := [r.names[out]])]
            && r.types == s.types[typeName := code]
            && (forall k :: k in s.names ==> k in r.names && r.names[k] == s.names[k])
            && out in r.names && r.nets[r.names[out]].drivingGate == Some(g)
            && NamesInRange(r)
  {
    var (s1, onet) := AddNet(s, InternalNet, out);
    AddNetEffect(s, InternalNet, out);
    assert s1.gates == s.gates && s1.types == s.types && onet < |s1.nets| && out in s1.names;
    var (s2, code) := GateType(s1, typeName);
    assert s2 == s1.(types := s.types[typeName := code]) && code == CodeOf(s.types, typeName);
    var (s3, g) := AddGate(s2, code);
    assert g == |s.gates| && s3.gates == s.gates + [NewGate(g, code)];
    assert s3.nets == s1.nets && s3.names == s1.names && s3.types == s2.types;
    var s4 := AddOutnetToGate(s3, g, onet);
    var y := NewGate(g, code).(nets := [onet]);
    assert [] + [onet] == [onet];
    assert (s.gates + [NewGate(g, code)])[g := y] == s.gates + [y];
    assert s4 == s3.(gates := s.gates + [y]);
    var r := Drive(s4, onet, g);
    assert r == s4.(nets := s1.nets[onet := s1.nets[onet].(drivingGate := Some(g))]);
  }

  /** A gate statement `out = type(in_1, ..., in_k)`: one new gate of that type, driving
      exactly the net named out and recorded as its driver, reading the nets named
      in_1 .. in_k in that order, with fan-in k; no existing name is rebound and no other
      gate changes. */
  lemma GateStatementEffect(s: Netlist, out: string, typeName: string, ins: seq<string>)
    requires NamesInRange(s)
    ensures var (r, g) := GateStatement(s, out, typeName, ins);
            && g == |s.gates| && |r.gates| == g + 1 && r.gates[..g] == s.gates
            && r.types == s.types[typeName := CodeOf(s.types, typeName)]
            && r.gates[g].gtype == CodeOf(s.types, typeName)
            && out in r.names && r.gates[g].nets == [r.names[out]]
            && r.nets[r.names[out]].drivingGate == Some(g)
            && r.gates[g].fanIn == |ins|
            && (forall j :: 0 <= j < |ins| ==> ins[j] in r.names && g in r.nets[r.names[ins[j]]].gates)
            && r.gates[g].inNets == NetsOf(r.names, ins)
            && (forall k :: k in s.names ==> k in r.names && r.names[k] == s.names[k])
  {
    GateHeadEffect(s, out, typeName);
    var (s1, g) := GateHead(s, out, typeName);
    ReadInputsExtend(s1, g, ins);
    ReadInputsNets(s1, g, ins);
    var r := ReadInputs(s1, g, ins);
    assert r.gates[..g] == s1.gates[..g] == s.gates;
    assert s1.gates[g].inNets == [];
  }

  // ---------------------------------------------------------------------------
  // Fan-out

  /** The fan-out pass touches nothing but fan-outs, so it keeps the containers consistent. */
  lemma FanOutKeeps(s: Netlist)
    requires Consistent(s)
    ensures Consistent(s.(gates := FannedOut(s.gates, s.nets)))
  {
    var gl' := FannedOut(s.gates, s.nets);
    SameLinks(s.gates, s.nets, gl', s.nets);
    GateCountsSame(s.gateCount, s.gates, gl');
    FanInSame(s.gates, s.nets, gl', s.nets);
  }

  /** The fan-out pass adds to the fan-outs rather than assigning them: a second pass leaves
      them as the first left them exactly when every gate has a multiple of 2^32
      (driven net, reader) pairs, which in practice means none at all. */
  lemma FanOutTwice(gl: seq<Gate>, nl: seq<Net>)
    ensures FannedOut(FannedOut(gl, nl), nl) == FannedOut(gl, nl)
        <==> forall i :: 0 <= i < |gl| ==> |Succs(gl, nl, i)| % TWO_32 == 0
  {
    var once := FannedOut(gl, nl);
    var twice := FannedOut(once, nl);
    forall i | 0 <= i < |gl|
      ensures twice[i] == once[i] <==> |Succs(gl, nl, i)| % TWO_32 == 0
    {
      Add32Fixed(once[i].fanOut, |Succs(gl, nl, i)|);
    }
    if forall i :: 0 <= i < |gl| ==> |Succs(gl, nl, i)| % TWO_32 == 0 {
      assert twice == once;
    }
  }

  /** On gates fresh from add_gate or add_input_edge the pass sets each fan-out to the number
      of (driven net, reader) pairs, modulo 2^32. */
  lemma FanOutFresh(gl: seq<Gate>, nl: seq<Net>, i: nat)
    requires i < |gl| && gl[i].fanOut == 0
    ensures FannedOut(gl, nl)[i].fanOut == |Succs(gl, nl, i)| % TWO_32
  {
  }
}
