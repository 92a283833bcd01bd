/**
 The circuit object: its containers as fields, the builder methods the netlist reader
 calls, and the passes run once the netlist is read (fan-out, topological sort, arrival
 times, slacks). Each builder is proved to leave the object in the state the matching
 function of Model computes, so everything proved there about the functions holds of the
 object; each pass is proved against its specification in Graph or Timing.
 */
module Netlist {
  import opened Types
  import opened Graph
  import opened Tables
  import opened Timing
  import opened SameType
  import Model

  /** A scan of the table for an entry whose value is id: its key, or "" when there is none. */
  method KeyFor(m: map<string, nat>, id: nat) returns (key: string)
    ensures KeyOf(m, id, key)
  {
    var rest := m.Keys;
    while rest != {}
      invariant rest <= m.Keys
      invariant forall k :: k in m && k !in rest ==> m[k] != id
      decreases rest
    {
      var k :| k in rest;
      if m[k] == id {
        return k;
      }
      rest := rest - {k};
    }
    return "";
  }

  class Circuit {
    var gateList: seq<Gate>
    var netList: seq<Net>
    /** Net name to net id. */
    var edgeMap: map<string, nat>
    /** Gate-type name to type code. */
    var gateT: map<string, nat>
    /** Type code to number of gates of that type. */
    var gateType: map<nat, int>
    /** Net category to number of nets of that category. */
    var netType: map<NetType, int>
    /** Type code to number of gates of that type driving a gate of their own type. */
    var sameFanout: map<nat, int>
    /** Type code to number of gates of that type driven by a gate of their own type. */
    var sameFanin: map<nat, int>

    /** The containers as one value. */
    function State(): Model.Netlist
      reads this
    {
      Model.Netlist(gateList, netList, edgeMap, gateT, gateType, netType)
    }

    /** A circuit before anything is read. */
    constructor ()
      ensures State() == Model.Empty && sameFanout == map[] && sameFanin == map[]
    {
      gateList := [];
      netList := [];
      edgeMap := map[];
      gateT := map[];
      gateType := map[];
      netType := map[];
      sameFanout := map[];
      sameFanin := map[];
    }

    // -------------------------------------------------------------------------
    // Type names and net names

    /** get_gate_type. */
    method GetGateType(name: string) returns (code: nat)
      modifies this`gateT
      ensures (State(), code) == Model.GateType(old(State()), name)
    {
      var size := |gateT|;
      if name !in gateT {
        gateT := gateT[name := size];
      }
      code := gateT[name];
    }

    /** get_gate_name: a name registered under the code, or "" when none is. */
    method GateName(code: nat) returns (name: string)
      ensures KeyOf(gateT, code, name)
    {
      name := KeyFor(gateT, code);
    }

    /** get_edge_name: a name bound to the net, or "" when none is. */
    method EdgeName(id: nat) returns (name: string)
      ensures KeyOf(edgeMap, id, name)
    {
      name := KeyFor(edgeMap, id);
    }

    // -------------------------------------------------------------------------
    // Building the graph

    /** add_gate. */
    method AddGate(t: nat) returns (id: nat)
      modifies this`gateList, this`gateType
      ensures (State(), id) == Model.AddGate(old(State()), t)
    {
      id := |gateList|;
      gateList := gateList + [NewGate(id, t)];
      gateType := Bump(gateType, t, 1);
    }

    /** add_net. */
    method AddNet(t: NetType, tag: string) returns (id: nat)
      modifies this`netList, this`netType, this`edgeMap
      ensures (State(), id) == Model.AddNet(old(State()), t, tag)
    {
      if tag !in edgeMap {
        id := |netList|;
        edgeMap := edgeMap[tag := id];
        netList := netList + [Net(id, t, 0, None, [])];
        netType := Bump(netType, t, 1);
      } else {
        id := edgeMap[tag];
      }
    }

    /** add_gate_to_net. */
    method AddGateToNet(netId: nat, gateId: nat)
      requires netId < |netList| && gateId < |gateList|
      modifies this`netList, this`netType, this`gateList
      ensures State() == Model.AddGateToNet(old(State()), netId, gateId)
    {
      if netList[netId].gates != [] {
        netType := Bump(netType, netList[netId].ntype, -1);
        netList := netList[netId := netList[netId].(ntype := Hyperedge)];
        netType := Bump(netType, Hyperedge, 1);
      }
      netList := netList[netId := netList[netId].(gates := netList[netId].gates + [gateId])];
      gateList := gateList[gateId := gateList[gateId].(fanIn := gateList[gateId].fanIn + 1)];
    }

    /** add_outnet_to_gate. */
    method AddOutnetToGate(gateId: nat, netId: nat)
      requires gateId < |gateList|
      modifies this`gateList
      ensures State() == Model.AddOutnetToGate(old(State()), gateId, netId)
    {
      gateList := gateList[gateId := gateList[gateId].(nets := gateList[gateId].nets + [netId])];
    }

    /** add_output_edge. */
    method AddOutputEdge(name: string) returns (r: Status)
      requires Model.NamesInRange(State())
      modifies this`gateList, this`netList, this`edgeMap, this`gateT, this`gateType, this`netType
      ensures (State(), r) == Model.AddOutputEdge(old(State()), name)
    {
      if name == "" {
        return Failed;
      }
      var code := GetGateType("OUTPUT");
      var g := AddGate(code);
      gateList := gateList[g := gateList[g].(fanIn := 1)];
      ghost var s2 := State();
      var n := AddNet(OutputNet, name);
      ghost var s3 := State();
      if netList[n].ntype == InputNet {
        netList := netList[n := netList[n].(ntype := IoNet)];
        netType := Bump(netType, InputNet, -1);
        netType := Bump(netType, IoNet, 1);
      }
      assert State() == Model.PromoteInput(s3, n);
      netList := netList[n := netList[n].(gates := netList[n].gates + [g])];
      gateList := gateList[g := gateList[g].(inNets := gateList[g].inNets + [n])];
      r := Ok;
    }

    /** add_input_edge. */
    method AddInputEdge(name: string) returns (r: Status)
      modifies this`gateList, this`netList, this`edgeMap, this`gateT, this`gateType, this`netType
      ensures (State(), r) == Model.AddInputEdge(old(State()), name)
    {
      if name == "" {
        return Failed;
      }
      var n, g := |netList|, |gateList|;
      edgeMap := edgeMap[name := n];
      netList := netList + [Net(n, InputNet, 0, Some(g), [])];
      var code := GetGateType("INPUT");
      gateList := gateList + [NewGate(g, code).(nets := [n])];
      gateType := Bump(gateType, code, 1);
      netType := Bump(netType, InputNet, 1);
      r := Ok;
    }

    /** The gate-statement branch of the netlist reader, `out = type(in_1, ..., in_k)`. */
    method AddGateStatement(out: string, typeName: string, ins: seq<string>) returns (g: nat)
      requires Model.NamesInRange(State())
      modifies this`gateList, this`netList, this`edgeMap, this`gateT, this`gateType, this`netType
      ensures (State(), g) == Model.GateStatement(old(State()), out, typeName, ins)
    {
      g := AddGateHead(out, typeName);
      var j := 0;
      ghost var head := State();
      while j < |ins|
        invariant 0 <= j <= |ins|
        invariant g < |head.gates| && Model.NamesInRange(head)
        invariant State() == Model.ReadInputs(head, g, ins[..j])
        invariant g < |gateList| && Model.NamesInRange(State())
      {
        AddGateInput(g, ins[j]);
        Model.ReadInputsStep(head, g, ins, j);
        j := j + 1;
      }
      assert ins[..j] == ins;
    }

    /** The output net of a gate statement, the gate, and the net's driver. */
    method AddGateHead(out: string, typeName: string) returns (g: nat)
      requires Model.NamesInRange(State())
      modifies this`gateList, this`netList, this`edgeMap, this`gateT, this`gateType, this`netType
      ensures (State(), g) == Model.GateHead(old(State()), out, typeName)
      ensures g < |gateList| && Model.NamesInRange(State())
    {
      var onet := AddNet(InternalNet, out);
      var code := GetGateType(typeName);
      g := AddGate(code);
      AddOutnetToGate(g, onet);
      netList := netList[onet := netList[onet].(drivingGate := Some(g))];
    }

    /** One input net of a gate statement. */
    method AddGateInput(g: nat, name: string)
      requires g < |gateList| && Model.NamesInRange(State())
      modifies this`gateList, this`netList, this`edgeMap, this`gateT, this`gateType, this`netType
      ensures State() == Model.ReadInput(old(State()), g, name)
      ensures g < |gateList| && Model.NamesInRange(State())
    {
      var innet := AddNet(InternalNet, name);
      AddGateToNet(innet, g);
      gateList := gateList[g := gateList[g].(inNets := gateList[g].inNets + [innet])];
    }

    // -------------------------------------------------------------------------
    // Fan-out

    /** update_fan_out: adds to each gate's fan-out the sizes of the reader lists of the nets
        it drives, wrapping at 2^32. */
    method UpdateFanOut()
      requires forall p, n :: 0 <= p < |gateList| && n in gateList[p].nets ==> n < |netList|
      modifies this`gateList
      ensures gateList == FannedOut(old(gateList), netList)
    {
      ghost var gl := gateList;
      var i := 0;
      while i < |gateList|
        invariant 0 <= i <= |gateList| == |gl|
        invariant forall g :: 0 <= g < i ==> gateList[g] == FannedOut(gl, netList)[g]
        invariant forall g :: i <= g < |gateList| ==> gateList[g] == gl[g]
      {
        var f := AddReaderCounts(netList, gateList[i].nets, gateList[i].fanOut);
        gateList := gateList[i := gateList[i].(fanOut := f)];
        i := i + 1;
      }
    }

    // -------------------------------------------------------------------------
    // Same-type statistics

    /** update_same_faninout: after registering "INPUT" and "OUTPUT", adds to the count of
        each type the gates of that type that drive (same_fanout) or are driven by
        (same_fanin) a gate of their own type, INPUT and OUTPUT gates excepted as drivers. */
    method UpdateSameFanInOut()
      requires Wired(gateList, netList) && forall i :: 0 <= i < |gateList| ==> gateList[i].id == i
      modifies this`gateT, this`sameFanout, this`sameFanin
      ensures var reg := old(gateT)["INPUT" := CodeOf(old(gateT), "INPUT")];
              var inT, outT := CodeOf(old(gateT), "INPUT"), CodeOf(reg, "OUTPUT");
              && gateT == reg["OUTPUT" := outT]
              && (forall t :: Tally(sameFanout, t) == Tally(old(sameFanout), t) + MarkedOfType(gateList, DriveFlags(gateList, netList, inT, outT), t))
              && (forall t :: Tally(sameFanin, t) == Tally(old(sameFanin), t) + MarkedOfType(gateList, FedFlags(gateList, netList, inT, outT), t))
    {
      var inT := GetGateType("INPUT");
      var outT := GetGateType("OUTPUT");
      var fin, fout := MarkSameType(gateList, netList, inT, outT);
      sameFanout, sameFanin := AddMarked(sameFanout, sameFanin, gateList, fout, fin);
    }

    // -------------------------------------------------------------------------
    // Topological sort

    /** topo_sort: Kahn's algorithm over a private copy of the fan-ins, with a FIFO queue.
        A non-empty slist is refused. Otherwise the gates are listed in dequeue order, each
        at most once, and the result is Ok exactly when every gate was listed. When the
        fan-ins count the driver-to-reader edges, the list is a topological order, and a
        failure means a set of gates that all wait on each other: no topological order lists
        every gate. */
    method TopoSort(slist: seq<nat>) returns (r: Status, order: seq<nat>)
      requires Wired(gateList, netList)
      ensures slist != [] ==> r == Failed && order == slist
      ensures slist == [] ==> (r == Ok || r == Failed) && (r == Ok <==> |order| == |gateList|)
      ensures slist == [] ==> NoDup(order) && forall x :: x in order ==> x < |gateList|
      ensures slist == [] && r == Ok ==> Complete(|gateList|, order)
      ensures slist == [] && FanInMatchesEdges(gateList, SuccTable(gateList, netList)) ==>
                IsTopoOrder(SuccTable(gateList, netList), order)
      ensures slist == [] && r == Failed && FanInMatchesEdges(gateList, SuccTable(gateList, netList)) ==>
                StuckSet(SuccTable(gateList, netList), Unsorted(|gateList|, order))
                && forall o :: IsTopoOrder(SuccTable(gateList, netList), o) ==> !Complete(|gateList|, o)
    {
      if slist != [] {
        return Failed, slist;
      }
      var gl, nl := gateList, netList;
      ghost var T := SuccTable(gl, nl);
      var n := |gl|;
      var fanin := new int[n];
      var queue: seq<nat> := [];
      var i := 0;
      while i < |gl|
        invariant 0 <= i <= n == |gl| == fanin.Length
        invariant forall g :: 0 <= g < i ==> fanin[g] == gl[g].fanIn
        invariant NoDup(queue) && forall x :: x in queue ==> x < i
        invariant forall g :: 0 <= g < i ==> (g in queue <==> gl[g].fanIn == 0)
      {
        fanin[i] := gl[i].fanIn;
        if gl[i].fanIn == 0 {
          NoDupAppend(queue, [i]);
          queue := queue + [i];
        }
        i := i + 1;
      }
      order := [];
      SortingStart(gl, T, fanin[..], queue);
      while queue != []
        invariant n == |gl| == fanin.Length
        invariant Sorting(gl, T, fanin[..], order, queue)
        decreases n - |order|
      {
        var node := queue[0];
        ghost var before := fanin[..];
        ghost var q := queue;
        ghost var prev := order;
        assert node in q;
        queue := queue[1..];
        order := order + [node];
        forall n, x | n in gl[node].nets && x in nl[n].gates
          ensures x < fanin.Length
        {
        }
        var ready := Release(fanin, nl, gl[node].nets);
        queue := queue + ready;
        SortingStep(gl, T, before, prev, q, fanin[..], ready);
      }
      SortingDone(gl, T, fanin[..], order);
      r := if |order| == n then Ok else Failed;
      if r == Failed && FanInMatchesEdges(gl, T) {
        forall o | IsTopoOrder(T, o)
          ensures !Complete(n, o)
        {
          StuckExcludesOrder(T, Unsorted(n, order), o);
        }
      }
    }

    // -------------------------------------------------------------------------
    // Timing

    /** update_arrival_time: -1 for an empty list, leaving max_at (maxAt0) alone; otherwise
        the forward sweep of Timing, from max_at = 0, after registering "INPUT". */
    method UpdateArrivalTime(order: seq<nat>, maxAt0: u32) returns (r: Status, maxAt: u32)
      requires ArrivalReady(gateList, netList, order, CodeOf(gateT, "INPUT"))
      modifies this`gateList, this`gateT
      ensures order == [] ==> r == Failed && maxAt == maxAt0 && gateList == old(gateList) && gateT == old(gateT)
      ensures order != [] ==>
                && gateT == old(gateT)["INPUT" := CodeOf(old(gateT), "INPUT")]
                && Arrival(r, gateList, maxAt) == ArrivalRun(old(gateList), netList, order, CodeOf(old(gateT), "INPUT"))
    {
      if order == [] {
        return Failed, maxAt0;
      }
      var inType := GetGateType("INPUT");
      r, gateList, maxAt := ArrivalSweep(gateList, netList, order, inType);
    }

    /** update_slack: -1 for an empty list; otherwise the backward sweep of Timing, with
        required time maxRt at the OUTPUT gates, after registering "OUTPUT". */
    method UpdateSlack(order: seq<nat>, maxRt: u32) returns (r: Status)
      requires SlackReady(gateList, netList, order)
      requires forall id, n :: id in order && n in gateList[id].nets ==> n < |netList|
      modifies this`gateList, this`gateT
      ensures order == [] ==> r == Failed && gateList == old(gateList) && gateT == old(gateT)
      ensures order != [] ==>
                && gateT == old(gateT)["OUTPUT" := CodeOf(old(gateT), "OUTPUT")]
                && Slack(r, gateList) == SlackRun(old(gateList), netList, order, CodeOf(old(gateT), "OUTPUT"), maxRt)
    {
      if order == [] {
        return Failed;
      }
      var outType := GetGateType("OUTPUT");
      r, gateList := SlackSweep(gateList, netList, order, outType, maxRt);
    }
  }

  // ---------------------------------------------------------------------------
  // The loops of the passes, over the values of the containers

  /** The inner loop of update_fan_out: f plus the reader counts of the nets, one net at a
      time, each addition wrapping at 2^32. */
  method AddReaderCounts(nl: seq<Net>, nets: seq<nat>, f: u32) returns (f': u32)
    requires forall n :: n in nets ==> n < |nl|
    ensures f' == Add32(f, |ReadersOf(nl, nets)|)
  {
    f' := f;
    var k := 0;
    while k < |nets|
      invariant 0 <= k <= |nets|
      invariant f' == Add32(f, |ReadersOf(nl, nets[..k])|)
    {
      assert nets[k] in nets;
      AddReaderCountsStep(nl, nets, k, f);
      f' := Add32(f', |nl[nets[k]].gates|);
      k := k + 1;
    }
    assert nets[..k] == nets;
  }

  /** One step of AddReaderCounts: adding net k's reader count continues the wrapped sum. */
  lemma AddReaderCountsStep(nl: seq<Net>, nets: seq<nat>, k: nat, f: u32)
    requires k < |nets| && nets[k] < |nl|
    ensures Add32(Add32(f, |ReadersOf(nl, nets[..k])|), |nl[nets[k]].gates|)
            == Add32(f, |ReadersOf(nl, nets[..k + 1])|)
  {
    Add32Twice(f, |ReadersOf(nl, nets[..k])|, |nl[nets[k]].gates|);
    ReadersOfNext(nl, nets, k);
  }

  /** The inner loops of topo_sort for one sorted gate: one decrement of the fan-in copy per
      (driven net, reader) pair, in order; the readers whose count reaches zero are returned
      in the order they reached it. */
  method Release(fanin: array<int>, nl: seq<Net>, nets: seq<nat>) returns (ready: seq<nat>)
    requires forall n :: n in nets ==> n < |nl|
    requires forall n, x :: n in nets && x in nl[n].gates ==> x < fanin.Length
    modifies fanin
    ensures forall g :: 0 <= g < fanin.Length ==> fanin[g] == old(fanin[g]) - Count(g, ReadersOf(nl, nets))
    ensures NoDup(ready) && forall x :: x in ready ==> x < fanin.Length
    ensures forall g :: 0 <= g < fanin.Length ==> (g in ready <==> old(fanin[g]) > 0 && fanin[g] <= 0)
  {
    ghost var base := fanin[..];
    ready := [];
    var k := 0;
    assert ReadersOf(nl, nets[..0]) == [];
    while k < |nets|
      invariant 0 <= k <= |nets|
      invariant Released(base, ReadersOf(nl, nets[..k]), fanin[..], ready)
    {
      assert nets[k] in nets;
      ready := ReleaseNet(fanin, nl[nets[k]].gates, base, ReadersOf(nl, nets[..k]), ready);
      ReadersOfAppend(nl, nets[..k], nets[k]);
      assert nets[..k + 1] == nets[..k] + [nets[k]];
      k := k + 1;
    }
    assert nets[..k] == nets;
  }

  /** The innermost loop of topo_sort: the decrements for the readers of one net, continuing
      from the counts base - done with the gates ready0 already released. */
  method ReleaseNet(fanin: array<int>, readers: seq<nat>, ghost base: seq<int>, ghost done: seq<nat>, ready0: seq<nat>)
    returns (ready: seq<nat>)
    requires forall x :: x in readers ==> x < fanin.Length
    requires Released(base, done, fanin[..], ready0)
    modifies fanin
    ensures Released(base, done + readers, fanin[..], ready)
  {
    ready := ready0;
    ghost var seen := done;
    var j := 0;
    assert done + readers[..0] == done;
    while j < |readers|
      invariant 0 <= j <= |readers|
      invariant seen == done + readers[..j]
      invariant Released(base, seen, fanin[..], ready)
    {
      var x := readers[j];
      assert x in readers;
      assert readers[..j + 1] == readers[..j] + [x];
      ReleasedStep(base, seen, fanin[..], ready, x);
      seen := seen + [x];
      fanin[x] := fanin[x] - 1;
      if fanin[x] == 0 {
        ready := ready + [x];
      }
      j := j + 1;
    }
    assert readers[..j] == readers;
  }

  /** The forward sweep of update_arrival_time over a copy of the gate list. */
  method ArrivalSweep(gl: seq<Gate>, nl: seq<Net>, order: seq<nat>, inType: nat)
    returns (r: Status, gl': seq<Gate>, maxAt: u32)
    requires ArrivalReady(gl, nl, order, inType)
    ensures Arrival(r, gl', maxAt) == ArrivalRun(gl, nl, order, inType)
  {
    gl' := gl;
    maxAt := 0;
    var i := 0;
    while i < |order|
      invariant 0 <= i <= |order|
      invariant ArrivalReady(gl, nl, order[..i], inType)
      invariant ArrivalRun(gl, nl, order[..i], inType) == Arrival(Ok, gl', maxAt)
    {
      var id := order[i];
      ArrivalRunNext(gl, nl, order, i, inType);
      r, gl', maxAt := ArrivalAt(gl', nl, id, inType, maxAt);
      if r.Aborted? {
        ArrivalStopsAt(gl, nl, order, i + 1, inType);
        return;
      }
      i := i + 1;
    }
    assert order[..i] == order;
    r := Ok;
  }

  /** One gate of update_arrival_time: its arrival time and max_at updated, or the exit
      (reporting id) with nothing changed. */
  method ArrivalAt(gl: seq<Gate>, nl: seq<Net>, id: nat, inType: nat, maxAt: u32)
    returns (r: Status, gl': seq<Gate>, maxAt': u32)
    requires id < |gl| && (gl[id].gtype != inType ==> Driven(|gl|, nl, gl[id].inNets))
    ensures Arrival(r, gl', maxAt') == ArrivalStep(Arrival(Ok, gl, maxAt), nl, id, inType)
  {
    var x := gl[id];
    var a: u32;
    if x.gtype == inType {
      if x.fanOut == UNSET {
        return Aborted(id), gl, maxAt;
      }
      a := x.fanOut;
    } else {
      var m := LatestDriver(gl, nl, x.inNets);
      if m.None? {
        return Aborted(id), gl, maxAt;
      }
      a := Add32(m.value, x.fanOut);
    }
    r, gl', maxAt' := Ok, gl[id := x.(aTime := a)], Max(maxAt, a);
  }

  /** The inner loop of update_arrival_time: the latest arrival among the drivers of the nets,
      from 0, stopping at the first driver whose arrival is unset. */
  method LatestDriver(gl: seq<Gate>, nl: seq<Net>, ins: seq<nat>) returns (m: Option<u32>)
    requires Driven(|gl|, nl, ins)
    ensures m == DriversMax(gl, nl, ins)
  {
    var v: u32 := 0;
    var k := 0;
    while k < |ins|
      invariant 0 <= k <= |ins|
      invariant Driven(|gl|, nl, ins[..k])
      invariant DriversMax(gl, nl, ins[..k]) == Some(v)
    {
      assert ins[..k + 1] == ins[..k] + [ins[k]] && ins[k] in ins;
      var d := nl[ins[k]].drivingGate.value;
      if gl[d].aTime == UNSET {
        DriversMaxMeaning(gl, nl, ins);
        return None;
      }
      v := Max(v, gl[d].aTime);
      k := k + 1;
    }
    assert ins[..k] == ins;
    m := Some(v);
  }

  /** The backward sweep of update_slack over a copy of the gate list, last gate first. */
  method SlackSweep(gl: seq<Gate>, nl: seq<Net>, order: seq<nat>, outType: nat, maxRt: u32)
    returns (r: Status, gl': seq<Gate>)
    requires SlackReady(gl, nl, order)
    requires forall id, n :: id in order && n in gl[id].nets ==> n < |nl|
    ensures Slack(r, gl') == SlackRun(gl, nl, order, outType, maxRt)
  {
    gl' := gl;
    var i := |order|;
    while i > 0
      invariant 0 <= i <= |order|
      invariant SlackReady(gl, nl, order[i..])
      invariant SlackRun(gl, nl, order[i..], outType, maxRt) == Slack(Ok, gl')
    {
      var id := order[i - 1];
      SlackReadySuffix(gl, nl, order, i - 1);
      assert order[i - 1..] == [id] + order[i..];
      SlackRunCons(gl, nl, id, order[i..], outType, maxRt);
      assert id in order;
      r, gl' := SlackAt(gl', nl, id, outType, maxRt);
      if r.Aborted? {
        assert order == order[..i - 1] + order[i - 1..];
        SlackStops(gl, nl, order[..i - 1], order[i - 1..], outType, maxRt);
        return;
      }
      i := i - 1;
    }
    assert order[i..] == order;
    r := Ok;
  }

  /** One gate of update_slack: its required time and slack, or the exit. */
  method SlackAt(gl: seq<Gate>, nl: seq<Net>, id: nat, outType: nat, maxRt: u32) returns (r: Status, gl': seq<Gate>)
    requires id < |gl| && forall k :: k in Succs(gl, nl, id) ==> k < |gl|
    requires forall n :: n in gl[id].nets ==> n < |nl|
    ensures Slack(r, gl') == SlackStep(Slack(Ok, gl), nl, id, outType, maxRt)
  {
    var x := gl[id];
    r := Ok;
    if x.gtype == outType {
      gl' := gl[id := x.(rTime := maxRt)];
      if x.aTime == UNSET {
        r := Aborted(id);
      } else {
        gl' := gl[id := x.(rTime := maxRt, slack := Sub32(maxRt, x.aTime))];
      }
    } else {
      var m := EarliestRequired(gl, nl, id);
      gl' := gl;
      match m
      case Unset(k) =>
        r := Aborted(k);
      case Value(v) =>
        gl' := gl[id := x.(rTime := v, slack := Sub32(v, x.aTime))];
    }
  }

  /** The inner loops of update_slack for gate id: the least (required time - fan-out) over
      the readers of the nets it drives, from UNSET, stopping at the first reader with an
      unset value. */
  method EarliestRequired(gl: seq<Gate>, nl: seq<Net>, id: nat) returns (m: Fold)
    requires id < |gl| && forall k :: k in Succs(gl, nl, id) ==> k < |gl|
    requires forall n :: n in gl[id].nets ==> n < |nl|
    ensures m == MinRequired(gl, Succs(gl, nl, id))
  {
    var nets := gl[id].nets;
    assert Succs(gl, nl, id) == ReadersOf(nl, nets);
    var v: u32 := UNSET;
    var j := 0;
    while j < |nets|
      invariant 0 <= j <= |nets|
      invariant forall k :: k in ReadersOf(nl, nets[..j]) ==> k < |gl|
      invariant MinRequired(gl, ReadersOf(nl, nets[..j])) == Value(v)
    {
      assert nets[j] in nets;
      var readers := nl[nets[j]].gates;
      ReadersOfNext(nl, nets, j);
      ReadersOfPrefix(nl, nets, j + 1);
      assert Readers(nl, nets[j]) == readers;
      assert forall x :: x in readers ==> x in ReadersOf(nl, nets[..j + 1]);
      m := FoldReaders(gl, ReadersOf(nl, nets[..j]), readers, v);
      if m.Unset? {
        ReadersFoldStops(gl, nl, nets, j + 1);
        return;
      }
      v := m.m;
      j := j + 1;
    }
    assert nets[..j] == nets;
    m := Value(v);
  }

  /** The innermost loop of update_slack: the fold continued from v over the readers of one net. */
  method FoldReaders(gl: seq<Gate>, ghost done: seq<nat>, readers: seq<nat>, v: u32) returns (m: Fold)
    requires (forall x :: x in done ==> x < |gl|) && forall x :: x in readers ==> x < |gl|
    requires MinRequired(gl, done) == Value(v)
    ensures m == MinRequired(gl, done + readers)
  {
    var w := v;
    var k := 0;
    ghost var seen := done;
    assert done + readers[..0] == done;
    while k < |readers|
      invariant 0 <= k <= |readers|
      invariant seen == done + readers[..k]
      invariant forall x :: x in seen ==> x < |gl|
      invariant MinRequired(gl, seen) == Value(w)
    {
      var b := readers[k];
      assert b in readers;
      MinRequiredSnoc(gl, seen, b);
      assert readers[..k + 1] == readers[..k] + [b];
      seen := seen + [b];
      if gl[b].rTime == UNSET || gl[b].fanOut == UNSET {
        var rest := readers[k + 1..];
        assert forall x :: x in rest ==> x in readers;
        MinRequiredStops(gl, seen, rest);
        assert done + readers == seen + rest;
        return Unset(b);
      }
      w := Min(w, Sub32(gl[b].rTime, gl[b].fanOut));
      k := k + 1;
    }
    assert readers[..k] == readers;
    m := Value(w);
  }
}
