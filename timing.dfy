/**
 The two timing sweeps as functions of the gate list: arrival times forward along an
 order, required times and slacks backward along it, both in wrapping u32 arithmetic and
 both stopping, like the engine, at the first unset value they read. The lemmas say what
 a sweep that runs to the end has computed, and that a topological order of the gates is
 what makes it a fixed point of the timing equations.
 */
module Timing {
  import opened Types
  import opened Graph

  // ---------------------------------------------------------------------------
  // Arrival times

  /** The gate recorded as the driver of net n. */
  function Driver(nl: seq<Net>, n: nat): nat
    requires n < |nl| && nl[n].drivingGate.Some?
  {
    nl[n].drivingGate.value
  }

  /** Every net of ins exists and has a recorded driver among the first `size` gates. */
  ghost predicate Driven(size: nat, nl: seq<Net>, ins: seq<nat>) {
    forall n :: n in ins ==> n < |nl| && nl[n].drivingGate.Some? && nl[n].drivingGate.value < size
  }

  /** The inner loop of update_arrival_time: the largest arrival time among the drivers of
      the nets of ins, starting from 0, or None when one of them is still unset. */
  function DriversMax(gl: seq<Gate>, nl: seq<Net>, ins: seq<nat>): (r: Option<u32>)
    requires Driven(|gl|, nl, ins)
    decreases |ins|
  {
    if ins == [] then Some(0)
    else
      var init, last := ins[..|ins| - 1], ins[|ins| - 1];
      assert ins == init + [last] && last in ins;
      assert forall n :: n in init ==> n in ins;
      match DriversMax(gl, nl, init)
      case None => None
      case Some(m) =>
        var a := gl[Driver(nl, last)].aTime;
        if a == UNSET then None else Some(Max(m, a))
  }

  /** The fold is None exactly when some driver's arrival time is unset; otherwise it bounds
      every driver's arrival time and, unless it is the starting 0, is one of them. */
  lemma {:induction false} DriversMaxMeaning(gl: seq<Gate>, nl: seq<Net>, ins: seq<nat>)
    requires Driven(|gl|, nl, ins)
    ensures var r := DriversMax(gl, nl, ins);
            && (r.None? <==> exists n :: n in ins && gl[Driver(nl, n)].aTime == UNSET)
            && (r.Some? ==> forall n :: n in ins ==> gl[Driver(nl, n)].aTime <= r.value)
            && (r.Some? && r.value != 0 ==> exists n :: n in ins && gl[Driver(nl, n)].aTime == r.value)
    decreases |ins|
  {
    if ins != [] {
      var init, last := ins[..|ins| - 1], ins[|ins| - 1];
      assert ins == init + [last] && last in ins;
      assert forall n :: n in init ==> n in ins;
      DriversMaxMeaning(gl, nl, init);
    }
  }

  /** The arrival time update_arrival_time computes for gate id: an INPUT gate's fan-out, or
      the latest arrival among its drivers plus its fan-out; None where it exits instead. */
  function NewArrival(gl: seq<Gate>, nl: seq<Net>, id: nat, inType: nat): Option<u32>
    requires id < |gl| && (gl[id].gtype != inType ==> Driven(|gl|, nl, gl[id].inNets))
  {
    var x := gl[id];
    if x.gtype == inType then
      if x.fanOut == UNSET then None else Some(x.fanOut)
    else
      match DriversMax(gl, nl, x.inNets)
      case None => None
      case Some(m) => Some(Add32(m, x.fanOut))
  }

  /** The state of the forward sweep: how it ended so far, the gates, and max_at. */
  datatype Arrival = Arrival(status: Status, gates: seq<Gate>, maxAt: u32)

  /** The listed gates exist, and each non-INPUT one reads only nets with recorded drivers. */
  ghost predicate ArrivalReady(gl: seq<Gate>, nl: seq<Net>, order: seq<nat>, inType: nat) {
    forall id :: id in order ==> id < |gl| && (gl[id].gtype != inType ==> Driven(|gl|, nl, gl[id].inNets))
  }

  /** gl' differs from gl in arrival times at most. */
  ghost predicate OnlyArrivals(gl: seq<Gate>, gl': seq<Gate>) {
    |gl'| == |gl| && forall i :: 0 <= i < |gl| ==> gl'[i] == gl[i].(aTime := gl'[i].aTime)
  }

  /** One iteration of the forward sweep. */
  function ArrivalStep(st: Arrival, nl: seq<Net>, id: nat, inType: nat): (r: Arrival)
    requires id < |st.gates| && (st.gates[id].gtype != inType ==> Driven(|st.gates|, nl, st.gates[id].inNets))
    ensures OnlyArrivals(st.gates, r.gates) && (r.status == st.status || r.status == Aborted(id))
    ensures forall i :: 0 <= i < |st.gates| && i != id ==> r.gates[i] == st.gates[i]
    ensures st.status == Ok && r.status == Ok ==> r.maxAt == Max(st.maxAt, r.gates[id].aTime)
  {
    match NewArrival(st.gates, nl, id, inType)
    case None => st.(status := Aborted(id))
    case Some(a) => st.(gates := st.gates[id := st.gates[id].(aTime := a)], maxAt := Max(st.maxAt, a))
  }

  /** The forward sweep over the gates of order, from max_at = 0, up to the end or to the
      first exit. It changes arrival times only, and only of listed gates. */
  function ArrivalRun(gl: seq<Gate>, nl: seq<Net>, order: seq<nat>, inType: nat): (r: Arrival)
    requires ArrivalReady(gl, nl, order, inType)
    ensures OnlyArrivals(gl, r.gates) && r.status != Failed
    ensures forall i :: 0 <= i < |gl| && i !in order ==> r.gates[i] == gl[i]
    decreases |order|
  {
    if order == [] then Arrival(Ok, gl, 0)
    else
      var init, last := order[..|order| - 1], order[|order| - 1];
      assert order == init + [last] && last in order;
      assert forall id :: id in init ==> id in order;
      var prev := ArrivalRun(gl, nl, init, inType);
      assert prev.gates[last] == gl[last].(aTime := prev.gates[last].aTime);
      if prev.status != Ok then prev else ArrivalStep(prev, nl, last, inType)
  }

  /** The forward sweep over the first i + 1 gates of order: the sweep over the first i,
      then one step for gate order[i] if it went through. */
  lemma ArrivalRunNext(gl: seq<Gate>, nl: seq<Net>, order: seq<nat>, i: nat, inType: nat)
    requires ArrivalReady(gl, nl, order, inType) && i < |order|
    ensures ArrivalReady(gl, nl, order[..i], inType) && ArrivalReady(gl, nl, order[..i + 1], inType)
    ensures order[i] < |gl|
    ensures var prev := ArrivalRun(gl, nl, order[..i], inType);
            && prev.gates[order[i]] == gl[order[i]].(aTime := prev.gates[order[i]].aTime)
            && ArrivalRun(gl, nl, order[..i + 1], inType) ==
                 if prev.status != Ok then prev else ArrivalStep(prev, nl, order[i], inType)
  {
    assert forall id :: id in order[..i + 1] ==> id in order;
    assert forall id :: id in order[..i] ==> id in order;
    assert order[..i + 1][..i] == order[..i] && order[i] in order;
  }

  /** The forward sweep over order ends as its prefix of i gates did, if that one exited. */
  lemma ArrivalStopsAt(gl: seq<Gate>, nl: seq<Net>, order: seq<nat>, i: nat, inType: nat)
    requires ArrivalReady(gl, nl, order, inType) && i <= |order|
    requires ArrivalReady(gl, nl, order[..i], inType) && ArrivalRun(gl, nl, order[..i], inType).status != Ok
    ensures ArrivalRun(gl, nl, order, inType) == ArrivalRun(gl, nl, order[..i], inType)
  {
    assert order == order[..i] + order[i..];
    ArrivalStops(gl, nl, order[..i], order[i..], inType);
  }

  /** Once the forward sweep has exited, the gates after that point change nothing. */
  lemma {:induction false} ArrivalStops(gl: seq<Gate>, nl: seq<Net>, done: seq<nat>, rest: seq<nat>, inType: nat)
    requires ArrivalReady(gl, nl, done, inType) && ArrivalReady(gl, nl, done + rest, inType)
    requires ArrivalRun(gl, nl, done, inType).status != Ok
    ensures ArrivalRun(gl, nl, done + rest, inType) == ArrivalRun(gl, nl, done, inType)
    decreases |rest|
  {
    if rest != [] {
      var init := rest[..|rest| - 1];
      assert done + rest == (done + init) + [rest[|rest| - 1]];
      assert forall id :: id in done + init ==> id in done + rest;
      ArrivalStops(gl, nl, done, init, inType);
    } else {
      assert done + rest == done;
    }
  }

  /** A forward sweep that runs to the end over distinct gates leaves max_at at the latest
      arrival time it assigned: no listed gate arrives later, and one arrives exactly then. */
  lemma ArrivalMax(gl: seq<Gate>, nl: seq<Net>, order: seq<nat>, inType: nat)
    requires ArrivalReady(gl, nl, order, inType) && NoDup(order)
    ensures var r := ArrivalRun(gl, nl, order, inType);
            r.status == Ok ==>
              && (forall id :: id in order ==> r.gates[id].aTime <= r.maxAt)
              && (order != [] ==> exists id :: id in order && r.gates[id].aTime == r.maxAt)
  {
    ArrivalMaxBound(gl, nl, order, inType);
    ArrivalMaxAttained(gl, nl, order, inType);
  }

  lemma {:induction false} ArrivalMaxBound(gl: seq<Gate>, nl: seq<Net>, order: seq<nat>, inType: nat)
    requires ArrivalReady(gl, nl, order, inType) && NoDup(order)
    ensures var r := ArrivalRun(gl, nl, order, inType);
            r.status == Ok ==> forall id :: id in order ==> r.gates[id].aTime <= r.maxAt
    decreases |order|
  {
    if order != [] {
      var i := |order| - 1;
      var init, last := order[..i], order[i];
      assert order == init + [last];
      NoDupParts(init, [last]);
      ArrivalRunNext(gl, nl, order, i, inType);
      assert order[..i + 1] == order;
      ArrivalMaxBound(gl, nl, init, inType);
      var prev := ArrivalRun(gl, nl, init, inType);
      var r := ArrivalRun(gl, nl, order, inType);
      if r.status == Ok {
        assert prev.status == Ok && r == ArrivalStep(prev, nl, last, inType);
        forall id | id in order
          ensures r.gates[id].aTime <= r.maxAt
        {
          if id != last {
            assert id in init;
          }
        }
      }
    }
  }

  lemma {:induction false} ArrivalMaxAttained(gl: seq<Gate>, nl: seq<Net>, order: seq<nat>, inType: nat)
    requires ArrivalReady(gl, nl, order, inType) && NoDup(order)
    ensures var r := ArrivalRun(gl, nl, order, inType);
            r.status == Ok && order != [] ==> exists id :: id in order && r.gates[id].aTime == r.maxAt
    decreases |order|
  {
    if order != [] {
      var i := |order| - 1;
      var init, last := order[..i], order[i];
      assert order == init + [last];
      NoDupParts(init, [last]);
      ArrivalRunNext(gl, nl, order, i, inType);
      assert order[..i + 1] == order;
      ArrivalMaxAttained(gl, nl, init, inType);
      var prev := ArrivalRun(gl, nl, init, inType);
      var r := ArrivalRun(gl, nl, order, inType);
      if r.status == Ok {
        assert prev.status == Ok && r == ArrivalStep(prev, nl, last, inType);
        var a := r.gates[last].aTime;
        if init == [] || a >= prev.maxAt {
          assert last in order && a == r.maxAt;
        } else {
          var w :| w in init && prev.gates[w].aTime == prev.maxAt;
          assert w in order && w != last && r.gates[w].aTime == r.maxAt;
        }
      }
    }
  }

  /** Gate id exists and its arrival time is the one its equation gives from the times in gl. */
  ghost predicate ArrivalHolds(gl: seq<Gate>, nl: seq<Net>, id: nat, inType: nat) {
    && id < |gl| && (gl[id].gtype != inType ==> Driven(|gl|, nl, gl[id].inNets))
    && NewArrival(gl, nl, id, inType) == Some(gl[id].aTime)
  }

  /** Every listed non-INPUT gate comes after the recorded drivers of all the nets it reads. */
  ghost predicate DriversFirst(gl: seq<Gate>, nl: seq<Net>, order: seq<nat>, inType: nat) {
    forall j, n :: 0 <= j < |order| && order[j] < |gl| && gl[order[j]].gtype != inType
                   && n in gl[order[j]].inNets && n < |nl| && nl[n].drivingGate.Some?
                   ==> nl[n].drivingGate.value in order[..j]
  }

  /** The arrival a gate gets depends only on its own fields and its drivers' arrival times. */
  lemma NewArrivalSame(gl: seq<Gate>, gl': seq<Gate>, nl: seq<Net>, id: nat, inType: nat)
    requires OnlyArrivals(gl, gl') && id < |gl| && (gl[id].gtype != inType ==> Driven(|gl|, nl, gl[id].inNets))
    requires gl[id].gtype != inType ==>
               forall n :: n in gl[id].inNets ==> gl'[Driver(nl, n)].aTime == gl[Driver(nl, n)].aTime
    ensures NewArrival(gl', nl, id, inType) == NewArrival(gl, nl, id, inType)
  {
    if gl[id].gtype != inType {
      DriversMaxSame(gl, gl', nl, gl[id].inNets);
    }
  }

  lemma {:induction false} DriversMaxSame(gl: seq<Gate>, gl': seq<Gate>, nl: seq<Net>, ins: seq<nat>)
    requires |gl'| == |gl| && Driven(|gl|, nl, ins)
    requires forall n :: n in ins ==> gl'[Driver(nl, n)].aTime == gl[Driver(nl, n)].aTime
    ensures DriversMax(gl', nl, ins) == DriversMax(gl, nl, ins)
    decreases |ins|
  {
    if ins != [] {
      var init := ins[..|ins| - 1];
      assert ins == init + [ins[|ins| - 1]];
      DriversMaxSame(gl, gl', nl, init);
    }
  }

  /** A sweep that runs to the end over distinct gates, each after its drivers, leaves every
      listed gate with the arrival time its equation gives from the final times: fan-out for
      an INPUT gate, latest driver arrival plus fan-out otherwise. */
  lemma {:induction false} ArrivalFixedPoint(gl: seq<Gate>, nl: seq<Net>, order: seq<nat>, inType: nat)
    requires ArrivalReady(gl, nl, order, inType) && NoDup(order) && DriversFirst(gl, nl, order, inType)
    ensures var r := ArrivalRun(gl, nl, order, inType);
            r.status == Ok ==>
              forall j :: 0 <= j < |order| ==> ArrivalHolds(r.gates, nl, order[j], inType)
    decreases |order|
  {
    var r := ArrivalRun(gl, nl, order, inType);
    if order != [] && r.status == Ok {
      var init, last := order[..|order| - 1], order[|order| - 1];
      assert order == init + [last];
      NoDupParts(init, [last]);
      assert DriversFirst(gl, nl, init, inType) by {
        forall j | 0 <= j < |init|
          ensures init[..j] == order[..j]
        {
        }
      }
      ArrivalFixedPoint(gl, nl, init, inType);
      var prev := ArrivalRun(gl, nl, init, inType);
      assert prev.status == Ok;
      assert forall i :: 0 <= i < |gl| && i != last ==> r.gates[i] == prev.gates[i];
      forall j | 0 <= j < |order|
        ensures ArrivalHolds(r.gates, nl, order[j], inType)
      {
        var id := order[j];
        assert id in order && id < |gl|;
        if gl[id].gtype != inType {
          forall n | n in gl[id].inNets
            ensures Driver(nl, n) != last
          {
            assert Driver(nl, n) in order[..j];
            if j == |init| {
              assert order[..j] == init;
            } else {
              assert Driver(nl, n) in init;
            }
          }
        }
        NewArrivalSame(prev.gates, r.gates, nl, id, inType);
        if j < |init| {
          assert id == init[j] && id != last;
        }
      }
    }
  }

  /** A topological order of the gates lists every recorded driver of a gate's inputs before it. */
  lemma TopoOrderDriversFirst(gl: seq<Gate>, nl: seq<Net>, order: seq<nat>, inType: nat)
    requires WellFormed(gl, nl) && IsTopoOrder(SuccTable(gl, nl), order)
    ensures DriversFirst(gl, nl, order, inType)
  {
    var T := SuccTable(gl, nl);
    forall j, n | 0 <= j < |order| && order[j] < |gl| && gl[order[j]].gtype != inType
                  && n in gl[order[j]].inNets && n < |nl| && nl[n].drivingGate.Some?
      ensures nl[n].drivingGate.value in order[..j]
    {
      var d := nl[n].drivingGate.value;
      SuccsMembers(gl, nl, d, n, order[j]);
      assert order[j] in T[d];
    }
  }

  // ---------------------------------------------------------------------------
  // Required times and slacks

  /** The required-time fold over a gate's readers: the value so far, or the reader whose
      required time or fan-out was found unset. */
  datatype Fold = Value(m: u32) | Unset(gate: nat)

  /** A reader's contribution to the fold cannot be computed. */
  predicate Blocked(x: Gate) {
    x.rTime == UNSET || x.fanOut == UNSET
  }

  /** The inner loops of update_slack: the least of (required time - fan-out) over the readers
      rs, starting from UNSET, or the first reader whose values are unset. */
  function MinRequired(gl: seq<Gate>, rs: seq<nat>): (r: Fold)
    requires forall k :: k in rs ==> k < |gl|
    decreases |rs|
  {
    if rs == [] then Value(UNSET)
    else
      var init, k := rs[..|rs| - 1], rs[|rs| - 1];
      assert rs == init + [k] && k in rs;
      assert forall x :: x in init ==> x in rs;
      match MinRequired(gl, init)
      case Unset(b) => Unset(b)
      case Value(m) =>
        if Blocked(gl[k]) then Unset(k) else Value(Min(m, Sub32(gl[k].rTime, gl[k].fanOut)))
  }

  lemma {:induction false} MinRequiredMeaning(gl: seq<Gate>, rs: seq<nat>)
    requires forall k :: k in rs ==> k < |gl|
    ensures var r := MinRequired(gl, rs);
            && (r.Unset? ==> r.gate in rs && Blocked(gl[r.gate]))
            && (r.Value? <==> forall k :: k in rs ==> !Blocked(gl[k]))
            && (r.Value? ==> forall k :: k in rs ==> r.m <= Sub32(gl[k].rTime, gl[k].fanOut))
            && (r.Value? && r.m != UNSET ==> exists k :: k in rs && r.m == Sub32(gl[k].rTime, gl[k].fanOut))
    decreases |rs|
  {
    if rs != [] {
      var init, k := rs[..|rs| - 1], rs[|rs| - 1];
      assert rs == init + [k] && k in rs;
      assert forall x :: x in init ==> x in rs;
      MinRequiredMeaning(gl, init);
    }
  }

  /** The fold over rs followed by one more reader k. */
  lemma MinRequiredSnoc(gl: seq<Gate>, rs: seq<nat>, k: nat)
    requires (forall x :: x in rs ==> x < |gl|) && k < |gl|
    ensures MinRequired(gl, rs + [k])
         == match MinRequired(gl, rs)
            case Unset(b) => Unset(b)
            case Value(m) =>
              if Blocked(gl[k]) then Unset(k) else Value(Min(m, Sub32(gl[k].rTime, gl[k].fanOut)))
  {
    assert (rs + [k])[..|rs|] == rs;
  }

  /** Once the fold has met an unset reader, further readers change nothing. */
  lemma {:induction false} MinRequiredStops(gl: seq<Gate>, rs: seq<nat>, more: seq<nat>)
    requires (forall k :: k in rs ==> k < |gl|) && forall k :: k in more ==> k < |gl|
    requires MinRequired(gl, rs).Unset?
    ensures MinRequired(gl, rs + more) == MinRequired(gl, rs)
    decreases |more|
  {
    if more == [] {
      assert rs + more == rs;
    } else {
      var init := more[..|more| - 1];
      assert rs + more == (rs + init) + [more[|more| - 1]];
      assert forall k :: k in init ==> k in more;
      MinRequiredStops(gl, rs, init);
    }
  }

  /** Once the fold over the readers of the first j nets has met an unset reader, the readers
      of the remaining nets change nothing. */
  lemma {:induction false} ReadersFoldStops(gl: seq<Gate>, nl: seq<Net>, nets: seq<nat>, j: nat)
    requires j <= |nets| && forall k :: k in ReadersOf(nl, nets) ==> k < |gl|
    requires forall k :: k in ReadersOf(nl, nets[..j]) ==> k < |gl|
    requires MinRequired(gl, ReadersOf(nl, nets[..j])).Unset?
    ensures MinRequired(gl, ReadersOf(nl, nets)) == MinRequired(gl, ReadersOf(nl, nets[..j]))
    decreases |nets| - j
  {
    if j == |nets| {
      assert nets[..j] == nets;
    } else {
      ReadersOfNext(nl, nets, j);
      ReadersOfPrefix(nl, nets, j + 1);
      var more := Readers(nl, nets[j]);
      assert forall k :: k in more ==> k in ReadersOf(nl, nets[..j + 1]);
      MinRequiredStops(gl, ReadersOf(nl, nets[..j]), more);
      ReadersFoldStops(gl, nl, nets, j + 1);
    }
  }

  /** The state of the backward sweep. */
  datatype Slack = Slack(status: Status, gates: seq<Gate>)

  /** The listed gates exist, and so do the readers of the nets each drives. */
  ghost predicate SlackReady(gl: seq<Gate>, nl: seq<Net>, order: seq<nat>) {
    forall id :: id in order ==> id < |gl| && forall k :: k in Succs(gl, nl, id) ==> k < |gl|
  }

  /** gl' differs from gl in required times and slacks at most. */
  ghost predicate OnlyRequired(gl: seq<Gate>, gl': seq<Gate>) {
    |gl'| == |gl| && forall i :: 0 <= i < |gl| ==> gl'[i] == gl[i].(rTime := gl'[i].rTime, slack := gl'[i].slack)
  }

  /** One iteration of the backward sweep. An OUTPUT gate's required time is set to max_rt
      before its arrival time is checked; any other gate takes the fold over its readers. */
  function SlackStep(st: Slack, nl: seq<Net>, id: nat, outType: nat, maxRt: u32): (r: Slack)
    requires id < |st.gates| && forall k :: k in Succs(st.gates, nl, id) ==> k < |st.gates|
    ensures OnlyRequired(st.gates, r.gates) && (r.status == st.status || r.status.Aborted?)
    ensures forall i :: 0 <= i < |st.gates| && i != id ==> r.gates[i] == st.gates[i]
  {
    var x := st.gates[id];
    if x.gtype == outType then
      if x.aTime == UNSET then Slack(Aborted(id), st.gates[id := x.(rTime := maxRt)])
      else Slack(st.status, st.gates[id := x.(rTime := maxRt, slack := Sub32(maxRt, x.aTime))])
    else
      match MinRequired(st.gates, Succs(st.gates, nl, id))
      case Unset(k) => st.(status := Aborted(k))
      case Value(m) => st.(gates := st.gates[id := x.(rTime := m, slack := Sub32(m, x.aTime))])
  }

  /** The backward sweep over the gates of order, last first, up to the start or to the first
      exit. It changes required times and slacks only, and only of listed gates. */
  function SlackRun(gl: seq<Gate>, nl: seq<Net>, order: seq<nat>, outType: nat, maxRt: u32): (r: Slack)
    requires SlackReady(gl, nl, order)
    ensures OnlyRequired(gl, r.gates) && r.status != Failed
    ensures forall i :: 0 <= i < |gl| && i !in order ==> r.gates[i] == gl[i]
    decreases |order|
  {
    if order == [] then Slack(Ok, gl)
    else
      assert order == [order[0]] + order[1..] && order[0] in order;
      assert forall id :: id in order[1..] ==> id in order;
      var prev := SlackRun(gl, nl, order[1..], outType, maxRt);
      SuccsKept(gl, prev.gates, nl, order[0]);
      if prev.status != Ok then prev else SlackStep(prev, nl, order[0], outType, maxRt)
  }

  /** Required times and slacks do not change who reads what. */
  lemma SuccsKept(gl: seq<Gate>, gl': seq<Gate>, nl: seq<Net>, p: nat)
    requires OnlyRequired(gl, gl')
    ensures Succs(gl', nl, p) == Succs(gl, nl, p)
  {
    if p < |gl| {
      assert gl'[p].nets == gl[p].nets;
    }
  }

  /** The backward sweep over a suffix of order is defined too. */
  lemma SlackReadySuffix(gl: seq<Gate>, nl: seq<Net>, order: seq<nat>, i: nat)
    requires SlackReady(gl, nl, order) && i <= |order|
    ensures SlackReady(gl, nl, order[i..])
  {
    assert forall id :: id in order[i..] ==> id in order;
  }

  /** The backward sweep over [id] + done: the sweep over done, then one step if it went through. */
  lemma SlackRunCons(gl: seq<Gate>, nl: seq<Net>, id: nat, done: seq<nat>, outType: nat, maxRt: u32)
    requires SlackReady(gl, nl, [id] + done)
    ensures SlackReady(gl, nl, done) && id < |gl|
    ensures var prev := SlackRun(gl, nl, done, outType, maxRt);
            (forall k :: k in Succs(prev.gates, nl, id) ==> k < |prev.gates|) &&
            SlackRun(gl, nl, [id] + done, outType, maxRt) ==
              if prev.status != Ok then prev else SlackStep(prev, nl, id, outType, maxRt)
  {
    assert ([id] + done)[1..] == done && id in [id] + done;
    assert forall x :: x in done ==> x in [id] + done;
    SuccsKept(gl, SlackRun(gl, nl, done, outType, maxRt).gates, nl, id);
  }

  /** Once the backward sweep has exited, the gates before that point change nothing. */
  lemma {:induction false} SlackStops(gl: seq<Gate>, nl: seq<Net>, rest: seq<nat>, done: seq<nat>, outType: nat, maxRt: u32)
    requires SlackReady(gl, nl, done) && SlackReady(gl, nl, rest + done)
    requires SlackRun(gl, nl, done, outType, maxRt).status != Ok
    ensures SlackRun(gl, nl, rest + done, outType, maxRt) == SlackRun(gl, nl, done, outType, maxRt)
    decreases |rest|
  {
    if rest != [] {
      assert rest + done == [rest[0]] + (rest[1..] + done);
      assert forall id :: id in rest[1..] + done ==> id in rest + done;
      SlackStops(gl, nl, rest[1..], done, outType, maxRt);
    } else {
      assert rest + done == done;
    }
  }

  /** What the backward sweep leaves at gate id: an OUTPUT gate requires max_rt and its slack
      is max_rt - arrival; any other gate requires the least (required time - fan-out) over
      its readers, as the fold computes it from the final values, and its slack is required
      - arrival; all modulo 2^32. */
  ghost predicate SlackHolds(gl: seq<Gate>, nl: seq<Net>, id: nat, outType: nat, maxRt: u32) {
    id < |gl| && (forall k :: k in Succs(gl, nl, id) ==> k < |gl|) &&
    var x := gl[id];
    if x.gtype == outType then x.rTime == maxRt && x.aTime != UNSET && x.slack == Sub32(maxRt, x.aTime)
    else MinRequired(gl, Succs(gl, nl, id)) == Value(x.rTime) && x.slack == Sub32(x.rTime, x.aTime)
  }

  /** Every listed non-OUTPUT gate comes before all of its readers. */
  ghost predicate ReadersLater(gl: seq<Gate>, nl: seq<Net>, order: seq<nat>, outType: nat) {
    forall j, k :: 0 <= j < |order| && order[j] < |gl| && gl[order[j]].gtype != outType
                   && k in Succs(gl, nl, order[j])
                   ==> k in order[j + 1..]
  }

  lemma {:induction false} MinRequiredSame(gl: seq<Gate>, gl': seq<Gate>, rs: seq<nat>)
    requires |gl'| == |gl| && forall k :: k in rs ==> k < |gl|
    requires forall k :: k in rs ==> gl'[k].rTime == gl[k].rTime && gl'[k].fanOut == gl[k].fanOut
    ensures MinRequired(gl', rs) == MinRequired(gl, rs)
    decreases |rs|
  {
    if rs != [] {
      var init := rs[..|rs| - 1];
      assert rs == init + [rs[|rs| - 1]];
      assert forall x :: x in init ==> x in rs;
      MinRequiredSame(gl, gl', init);
    }
  }

  lemma ReadersLaterRest(gl: seq<Gate>, nl: seq<Net>, order: seq<nat>, outType: nat)
    requires order != [] && ReadersLater(gl, nl, order, outType)
    ensures ReadersLater(gl, nl, order[1..], outType)
  {
    var rest := order[1..];
    forall j, k | 0 <= j < |rest| && rest[j] < |gl| && gl[rest[j]].gtype != outType
                  && k in Succs(gl, nl, rest[j])
      ensures k in rest[j + 1..]
    {
      assert rest[j] == order[j + 1] && rest[j + 1..] == order[j + 2..];
    }
  }

  /** A backward sweep that runs to the end over distinct gates, each before its readers,
      leaves every listed gate satisfying its required-time and slack equations. */
  lemma {:induction false} SlackFixedPoint(gl: seq<Gate>, nl: seq<Net>, order: seq<nat>, outType: nat, maxRt: u32)
    requires SlackReady(gl, nl, order) && NoDup(order) && ReadersLater(gl, nl, order, outType)
    ensures var r := SlackRun(gl, nl, order, outType, maxRt);
            r.status == Ok ==> forall j :: 0 <= j < |order| ==> SlackHolds(r.gates, nl, order[j], outType, maxRt)
    decreases |order|
  {
    var r := SlackRun(gl, nl, order, outType, maxRt);
    if order != [] && r.status == Ok {
      var first, rest := order[0], order[1..];
      assert order == [first] + rest;
      NoDupParts([first], rest);
      assert forall x :: x in rest ==> x in order;
      ReadersLaterRest(gl, nl, order, outType);
      SlackFixedPoint(gl, nl, rest, outType, maxRt);
      var prev := SlackRun(gl, nl, rest, outType, maxRt);
      SlackRunCons(gl, nl, first, rest, outType, maxRt);
      assert prev.status == Ok && r == SlackStep(prev, nl, first, outType, maxRt);
      forall j | 0 <= j < |order|
        ensures SlackHolds(r.gates, nl, order[j], outType, maxRt)
      {
        var id := order[j];
        SuccsKept(gl, prev.gates, nl, id);
        if gl[id].gtype != outType {
          forall k | k in Succs(gl, nl, id)
            ensures k != first
          {
            assert k in order[j + 1..];
          }
        }
        if j == 0 {
          SlackStepHolds(prev, nl, first, outType, maxRt);
        } else {
          assert id == rest[j - 1] && id != first;
          SlackHoldsKept(prev.gates, r.gates, nl, id, first, outType, maxRt);
        }
      }
    }
  }

  /** A step of the backward sweep that goes through leaves its gate satisfying its equation,
      provided a non-OUTPUT gate does not read its own output. */
  lemma SlackStepHolds(st: Slack, nl: seq<Net>, id: nat, outType: nat, maxRt: u32)
    requires id < |st.gates| && forall k :: k in Succs(st.gates, nl, id) ==> k < |st.gates|
    requires st.gates[id].gtype != outType ==> id !in Succs(st.gates, nl, id)
    requires SlackStep(st, nl, id, outType, maxRt).status == Ok
    ensures SlackHolds(SlackStep(st, nl, id, outType, maxRt).gates, nl, id, outType, maxRt)
  {
    var r := SlackStep(st, nl, id, outType, maxRt);
    SuccsKept(st.gates, r.gates, nl, id);
    if st.gates[id].gtype != outType {
      MinRequiredSame(st.gates, r.gates, Succs(st.gates, nl, id));
    }
  }

  /** A gate's equation survives a change to another gate that it does not read. */
  lemma SlackHoldsKept(gl: seq<Gate>, gl': seq<Gate>, nl: seq<Net>, id: nat, other: nat, outType: nat, maxRt: u32)
    requires SlackHolds(gl, nl, id, outType, maxRt) && id != other && OnlyRequired(gl, gl')
    requires forall i :: 0 <= i < |gl| && i != other ==> gl'[i] == gl[i]
    requires gl[id].gtype != outType ==> other !in Succs(gl, nl, id)
    ensures SlackHolds(gl', nl, id, outType, maxRt)
  {
    SuccsKept(gl, gl', nl, id);
    if gl[id].gtype != outType {
      MinRequiredSame(gl, gl', Succs(gl, nl, id));
    }
  }

  /** A complete topological order of the gates lists every gate before all of its readers. */
  lemma TopoOrderReadersLater(gl: seq<Gate>, nl: seq<Net>, order: seq<nat>, outType: nat)
    requires IsTopoOrder(SuccTable(gl, nl), order) && Complete(|gl|, order)
    requires forall p, k :: 0 <= p < |gl| && k in Succs(gl, nl, p) ==> k < |gl|
    ensures ReadersLater(gl, nl, order, outType)
  {
    var T := SuccTable(gl, nl);
    forall j, k | 0 <= j < |order| && order[j] < |gl| && gl[order[j]].gtype != outType
                  && k in Succs(gl, nl, order[j])
      ensures k in order[j + 1..]
    {
      var id := order[j];
      assert k < |gl| && k in order;
      var i :| 0 <= i < |order| && order[i] == k;
      assert order[i] in T[id];
      assert id in order[..i];
      var i' :| 0 <= i' < i && order[i'] == id;
      assert i' == j;
      assert order[j + 1..][i - j - 1] == k;
    }
  }

  /** In a well-formed circuit every reader of a net a gate drives is a gate. */
  lemma SuccsInRange(gl: seq<Gate>, nl: seq<Net>)
    requires WellFormed(gl, nl)
    ensures forall p, k :: 0 <= p < |gl| && k in Succs(gl, nl, p) ==> k < |gl|
  {
    forall p, k | 0 <= p < |gl| && k in Succs(gl, nl, p)
      ensures k < |gl|
    {
      ReadersOfMembers(nl, gl[p].nets, k);
    }
  }
}
