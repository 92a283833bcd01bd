/**
 The graph the engine builds, seen as pure values: who reads a net, whom a gate
 drives, how the per-category counters relate to the gate and net lists, and
 what a topological order of the gates is.
 */
module Graph {
  import opened Types

  /** The readers of net n (none when n names no net). */
  function Readers(nl: seq<Net>, n: nat): seq<nat> {
    if n < |nl| then nl[n].gates else []
  }

  /** The readers of the nets in `nets`, net after net: the gates that a walk over a
      gate's driven nets, and over each net's readers, visits, in that order. */
  function ReadersOf(nl: seq<Net>, nets: seq<nat>): seq<nat>
    decreases |nets|
  {
    if nets == [] then [] else ReadersOf(nl, nets[..|nets| - 1]) + Readers(nl, nets[|nets| - 1])
  }

  /** The successors of gate p, one entry per (driven net, reader) pair. */
  function Succs(gl: seq<Gate>, nl: seq<Net>, p: nat): seq<nat> {
    if p < |gl| then ReadersOf(nl, gl[p].nets) else []
  }

  /** Every reader of every net, net after net. */
  function AllReaders(nl: seq<Net>): seq<nat>
    decreases |nl|
  {
    if nl == [] then [] else AllReaders(nl[..|nl| - 1]) + nl[|nl| - 1].gates
  }

  /** How often g occurs in s. */
  function Count(g: nat, s: seq<nat>): nat {
    multiset(s)[g]
  }

  /** The successor table: entry p lists Succs(gl, nl, p). */
  function SuccTable(gl: seq<Gate>, nl: seq<Net>): seq<seq<nat>> {
    seq(|gl|, p requires 0 <= p < |gl| => ReadersOf(nl, gl[p].nets))
  }

  /** The number of edge occurrences into g from the gates 0 .. k-1 of table T. */
  function EdgesInto(T: seq<seq<nat>>, g: nat, k: nat): nat {
    if k == 0 then 0 else EdgesInto(T, g, k - 1) + (if k - 1 < |T| then Count(g, T[k - 1]) else 0)
  }

  /** The number of edge occurrences into g from those gates 0 .. k-1 of T that are in done. */
  function EdgesFrom(T: seq<seq<nat>>, g: nat, done: seq<nat>, k: nat): nat {
    if k == 0 then 0
    else EdgesFrom(T, g, done, k - 1) + (if k - 1 in done && k - 1 < |T| then Count(g, T[k - 1]) else 0)
  }

  /** How many nets of nl have category t. */
  function CountNetType(nl: seq<Net>, t: NetType): nat
    decreases |nl|
  {
    if nl == [] then 0
    else CountNetType(nl[..|nl| - 1], t) + (if nl[|nl| - 1].ntype == t then 1 else 0)
  }

  /** How many gates of gl have type code c. */
  function CountGateType(gl: seq<Gate>, c: nat): nat
    decreases |gl|
  {
    if gl == [] then 0
    else CountGateType(gl[..|gl| - 1], c) + (if gl[|gl| - 1].gtype == c then 1 else 0)
  }

  /** Every id stored in a gate or a net names an existing net or gate. */
  ghost predicate Wired(gl: seq<Gate>, nl: seq<Net>) {
    && (forall p, n :: 0 <= p < |gl| && n in gl[p].nets ==> n < |nl|)
    && (forall p, n :: 0 <= p < |gl| && n in gl[p].inNets ==> n < |nl|)
    && (forall n, g :: 0 <= n < |nl| && g in nl[n].gates ==> g < |gl|)
    && (forall n :: 0 <= n < |nl| && nl[n].drivingGate.Some? ==> nl[n].drivingGate.value < |gl|)
  }

  /** A recorded driver drives its net, and a gate that reads a net is among that net's readers. */
  ghost predicate Coherent(gl: seq<Gate>, nl: seq<Net>) {
    && (forall n :: 0 <= n < |nl| && nl[n].drivingGate.Some? && nl[n].drivingGate.value < |gl| ==>
          n in gl[nl[n].drivingGate.value].nets)
    && (forall g, n :: 0 <= g < |gl| && n in gl[g].inNets && n < |nl| ==> g in nl[n].gates)
  }

  /** Ids are positions, stored ids are in range, and drivers and readers agree. */
  ghost predicate WellFormed(gl: seq<Gate>, nl: seq<Net>) {
    && (forall i :: 0 <= i < |gl| ==> gl[i].id == i)
    && (forall i :: 0 <= i < |nl| ==> nl[i].id == i)
    && Wired(gl, nl)
    && Coherent(gl, nl)
  }

  predicate NoDup(s: seq<nat>) {
    forall i, j :: 0 <= i < j < |s| ==> s[i] != s[j]
  }

  lemma NoDupAppend(a: seq<nat>, b: seq<nat>)
    requires NoDup(a) && NoDup(b) && forall x :: x in b ==> x !in a
    ensures NoDup(a + b)
  {
    forall i, j | 0 <= i < j < |a + b|
      ensures (a + b)[i] != (a + b)[j]
    {
      if i < |a| && j >= |a| {
        assert (a + b)[j] in b;
      }
    }
  }

  lemma NoDupParts(a: seq<nat>, b: seq<nat>)
    requires NoDup(a + b)
    ensures NoDup(a) && NoDup(b) && forall x :: x in a ==> x !in b
  {
    forall i, j | 0 <= i < |a| && 0 <= j < |b|
      ensures a[i] != b[j]
    {
      assert (a + b)[i] == a[i] && (a + b)[|a| + j] == b[j];
    }
    forall i, j | 0 <= i < j < |b|
      ensures b[i] != b[j]
    {
      assert (a + b)[|a| + i] == b[i] && (a + b)[|a| + j] == b[j];
    }
    forall i, j | 0 <= i < j < |a|
      ensures a[i] != a[j]
    {
      assert (a + b)[i] == a[i] && (a + b)[j] == a[j];
    }
  }

  /** The fan-out pass applied to gl: each gate's fan-out grows, modulo 2^32, by the number
      of (driven net, reader) pairs of the gate. */
  function FannedOut(gl: seq<Gate>, nl: seq<Net>): seq<Gate> {
    seq(|gl|, i requires 0 <= i < |gl| => gl[i].(fanOut := Add32(gl[i].fanOut, |ReadersOf(nl, gl[i].nets)|)))
  }

  /** order lists distinct gates of T, each only after every gate whose successors include it. */
  ghost predicate IsTopoOrder(T: seq<seq<nat>>, order: seq<nat>) {
    && NoDup(order)
    && (forall x :: x in order ==> x < |T|)
    && forall j, p :: 0 <= j < |order| && 0 <= p < |T| && order[j] in T[p] ==> p in order[..j]
  }

  /** The gates 0 .. n-1. */
  function Range(n: nat): set<nat> {
    if n == 0 then {} else Range(n - 1) + {n - 1}
  }

  /** order lists every one of the gates 0 .. n-1. */
  ghost predicate Complete(n: nat, order: seq<nat>) {
    forall g :: 0 <= g < n ==> g in order
  }

  /** U is a non-empty set of gates of T each of which is a successor of a gate of U:
      the gates of U lie on, or downstream of, a cycle. */
  ghost predicate StuckSet(T: seq<seq<nat>>, U: set<nat>) {
    && U != {}
    && (forall g :: g in U ==> g < |T|)
    && forall g :: g in U ==> DrivenFrom(T, U, g)
  }

  /** Some gate of U has g among its successors. */
  ghost predicate DrivenFrom(T: seq<seq<nat>>, U: set<nat>, g: nat) {
    exists p :: p in U && p < |T| && g in T[p]
  }

  /** The gates 0 .. n-1 that order leaves out. */
  function Unsorted(n: nat, order: seq<nat>): set<nat> {
    Range(n) - set x: nat | x in order
  }

  /** Each gate's fan-in equals the number of edge occurrences that reach it from a driving gate. */
  ghost predicate FanInMatchesEdges(gl: seq<Gate>, T: seq<seq<nat>>) {
    forall g :: 0 <= g < |gl| ==> gl[g].fanIn == EdgesInto(T, g, |T|)
  }

  // ---------------------------------------------------------------------------
  // Readers

  lemma ReadersOfAppend(nl: seq<Net>, nets: seq<nat>, n: nat)
    ensures ReadersOf(nl, nets + [n]) == ReadersOf(nl, nets) + Readers(nl, n)
  {
    assert (nets + [n])[..|nets|] == nets;
  }

  /** The walk over the first j + 1 nets: the walk over the first j, then net j's readers. */
  lemma ReadersOfNext(nl: seq<Net>, nets: seq<nat>, j: nat)
    requires j < |nets|
    ensures ReadersOf(nl, nets[..j + 1]) == ReadersOf(nl, nets[..j]) + Readers(nl, nets[j])
  {
    assert nets[..j + 1][..j] == nets[..j];
  }

  /** g is visited by the walk over `nets` exactly when it reads one of them. */
  lemma {:induction false} ReadersOfMembers(nl: seq<Net>, nets: seq<nat>, g: nat)
    ensures g in ReadersOf(nl, nets) <==> exists n :: n in nets && g in Readers(nl, n)
    decreases |nets|
  {
    if nets != [] {
      var init, last := nets[..|nets| - 1], nets[|nets| - 1];
      assert nets == init + [last];
      ReadersOfAppend(nl, init, last);
      ReadersOfMembers(nl, init, g);
      assert forall n :: n in nets <==> n in init || n == last;
    }
  }

  /** The walk over a prefix of nets visits only gates the whole walk visits. */
  lemma ReadersOfPrefix(nl: seq<Net>, nets: seq<nat>, j: nat)
    requires j <= |nets|
    ensures forall g :: g in ReadersOf(nl, nets[..j]) ==> g in ReadersOf(nl, nets)
  {
    forall g | g in ReadersOf(nl, nets[..j])
      ensures g in ReadersOf(nl, nets)
    {
      ReadersOfMembers(nl, nets[..j], g);
      var n :| n in nets[..j] && g in Readers(nl, n);
      assert n in nets;
      ReadersOfMembers(nl, nets, g);
    }
  }

  /** A reader of a net that gate p drives is a successor of p. */
  lemma SuccsMembers(gl: seq<Gate>, nl: seq<Net>, p: nat, n: nat, g: nat)
    requires p < |gl| && n in gl[p].nets && n < |nl| && g in nl[n].gates
    ensures g in Succs(gl, nl, p)
  {
    ReadersOfMembers(nl, gl[p].nets, g);
  }

  lemma AllReadersAppend(nl: seq<Net>, x: Net)
    ensures AllReaders(nl + [x]) == AllReaders(nl) + x.gates
  {
    assert (nl + [x])[..|nl|] == nl;
  }

  /** Every gate listed by AllReaders reads some net. */
  lemma {:induction false} AllReadersMembers(nl: seq<Net>, g: nat)
    requires g in AllReaders(nl)
    ensures exists n :: 0 <= n < |nl| && g in nl[n].gates
    decreases |nl|
  {
    var init := nl[..|nl| - 1];
    if g in AllReaders(init) {
      AllReadersMembers(init, g);
      var n :| 0 <= n < |init| && g in init[n].gates;
      assert nl[n] == init[n];
    } else {
      assert g in nl[|nl| - 1].gates;
    }
  }

  /** A gate id beyond the gate list is nobody's reader. */
  lemma UnlistedGateReadsNothing(gl: seq<Gate>, nl: seq<Net>, g: nat)
    requires Wired(gl, nl) && g >= |gl|
    ensures Count(g, AllReaders(nl)) == 0
  {
    if g in AllReaders(nl) {
      AllReadersMembers(nl, g);
    }
  }

  /** Appending reader g to net i adds exactly one occurrence of g to AllReaders. */
  lemma {:induction false} AllReadersAddReader(nl: seq<Net>, nl': seq<Net>, i: nat, g: nat)
    requires |nl'| == |nl| && i < |nl|
    requires nl'[i].gates == nl[i].gates + [g]
    requires forall j :: 0 <= j < |nl| && j != i ==> nl'[j].gates == nl[j].gates
    ensures multiset(AllReaders(nl')) == multiset(AllReaders(nl)) + multiset{g}
    decreases |nl|
  {
    var k := |nl| - 1;
    assert AllReaders(nl) == AllReaders(nl[..k]) + nl[k].gates;
    assert AllReaders(nl') == AllReaders(nl'[..k]) + nl'[k].gates;
    if i == k {
      AllReadersSameGates(nl[..k], nl'[..k]);
      assert multiset(nl'[k].gates) == multiset(nl[k].gates) + multiset{g};
    } else {
      AllReadersAddReader(nl[..k], nl'[..k], i, g);
      assert nl'[k].gates == nl[k].gates;
    }
  }

  /** AllReaders depends on the readers lists only. */
  lemma {:induction false} AllReadersSameGates(nl: seq<Net>, nl': seq<Net>)
    requires |nl'| == |nl|
    requires forall j :: 0 <= j < |nl| ==> nl'[j].gates == nl[j].gates
    ensures AllReaders(nl') == AllReaders(nl)
    decreases |nl|
  {
    if nl != [] {
      AllReadersSameGates(nl[..|nl| - 1], nl'[..|nl| - 1]);
    }
  }

  // ---------------------------------------------------------------------------
  // Edits that keep the graph well formed

  /** Changing anything but ids and links (counts, categories, types, times) keeps the graph well formed. */
  lemma SameLinks(gl: seq<Gate>, nl: seq<Net>, gl': seq<Gate>, nl': seq<Net>)
    requires WellFormed(gl, nl) && |gl'| == |gl| && |nl'| == |nl|
    requires forall i :: 0 <= i < |gl| ==>
               gl'[i].id == gl[i].id && gl'[i].nets == gl[i].nets && gl'[i].inNets == gl[i].inNets
    requires forall i :: 0 <= i < |nl| ==>
               nl'[i].id == nl[i].id && nl'[i].drivingGate == nl[i].drivingGate && nl'[i].gates == nl[i].gates
    ensures WellFormed(gl', nl')
  {
    assert forall p :: 0 <= p < |gl| ==> gl'[p].nets == gl[p].nets;
  }

  lemma AppendGate(gl: seq<Gate>, nl: seq<Net>, x: Gate)
    requires WellFormed(gl, nl) && x.id == |gl| && x.nets == [] && x.inNets == []
    ensures WellFormed(gl + [x], nl)
  {
    var gl' := gl + [x];
    forall n | 0 <= n < |nl| && nl[n].drivingGate.Some? && nl[n].drivingGate.value < |gl'|
      ensures n in gl'[nl[n].drivingGate.value].nets
    {
      assert gl'[nl[n].drivingGate.value] == gl[nl[n].drivingGate.value];
    }
  }

  lemma AppendNet(gl: seq<Gate>, nl: seq<Net>, x: Net)
    requires WellFormed(gl, nl) && x.id == |nl| && x.gates == [] && x.drivingGate == None
    ensures WellFormed(gl, nl + [x])
  {
    var nl' := nl + [x];
    forall g, n | 0 <= g < |gl| && n in gl[g].inNets && n < |nl'|
      ensures g in nl'[n].gates
    {
      assert nl'[n] == nl[n];
    }
  }

  /** A new primary input: a net driven by a new gate that drives only it. */
  lemma AppendInput(gl: seq<Gate>, nl: seq<Net>, x: Net, y: Gate)
    requires WellFormed(gl, nl) && x.id == |nl| && x.gates == [] && x.drivingGate == Some(|gl|)
    requires y.id == |gl| && y.nets == [|nl|] && y.inNets == []
    ensures WellFormed(gl + [y], nl + [x])
  {
    var gl', nl' := gl + [y], nl + [x];
    forall n | 0 <= n < |nl'| && nl'[n].drivingGate.Some? && nl'[n].drivingGate.value < |gl'|
      ensures n in gl'[nl'[n].drivingGate.value].nets
    {
      if n < |nl| {
        assert gl'[nl[n].drivingGate.value] == gl[nl[n].drivingGate.value];
      }
    }
    forall g, n | 0 <= g < |gl'| && n in gl'[g].inNets && n < |nl'|
      ensures g in nl'[n].gates
    {
      assert g < |gl| && n < |nl|;
      assert nl'[n] == nl[n];
    }
  }

  /** Listing gate g as a reader of net n (and setting n's category to t). */
  lemma AddReader(gl: seq<Gate>, nl: seq<Net>, n: nat, g: nat, t: NetType)
    requires WellFormed(gl, nl) && n < |nl| && g < |gl|
    ensures WellFormed(gl, nl[n := nl[n].(ntype := t, gates := nl[n].gates + [g])])
  {
    var nl' := nl[n := nl[n].(ntype := t, gates := nl[n].gates + [g])];
    forall g', m | 0 <= g' < |gl| && m in gl[g'].inNets && m < |nl'|
      ensures g' in nl'[m].gates
    {
      assert g' in nl[m].gates;
    }
  }

  /** Recording net n as read by gate g, which is already among n's readers. */
  lemma AddInNet(gl: seq<Gate>, nl: seq<Net>, g: nat, n: nat)
    requires WellFormed(gl, nl) && n < |nl| && g < |gl| && g in nl[n].gates
    ensures WellFormed(gl[g := gl[g].(inNets := gl[g].inNets + [n])], nl)
  {
    var gl' := gl[g := gl[g].(inNets := gl[g].inNets + [n])];
    forall p | 0 <= p < |gl|
      ensures gl'[p].nets == gl[p].nets
    {
    }
    forall g', m | 0 <= g' < |gl'| && m in gl'[g'].inNets && m < |nl|
      ensures g' in nl[m].gates
    {
      if g' != g || m != n {
        assert m in gl[g'].inNets;
      }
    }
  }

  /** Recording net n as driven by gate g. */
  lemma AddOutNet(gl: seq<Gate>, nl: seq<Net>, g: nat, n: nat)
    requires WellFormed(gl, nl) && n < |nl| && g < |gl|
    ensures WellFormed(gl[g := gl[g].(nets := gl[g].nets + [n])], nl)
  {
    var gl' := gl[g := gl[g].(nets := gl[g].nets + [n])];
    forall m | 0 <= m < |nl| && nl[m].drivingGate.Some? && nl[m].drivingGate.value < |gl'|
      ensures m in gl'[nl[m].drivingGate.value].nets
    {
      assert m in gl[nl[m].drivingGate.value].nets;
    }
    forall p | 0 <= p < |gl|
      ensures gl'[p].inNets == gl[p].inNets
    {
    }
  }

  /** Recording gate g, which drives net n, as n's driver. */
  lemma SetDriver(gl: seq<Gate>, nl: seq<Net>, n: nat, g: nat)
    requires WellFormed(gl, nl) && n < |nl| && g < |gl| && n in gl[g].nets
    ensures WellFormed(gl, nl[n := nl[n].(drivingGate := Some(g))])
  {
  }

  // ---------------------------------------------------------------------------
  // Category counters

  /** Changing the category of net i moves one unit of count from its old category to its new one. */
  lemma {:induction false} CountNetTypeRetype(nl: seq<Net>, nl': seq<Net>, i: nat, t: NetType)
    requires |nl'| == |nl| && i < |nl|
    requires forall j :: 0 <= j < |nl| && j != i ==> nl'[j].ntype == nl[j].ntype
    ensures CountNetType(nl', t) + (if nl[i].ntype == t then 1 else 0)
         == CountNetType(nl, t) + (if nl'[i].ntype == t then 1 else 0)
    decreases |nl|
  {
    var k := |nl| - 1;
    if i == k {
      CountNetTypeSame(nl[..k], nl'[..k], t);
    } else {
      CountNetTypeRetype(nl[..k], nl'[..k], i, t);
    }
  }

  lemma {:induction false} CountNetTypeSame(nl: seq<Net>, nl': seq<Net>, t: NetType)
    requires |nl'| == |nl|
    requires forall j :: 0 <= j < |nl| ==> nl'[j].ntype == nl[j].ntype
    ensures CountNetType(nl', t) == CountNetType(nl, t)
    decreases |nl|
  {
    if nl != [] {
      CountNetTypeSame(nl[..|nl| - 1], nl'[..|nl| - 1], t);
    }
  }

  lemma CountNetTypePositive(nl: seq<Net>, i: nat)
    requires i < |nl|
    ensures CountNetType(nl, nl[i].ntype) >= 1
  {
    var t := nl[i].ntype;
    var other := if t == InputNet then OutputNet else InputNet;
    CountNetTypeRetype(nl, nl[i := nl[i].(ntype := other)], i, t);
  }

  lemma CountNetTypeAppend(nl: seq<Net>, x: Net, t: NetType)
    ensures CountNetType(nl + [x], t) == CountNetType(nl, t) + (if x.ntype == t then 1 else 0)
  {
    assert (nl + [x])[..|nl|] == nl;
  }

  /** The five category counters together count every net once. */
  lemma {:induction false} CountNetTypeTotal(nl: seq<Net>)
    ensures CountNetType(nl, InputNet) + CountNetType(nl, OutputNet) + CountNetType(nl, InternalNet)
          + CountNetType(nl, IoNet) + CountNetType(nl, Hyperedge) == |nl|
    decreases |nl|
  {
    if nl != [] {
      CountNetTypeTotal(nl[..|nl| - 1]);
    }
  }

  lemma {:induction false} CountGateTypeSame(gl: seq<Gate>, gl': seq<Gate>, c: nat)
    requires |gl'| == |gl|
    requires forall j :: 0 <= j < |gl| ==> gl'[j].gtype == gl[j].gtype
    ensures CountGateType(gl', c) == CountGateType(gl, c)
    decreases |gl|
  {
    if gl != [] {
      CountGateTypeSame(gl[..|gl| - 1], gl'[..|gl| - 1], c);
    }
  }

  lemma CountGateTypeAppend(gl: seq<Gate>, x: Gate, c: nat)
    ensures CountGateType(gl + [x], c) == CountGateType(gl, c) + (if x.gtype == c then 1 else 0)
  {
    assert (gl + [x])[..|gl|] == gl;
  }

  // ---------------------------------------------------------------------------
  // Edge counts behind the sorter

  lemma {:induction false} EdgesFromNone(T: seq<seq<nat>>, g: nat, k: nat)
    ensures EdgesFrom(T, g, [], k) == 0
  {
    if k > 0 {
      EdgesFromNone(T, g, k - 1);
    }
  }

  /** Marking one more gate as done adds exactly its edges into g. */
  lemma {:induction false} EdgesFromAdd(T: seq<seq<nat>>, g: nat, done: seq<nat>, node: nat, k: nat)
    requires node !in done
    ensures EdgesFrom(T, g, done + [node], k)
         == EdgesFrom(T, g, done, k) + (if node < k && node < |T| then Count(g, T[node]) else 0)
  {
    if k > 0 {
      EdgesFromAdd(T, g, done, node, k - 1);
    }
  }

  lemma {:induction false} EdgesFromBelow(T: seq<seq<nat>>, g: nat, done: seq<nat>, k: nat)
    ensures EdgesFrom(T, g, done, k) <= EdgesInto(T, g, k)
  {
    if k > 0 {
      EdgesFromBelow(T, g, done, k - 1);
    }
  }

  /** The edges from the done gates, plus those of one gate that is not done, are among all edges into g. */
  lemma {:induction false} EdgesFromMissing(T: seq<seq<nat>>, g: nat, done: seq<nat>, p: nat, k: nat)
    requires p < k && p < |T| && p !in done
    ensures EdgesFrom(T, g, done, k) + Count(g, T[p]) <= EdgesInto(T, g, k)
  {
    if p < k - 1 {
      EdgesFromMissing(T, g, done, p, k - 1);
    } else {
      EdgesFromBelow(T, g, done, k - 1);
    }
  }

  /** When the done gates supply fewer edges into g than there are, some gate that is not done has g as successor. */
  lemma {:induction false} EdgesFromShort(T: seq<seq<nat>>, g: nat, done: seq<nat>, k: nat) returns (p: nat)
    requires EdgesFrom(T, g, done, k) < EdgesInto(T, g, k)
    ensures p < k && p < |T| && p !in done && g in T[p]
  {
    if EdgesFrom(T, g, done, k - 1) < EdgesInto(T, g, k - 1) {
      p := EdgesFromShort(T, g, done, k - 1);
    } else {
      EdgesFromBelow(T, g, done, k - 1);
      p := k - 1;
    }
  }

  /** Once the done gates have supplied all of g's fan-in, every gate that drives g is done. */
  lemma ReadyMeansDriversDone(gl: seq<Gate>, T: seq<seq<nat>>, g: nat, done: seq<nat>)
    requires |T| == |gl| && FanInMatchesEdges(gl, T) && g < |gl|
    requires gl[g].fanIn <= EdgesFrom(T, g, done, |T|)
    ensures forall p :: 0 <= p < |T| && g in T[p] ==> p in done
  {
    forall p | 0 <= p < |T| && g in T[p]
      ensures p in done
    {
      if p !in done {
        EdgesFromMissing(T, g, done, p, |T|);
      }
    }
  }

  // ---------------------------------------------------------------------------
  // Kahn's algorithm

  /** The fan-in copy f after decrementing, from base, once per entry of seen; ready lists,
      once each, the gates whose count went from positive to zero. */
  ghost predicate Released(base: seq<int>, seen: seq<nat>, f: seq<int>, ready: seq<nat>) {
    && |f| == |base| && NoDup(ready) && (forall x :: x in ready ==> x < |f|)
    && (forall g :: 0 <= g < |f| ==> f[g] == base[g] - Count(g, seen))
    && (forall g :: 0 <= g < |f| ==> (g in ready <==> base[g] > 0 && f[g] <= 0))
  }

  /** One more decrement, for reader x, appending x to ready when its count reaches zero. */
  lemma ReleasedStep(base: seq<int>, seen: seq<nat>, f: seq<int>, ready: seq<nat>, x: nat)
    requires Released(base, seen, f, ready) && x < |f|
    ensures Released(base, seen + [x], f[x := f[x] - 1], if f[x] - 1 == 0 then ready + [x] else ready)
  {
    if f[x] - 1 == 0 {
      NoDupAppend(ready, [x]);
    }
  }

  /** The state of Kahn's algorithm with `order` emitted and `queue` waiting: the emitted and
      waiting gates are distinct; each gate's remaining count is its fan-in less the edges from
      emitted gates; a gate is emitted or waiting exactly when its count has reached zero; and,
      when fan-ins count edges, what was emitted is a topological order. */
  ghost predicate Sorting(gl: seq<Gate>, T: seq<seq<nat>>, fanin: seq<int>, order: seq<nat>, queue: seq<nat>) {
    && |fanin| == |gl| == |T|
    && NoDup(order + queue) && (forall x :: x in order ==> x < |T|) && (forall x :: x in queue ==> x < |T|)
    && (forall g :: 0 <= g < |T| ==> fanin[g] == gl[g].fanIn - EdgesFrom(T, g, order, |T|))
    && (forall g :: 0 <= g < |T| ==> (g in order + queue <==> fanin[g] <= 0))
    && (FanInMatchesEdges(gl, T) ==> IsTopoOrder(T, order))
  }

  lemma SortingStart(gl: seq<Gate>, T: seq<seq<nat>>, fanin: seq<int>, queue: seq<nat>)
    requires |fanin| == |gl| == |T|
    requires forall g :: 0 <= g < |T| ==> fanin[g] == gl[g].fanIn
    requires NoDup(queue) && forall x :: x in queue ==> x < |T|
    requires forall g :: 0 <= g < |T| ==> (g in queue <==> gl[g].fanIn == 0)
    ensures Sorting(gl, T, fanin, [], queue)
  {
    forall g | 0 <= g < |T|
      ensures EdgesFrom(T, g, [], |T|) == 0
    {
      EdgesFromNone(T, g, |T|);
    }
    assert [] + queue == queue;
  }

  /** Dequeuing the head, emitting it, and enqueuing the gates whose count its edges bring
      to zero keeps the state of the algorithm; the head could be emitted, so fewer than
      all gates had been emitted before. */
  lemma SortingStep(gl: seq<Gate>, T: seq<seq<nat>>, fanin: seq<int>, order: seq<nat>, queue: seq<nat>,
                    fanin': seq<int>, added: seq<nat>)
    requires Sorting(gl, T, fanin, order, queue) && queue != [] && queue[0] < |T|
    requires |fanin'| == |fanin|
    requires forall g :: 0 <= g < |T| ==> fanin'[g] == fanin[g] - Count(g, T[queue[0]])
    requires NoDup(added) && forall x :: x in added ==> x < |T|
    requires forall g :: 0 <= g < |T| ==> (g in added <==> fanin[g] > 0 && fanin'[g] <= 0)
    ensures |order| < |T|
    ensures Sorting(gl, T, fanin', order + [queue[0]], queue[1..] + added)
  {
    var n := |T|;
    var node := queue[0];
    Pigeonhole(order + queue, n);
    var order' := order + [node];
    assert order + queue == order' + queue[1..];
    assert (order + queue)[|order|] == node;
    NoDupParts(order, queue);
    assert node in queue;
    assert order' == (order + queue)[..|order| + 1];
    if FanInMatchesEdges(gl, T) {
      ReadyMeansDriversDone(gl, T, node, order);
      forall j, p | 0 <= j < |order'| && 0 <= p < |T| && order'[j] in T[p]
        ensures p in order'[..j]
      {
        if j < |order| {
          assert order'[..j] == order[..j];
        } else {
          assert order'[..j] == order;
        }
      }
    }
    forall g | 0 <= g < n
      ensures EdgesFrom(T, g, order', n) == EdgesFrom(T, g, order, n) + Count(g, T[node])
    {
      EdgesFromAdd(T, g, order, node, n);
    }
    assert order' + (queue[1..] + added) == (order + queue) + added;
    NoDupAppend(order + queue, added);
    forall x | x in queue[1..] + added
      ensures x < n
    {
      if x in queue[1..] {
        assert x in queue;
      }
    }
  }

  /** When the queue runs dry, the emitted gates are distinct; all were emitted or, when
      fan-ins count edges, the ones left out form a stuck set. */
  lemma SortingDone(gl: seq<Gate>, T: seq<seq<nat>>, fanin: seq<int>, order: seq<nat>)
    requires Sorting(gl, T, fanin, order, [])
    ensures NoDup(order) && (forall x :: x in order ==> x < |T|) && |order| <= |T|
    ensures |order| == |T| ==> Complete(|T|, order)
    ensures |order| < |T| && FanInMatchesEdges(gl, T) ==> StuckSet(T, Unsorted(|T|, order))
  {
    var n := |T|;
    assert order + [] == order;
    Pigeonhole(order, n);
    if |order| < n && FanInMatchesEdges(gl, T) {
      var U := Unsorted(n, order);
      RangeMembers(n);
      forall g | g in U
        ensures g < |T| && DrivenFrom(T, U, g)
      {
        var p := EdgesFromShort(T, g, order, n);
        assert p in U;
      }
    }
  }

  // ---------------------------------------------------------------------------
  // Topological orders

  /** No member of a stuck set can be placed in a topological order, so no topological
      order lists every gate. */
  lemma StuckExcludesOrder(T: seq<seq<nat>>, U: set<nat>, order: seq<nat>)
    requires StuckSet(T, U) && IsTopoOrder(T, order)
    ensures forall g :: g in U ==> g !in order
    ensures !Complete(|T|, order)
  {
    forall j | 0 <= j < |order|
      ensures order[j] !in U
    {
      StuckPrefix(T, U, order, j);
    }
    var g :| g in U;
    assert g !in order;
  }

  lemma {:induction false} StuckPrefix(T: seq<seq<nat>>, U: set<nat>, order: seq<nat>, j: nat)
    requires StuckSet(T, U) && IsTopoOrder(T, order) && j < |order|
    ensures order[j] !in U
    decreases j
  {
    if order[j] in U {
      assert DrivenFrom(T, U, order[j]);
      var p :| p in U && p < |T| && order[j] in T[p];
      assert p in order[..j];
      var i :| 0 <= i < j && order[i] == p;
      StuckPrefix(T, U, order, i);
    }
  }

  lemma {:induction false} RangeMembers(n: nat)
    ensures |Range(n)| == n
    ensures forall g: nat :: g in Range(n) <==> g < n
  {
    if n > 0 {
      RangeMembers(n - 1);
      assert n - 1 !in Range(n - 1);
    }
  }

  lemma SubsetCard(A: set<nat>, B: set<nat>)
    requires A <= B
    ensures |A| <= |B|
    ensures |A| == |B| ==> A == B
  {
    assert B == A + (B - A);
    assert A * (B - A) == {};
  }

  lemma {:induction false} DistinctCard(s: seq<nat>)
    requires NoDup(s)
    ensures |set x: nat | x in s| == |s|
    decreases |s|
  {
    if s != [] {
      var init := s[..|s| - 1];
      assert s == init + [s[|s| - 1]];
      assert s[|s| - 1] !in init;
      DistinctCard(init);
      assert s[|s| - 1] !in (set x: nat | x in init);
      assert (set x: nat | x in s) == (set x: nat | x in init) + {s[|s| - 1]};
    }
  }

  /** A list of distinct gates below n has at most n entries; with exactly n it lists them
      all, with fewer it leaves one out. */
  lemma Pigeonhole(s: seq<nat>, n: nat)
    requires NoDup(s) && forall x :: x in s ==> x < n
    ensures |s| <= n
    ensures |s| == n ==> Complete(n, s)
    ensures |s| < n ==> Unsorted(n, s) != {}
  {
    var E := set x: nat | x in s;
    DistinctCard(s);
    RangeMembers(n);
    SubsetCard(E, Range(n));
    assert E <= Range(n);
    if |s| == n {
      forall g | 0 <= g < n
        ensures g in s
      {
        assert g in Range(n);
      }
    }
    if |s| < n {
      assert Range(n) != E;
      var g :| g in Range(n) && g !in E;
      assert g in Unsorted(n, s);
    }
  }
}
