/**
 The bookkeeping the circuit keeps beside its adjacency lists: the gate-type registry,
 the net-name table, the per-category and per-type counters, and the fan-in counts,
 each as a property of plain values with the edits that preserve it.
 */
module Tables {
  import opened Types
  import opened Graph

  // ---------------------------------------------------------------------------
  // Gate-type registry

  /** The code get_gate_type hands out for name: the code already registered, or the next free one. */
  function CodeOf(reg: map<string, nat>, name: string): nat {
    if name in reg then reg[name] else |reg|
  }

  /** Codes are below the number of registered names, and no two names share a code. */
  ghost predicate IsRegistry(reg: map<string, nat>) {
    && (forall s :: s in reg ==> reg[s] < |reg|)
    && (forall s, s' :: s in reg && s' in reg && reg[s] == reg[s'] ==> s == s')
  }

  /** Registering a name keeps the codes dense and distinct, hands out a code below the new
      size, and leaves the code of every name registered before alone. */
  lemma Register(reg: map<string, nat>, name: string)
    requires IsRegistry(reg)
    ensures IsRegistry(reg[name := CodeOf(reg, name)])
    ensures CodeOf(reg, name) < |reg[name := CodeOf(reg, name)]|
    ensures forall s :: s in reg ==> reg[name := CodeOf(reg, name)][s] == reg[s]
  {
    if name !in reg {
      var reg' := reg[name := |reg|];
      assert reg'.Keys == reg.Keys + {name};
      assert |reg'| == |reg| + 1;
    } else {
      assert reg[name := reg[name]] == reg;
    }
  }

  /** The codes of the names in K, for a table that gives distinct names distinct codes. */
  lemma {:induction false} ImageCard(reg: map<string, nat>, K: set<string>)
    requires K <= reg.Keys
    requires forall s, s' :: s in reg && s' in reg && reg[s] == reg[s'] ==> s == s'
    ensures |set s | s in K :: reg[s]| == |K|
    decreases |K|
  {
    if K != {} {
      var s :| s in K;
      var K' := K - {s};
      ImageCard(reg, K');
      assert (set t | t in K :: reg[t]) == (set t | t in K' :: reg[t]) + {reg[s]};
      assert reg[s] !in (set t | t in K' :: reg[t]);
    }
  }

  /** Every code below the number of registered names is the code of some name. */
  lemma CodesDense(reg: map<string, nat>, c: nat)
    requires IsRegistry(reg) && c < |reg|
    ensures exists s :: s in reg && reg[s] == c
  {
    var img := set s | s in reg.Keys :: reg[s];
    ImageCard(reg, reg.Keys);
    assert |reg.Keys| == |reg|;
    RangeMembers(|reg|);
    assert img <= Range(|reg|);
    SubsetCard(img, Range(|reg|));
    assert c in Range(|reg|);
  }

  /** key is a name m maps to id, or "" when m maps no name to id: what a scan of the
      table for the first entry with value id returns. */
  ghost predicate KeyOf(m: map<string, nat>, id: nat, key: string) {
    if exists k :: k in m && m[k] == id then key in m && m[key] == id else key == ""
  }

  /** get_gate_name inverts get_gate_type: the name found for a registered name's code is that name. */
  lemma GateNameInverse(reg: map<string, nat>, name: string, key: string)
    requires IsRegistry(reg) && name in reg && KeyOf(reg, reg[name], key)
    ensures key == name
  {
  }

  /** Every code handed out so far names a type, and no other code does. */
  lemma GateNameDefined(reg: map<string, nat>, c: nat, key: string)
    requires IsRegistry(reg) && KeyOf(reg, c, key)
    ensures c < |reg| ==> key in reg && reg[key] == c
    ensures c >= |reg| ==> key == ""
  {
    if c < |reg| {
      CodesDense(reg, c);
    }
  }

  // ---------------------------------------------------------------------------
  // Net names

  /** Every name denotes one of the nets 0 .. n-1, and no two names denote the same net. */
  ghost predicate NamesOk(em: map<string, nat>, n: nat) {
    && (forall s :: s in em ==> em[s] < n)
    && (forall s, s' :: s in em && s' in em && em[s] == em[s'] ==> s == s')
  }

  /** Binding a name (new or not) to a new net n keeps the table sound for n + 1 nets. */
  lemma NamesBind(em: map<string, nat>, n: nat, tag: string)
    requires NamesOk(em, n)
    ensures NamesOk(em[tag := n], n + 1)
  {
  }

  /** get_edge_name finds, for the net a name is bound to, that very name. */
  lemma EdgeNameInverse(em: map<string, nat>, n: nat, tag: string, key: string)
    requires NamesOk(em, n) && tag in em && KeyOf(em, em[tag], key)
    ensures key == tag
  {
  }

  // ---------------------------------------------------------------------------
  // Counters

  /** What `m[k]` reads for a counter map: the stored count, or 0 for a key never touched. */
  function Tally<K>(m: map<K, int>, k: K): int {
    if k in m then m[k] else 0
  }

  /** `m[k] += d`. */
  function Bump<K>(m: map<K, int>, k: K, d: int): map<K, int> {
    m[k := Tally(m, k) + d]
  }

  /** nt records, for every category, how many nets of nl have it. */
  ghost predicate NetCountsOk(nt: map<NetType, int>, nl: seq<Net>) {
    forall t: NetType :: Tally(nt, t) == CountNetType(nl, t)
  }

  /** gt records, for every type code, how many gates of gl have it. */
  ghost predicate GateCountsOk(gt: map<nat, int>, gl: seq<Gate>) {
    forall c: nat :: Tally(gt, c) == CountGateType(gl, c)
  }

  lemma NetCountsAppend(nt: map<NetType, int>, nl: seq<Net>, x: Net)
    requires NetCountsOk(nt, nl)
    ensures NetCountsOk(Bump(nt, x.ntype, 1), nl + [x])
  {
    forall t: NetType
      ensures CountNetType(nl + [x], t) == CountNetType(nl, t) + (if x.ntype == t then 1 else 0)
    {
      CountNetTypeAppend(nl, x, t);
    }
  }

  lemma NetCountsSame(nt: map<NetType, int>, nl: seq<Net>, nl': seq<Net>)
    requires NetCountsOk(nt, nl) && |nl'| == |nl|
    requires forall j :: 0 <= j < |nl| ==> nl'[j].ntype == nl[j].ntype
    ensures NetCountsOk(nt, nl')
  {
    forall t: NetType
      ensures CountNetType(nl', t) == CountNetType(nl, t)
    {
      CountNetTypeSame(nl, nl', t);
    }
  }

  /** Recategorising net i: decrementing its old category's counter and incrementing its
      new one keeps the counters exact, and the old counter was positive to begin with. */
  lemma NetCountsMove(nt: map<NetType, int>, nl: seq<Net>, nl': seq<Net>, i: nat)
    requires NetCountsOk(nt, nl) && |nl'| == |nl| && i < |nl|
    requires forall j :: 0 <= j < |nl| && j != i ==> nl'[j].ntype == nl[j].ntype
    ensures Tally(nt, nl[i].ntype) > 0
    ensures NetCountsOk(Bump(Bump(nt, nl[i].ntype, -1), nl'[i].ntype, 1), nl')
  {
    CountNetTypePositive(nl, i);
    forall t: NetType
      ensures CountNetType(nl', t) + (if nl[i].ntype == t then 1 else 0)
           == CountNetType(nl, t) + (if nl'[i].ntype == t then 1 else 0)
    {
      CountNetTypeRetype(nl, nl', i, t);
    }
  }

  lemma GateCountsAppend(gt: map<nat, int>, gl: seq<Gate>, x: Gate)
    requires GateCountsOk(gt, gl)
    ensures GateCountsOk(Bump(gt, x.gtype, 1), gl + [x])
  {
    forall c: nat
      ensures CountGateType(gl + [x], c) == CountGateType(gl, c) + (if x.gtype == c then 1 else 0)
    {
      CountGateTypeAppend(gl, x, c);
    }
  }

  lemma GateCountsSame(gt: map<nat, int>, gl: seq<Gate>, gl': seq<Gate>)
    requires GateCountsOk(gt, gl) && |gl'| == |gl|
    requires forall j :: 0 <= j < |gl| ==> gl'[j].gtype == gl[j].gtype
    ensures GateCountsOk(gt, gl')
  {
    forall c: nat
      ensures CountGateType(gl', c) == CountGateType(gl, c)
    {
      CountGateTypeSame(gl, gl', c);
    }
  }

  // ---------------------------------------------------------------------------
  // Fan-in

  /** Each gate's fan-in is the number of times it is listed as a net's reader. */
  ghost predicate FanInOk(gl: seq<Gate>, nl: seq<Net>) {
    forall g :: 0 <= g < |gl| ==> gl[g].fanIn == Count(g, AllReaders(nl))
  }

  /** Fan-ins stay exact when neither they nor the multiset of listed readers change. */
  lemma FanInSame(gl: seq<Gate>, nl: seq<Net>, gl': seq<Gate>, nl': seq<Net>)
    requires FanInOk(gl, nl) && |gl'| == |gl| && multiset(AllReaders(nl')) == multiset(AllReaders(nl))
    requires forall g :: 0 <= g < |gl| ==> gl'[g].fanIn == gl[g].fanIn
    ensures FanInOk(gl', nl')
  {
  }

  /** A new gate with no fan-in; nobody lists it as a reader yet. */
  lemma FanInAppendGate(gl: seq<Gate>, nl: seq<Net>, x: Gate)
    requires FanInOk(gl, nl) && Wired(gl, nl) && x.fanIn == 0
    ensures FanInOk(gl + [x], nl)
  {
    UnlistedGateReadsNothing(gl, nl, |gl|);
  }

  /** A new net with no readers. */
  lemma FanInAppendNet(gl: seq<Gate>, nl: seq<Net>, x: Net)
    requires FanInOk(gl, nl) && x.gates == []
    ensures FanInOk(gl, nl + [x])
  {
    AllReadersAppend(nl, x);
    assert AllReaders(nl) + x.gates == AllReaders(nl);
  }

  /** Listing gate g as one more reader of net i while adding one to g's fan-in. */
  lemma FanInAddReader(gl: seq<Gate>, nl: seq<Net>, nl': seq<Net>, i: nat, g: nat)
    requires FanInOk(gl, nl) && i < |nl| && g < |gl| && |nl'| == |nl|
    requires nl'[i].gates == nl[i].gates + [g]
    requires forall j :: 0 <= j < |nl| && j != i ==> nl'[j].gates == nl[j].gates
    ensures FanInOk(gl[g := gl[g].(fanIn := gl[g].fanIn + 1)], nl')
  {
    AllReadersAddReader(nl, nl', i, g);
  }

  // ---------------------------------------------------------------------------
  // Fan-in seen from the drivers

  /** The nets the gates drive, gate after gate. */
  function DrivenNets(gl: seq<Gate>): seq<nat>
    decreases |gl|
  {
    if gl == [] then [] else DrivenNets(gl[..|gl| - 1]) + gl[|gl| - 1].nets
  }

  /** Every net that has a reader is listed exactly once among the nets the gates drive. */
  ghost predicate DrivenOnce(gl: seq<Gate>, nl: seq<Net>) {
    forall n :: 0 <= n < |nl| && nl[n].gates != [] ==> Count(n, DrivenNets(gl)) == 1
  }

  /** How often g is reached from the nets of `nets` among the first k nets of nl: each such
      net contributes its number of occurrences in `nets` times the times it lists g. */
  function Reached(nl: seq<Net>, nets: seq<nat>, g: nat, k: nat): nat
    requires k <= |nl|
  {
    if k == 0 then 0 else Reached(nl, nets, g, k - 1) + Count(k - 1, nets) * Count(g, nl[k - 1].gates)
  }

  lemma Distribute(x: nat, y: nat, c: nat)
    ensures (x + y) * c == x * c + y * c
  {
  }

  lemma OnceTimes(x: nat, c: nat)
    requires x == 1 || c == 0
    ensures x * c == c
  {
  }

  lemma {:induction false} ReachedConcat(nl: seq<Net>, a: seq<nat>, b: seq<nat>, g: nat, k: nat)
    requires k <= |nl|
    ensures Reached(nl, a + b, g, k) == Reached(nl, a, g, k) + Reached(nl, b, g, k)
  {
    if k > 0 {
      ReachedConcat(nl, a, b, g, k - 1);
      assert multiset(a + b) == multiset(a) + multiset(b);
      Distribute(Count(k - 1, a), Count(k - 1, b), Count(g, nl[k - 1].gates));
    }
  }

  /** The walk over `nets` visits g as often as the weighted count says. */
  lemma {:induction false} ReadersOfReached(nl: seq<Net>, nets: seq<nat>, g: nat)
    ensures Count(g, ReadersOf(nl, nets)) == Reached(nl, nets, g, |nl|)
    decreases |nets|
  {
    if nets == [] {
      ReachedNone(nl, g, |nl|);
    } else {
      var init, d := nets[..|nets| - 1], nets[|nets| - 1];
      assert nets == init + [d];
      ReadersOfReached(nl, init, g);
      ReachedConcat(nl, init, [d], g, |nl|);
      ReachedOne(nl, d, g, |nl|);
      assert multiset(ReadersOf(nl, nets)) == multiset(ReadersOf(nl, init)) + multiset(Readers(nl, d));
    }
  }

  lemma {:induction false} ReachedNone(nl: seq<Net>, g: nat, k: nat)
    requires k <= |nl|
    ensures Reached(nl, [], g, k) == 0
  {
    if k > 0 {
      ReachedNone(nl, g, k - 1);
    }
  }

  lemma {:induction false} ReachedOne(nl: seq<Net>, d: nat, g: nat, k: nat)
    requires k <= |nl|
    ensures Reached(nl, [d], g, k) == if d < k then Count(g, nl[d].gates) else 0
  {
    if k > 0 {
      ReachedOne(nl, d, g, k - 1);
      OnceTimes(Count(k - 1, [d]), if d == k - 1 then Count(g, nl[k - 1].gates) else 0);
    }
  }

  /** The edge occurrences into g from the first k gates are g's visits over their driven nets. */
  lemma {:induction false} EdgesIntoReached(gl: seq<Gate>, nl: seq<Net>, g: nat, k: nat)
    requires k <= |gl|
    ensures EdgesInto(SuccTable(gl, nl), g, k) == Reached(nl, DrivenNets(gl[..k]), g, |nl|)
  {
    if k == 0 {
      assert gl[..0] == [];
      ReachedNone(nl, g, |nl|);
    } else {
      EdgesIntoReached(gl, nl, g, k - 1);
      assert gl[..k][..k - 1] == gl[..k - 1];
      ReachedConcat(nl, DrivenNets(gl[..k - 1]), gl[k - 1].nets, g, |nl|);
      ReadersOfReached(nl, gl[k - 1].nets, g);
    }
  }

  /** When each net with readers is counted once, the weighted count is a plain count of g
      among the readers of the first k nets. */
  lemma {:induction false} ReachedOnce(nl: seq<Net>, nets: seq<nat>, g: nat, k: nat)
    requires k <= |nl|
    requires forall n :: 0 <= n < |nl| && nl[n].gates != [] ==> Count(n, nets) == 1
    ensures Reached(nl, nets, g, k) == Count(g, AllReaders(nl[..k]))
  {
    if k > 0 {
      ReachedOnce(nl, nets, g, k - 1);
      assert nl[..k][..k - 1] == nl[..k - 1];
      var rs := nl[k - 1].gates;
      assert AllReaders(nl[..k]) == AllReaders(nl[..k - 1]) + rs;
      assert multiset(AllReaders(nl[..k])) == multiset(AllReaders(nl[..k - 1])) + multiset(rs);
      if rs == [] {
        assert Count(g, rs) == 0;
      }
      OnceTimes(Count(k - 1, nets), Count(g, rs));
    }
  }

  /** The builder's fan-in invariant implies the one the topological sort relies on as soon as
      every net with readers is driven exactly once: then each reader listing is exactly one
      edge from the net's driver. */
  lemma FanInMatchesWhenDrivenOnce(gl: seq<Gate>, nl: seq<Net>)
    requires FanInOk(gl, nl) && DrivenOnce(gl, nl)
    ensures FanInMatchesEdges(gl, SuccTable(gl, nl))
  {
    forall g | 0 <= g < |gl|
      ensures gl[g].fanIn == EdgesInto(SuccTable(gl, nl), g, |gl|)
    {
      EdgesIntoReached(gl, nl, g, |gl|);
      assert gl[..|gl|] == gl;
      ReachedOnce(nl, DrivenNets(gl), g, |nl|);
      assert nl[..|nl|] == nl;
    }
  }
}
