/**
 The same-type statistics of update_same_faninout: for every gate type, how many gates of
 that type drive a gate of their own type, and how many are driven by one. INPUT and
 OUTPUT gates are never the driving side of such a link.
 */
module SameType {
  import opened Types
  import opened Graph
  import opened Tables

  /** Gate g, neither an INPUT (code inT) nor an OUTPUT (code outT) gate, drives gate x, and
      the two have the same type. */
  ghost predicate Link(gl: seq<Gate>, nl: seq<Net>, inT: nat, outT: nat, g: nat, x: nat) {
    && g < |gl| && x < |gl|
    && gl[g].gtype != inT && gl[g].gtype != outT
    && x in Succs(gl, nl, g) && gl[x].gtype == gl[g].gtype
  }

  /** Gate g drives at least one gate of its own type. */
  ghost predicate DrivesSame(gl: seq<Gate>, nl: seq<Net>, inT: nat, outT: nat, g: nat) {
    exists x :: Link(gl, nl, inT, outT, g, x)
  }

  /** Gate x is driven by at least one gate of its own type. */
  ghost predicate FedSame(gl: seq<Gate>, nl: seq<Net>, inT: nat, outT: nat, x: nat) {
    exists g :: Link(gl, nl, inT, outT, g, x)
  }

  /** The fout flags: entry g says whether gate g drives a gate of its own type. */
  ghost function DriveFlags(gl: seq<Gate>, nl: seq<Net>, inT: nat, outT: nat): seq<bool> {
    seq(|gl|, g requires 0 <= g < |gl| => DrivesSame(gl, nl, inT, outT, g))
  }

  /** The fin flags: entry x says whether gate x is driven by a gate of its own type. */
  ghost function FedFlags(gl: seq<Gate>, nl: seq<Net>, inT: nat, outT: nat): seq<bool> {
    seq(|gl|, x requires 0 <= x < |gl| => FedSame(gl, nl, inT, outT, x))
  }

  /** How many gates of type t are flagged in marks. */
  function MarkedOfType(gl: seq<Gate>, marks: seq<bool>, t: nat): nat
    requires |marks| == |gl|
    decreases |gl|
  {
    if gl == [] then 0
    else MarkedOfType(gl[..|gl| - 1], marks[..|gl| - 1], t) + (if marks[|gl| - 1] && gl[|gl| - 1].gtype == t then 1 else 0)
  }

  // ---------------------------------------------------------------------------
  // The loops

  /** The flags after the gates 0 .. i-1 have been processed: fout marks the gates among them
      that drive a gate of their own type, fin the gates driven by one of them that way. */
  ghost predicate MarkedUpTo(gl: seq<Gate>, nl: seq<Net>, inT: nat, outT: nat, i: nat, fin: seq<bool>, fout: seq<bool>) {
    && |fin| == |gl| && |fout| == |gl|
    && (forall g :: 0 <= g < |gl| ==> (fout[g] <==> g < i && DrivesSame(gl, nl, inT, outT, g)))
    && (forall x :: 0 <= x < |gl| ==> (fin[x] <==> exists g :: 0 <= g < i && Link(gl, nl, inT, outT, g, x)))
  }

  /** The flag-setting loops of update_same_faninout over the gate and net lists: fout marks
      every gate that drives a gate of its own type, fin every gate driven by one. */
  method MarkSameType(gl: seq<Gate>, nl: seq<Net>, inT: nat, outT: nat) returns (fin: seq<bool>, fout: seq<bool>)
    requires Wired(gl, nl) && forall i :: 0 <= i < |gl| ==> gl[i].id == i
    ensures fin == FedFlags(gl, nl, inT, outT)
    ensures fout == DriveFlags(gl, nl, inT, outT)
  {
    var fi := new bool[|gl|](_ => false);
    var fo := new bool[|gl|](_ => false);
    var i := 0;
    while i < |gl|
      invariant 0 <= i <= |gl| && fi.Length == fo.Length == |gl|
      invariant MarkedUpTo(gl, nl, inT, outT, i, fi[..], fo[..])
    {
      ghost var fi0, fo0 := fi[..], fo[..];
      if gl[i].gtype != inT && gl[i].gtype != outT {
        MarkGate(fi, fo, gl, nl, i);
        MarkedNext(gl, nl, inT, outT, i, fi0, fo0, fi[..], fo[..]);
      } else {
        MarkedSkip(gl, nl, inT, outT, i, fi0, fo0);
      }
      i := i + 1;
    }
    MarkedDone(gl, nl, inT, outT, fi[..], fo[..]);
    fin, fout := fi[..], fo[..];
  }

  /** Processing gate i, which is neither an INPUT nor an OUTPUT gate. */
  lemma MarkedNext(gl: seq<Gate>, nl: seq<Net>, inT: nat, outT: nat, i: nat,
                   fin: seq<bool>, fout: seq<bool>, fin': seq<bool>, fout': seq<bool>)
    requires i < |gl| && gl[i].gtype != inT && gl[i].gtype != outT
    requires MarkedUpTo(gl, nl, inT, outT, i, fin, fout) && |fin'| == |fout'| == |gl|
    requires forall g :: 0 <= g < |gl| && g != i ==> fout'[g] == fout[g]
    requires fout'[i] <==> fout[i] || exists x :: 0 <= x < |gl| && x in Succs(gl, nl, i) && gl[x].gtype == gl[i].gtype
    requires forall x :: 0 <= x < |gl| ==> (fin'[x] <==> fin[x] || (x in Succs(gl, nl, i) && gl[x].gtype == gl[i].gtype))
    ensures MarkedUpTo(gl, nl, inT, outT, i + 1, fin', fout')
  {
    forall x | 0 <= x < |gl|
      ensures fin'[x] <==> exists g :: 0 <= g < i + 1 && Link(gl, nl, inT, outT, g, x)
    {
      if fin'[x] && !fin[x] {
        assert Link(gl, nl, inT, outT, i, x);
      }
    }
    if fout'[i] {
      var x :| 0 <= x < |gl| && x in Succs(gl, nl, i) && gl[x].gtype == gl[i].gtype;
      assert Link(gl, nl, inT, outT, i, x);
    }
  }

  /** Skipping gate i, an INPUT or OUTPUT gate: it links to nothing. */
  lemma MarkedSkip(gl: seq<Gate>, nl: seq<Net>, inT: nat, outT: nat, i: nat, fin: seq<bool>, fout: seq<bool>)
    requires i < |gl| && (gl[i].gtype == inT || gl[i].gtype == outT)
    requires MarkedUpTo(gl, nl, inT, outT, i, fin, fout)
    ensures MarkedUpTo(gl, nl, inT, outT, i + 1, fin, fout)
  {
    assert forall x :: !Link(gl, nl, inT, outT, i, x);
  }

  /** With every gate processed, the flags are the specification's. */
  lemma MarkedDone(gl: seq<Gate>, nl: seq<Net>, inT: nat, outT: nat, fin: seq<bool>, fout: seq<bool>)
    requires MarkedUpTo(gl, nl, inT, outT, |gl|, fin, fout)
    ensures fin == FedFlags(gl, nl, inT, outT) && fout == DriveFlags(gl, nl, inT, outT)
  {
    forall x | 0 <= x < |gl|
      ensures fin[x] == FedSame(gl, nl, inT, outT, x)
    {
      if FedSame(gl, nl, inT, outT, x) {
        var g :| Link(gl, nl, inT, outT, g, x);
      }
    }
  }

  /** One gate's pass: over the readers of every net gate p drives, mark p in fo and the
      reader in fi whenever the reader has p's type. */
  method MarkGate(fi: array<bool>, fo: array<bool>, gl: seq<Gate>, nl: seq<Net>, p: nat)
    requires fi != fo && fi.Length == fo.Length == |gl| && p < |gl| && gl[p].id == p
    requires Wired(gl, nl)
    modifies fi, fo
    ensures forall g :: 0 <= g < |gl| && g != p ==> fo[g] == old(fo[g])
    ensures fo[p] <==> old(fo[p]) || exists x :: 0 <= x < |gl| && x in Succs(gl, nl, p) && gl[x].gtype == gl[p].gtype
    ensures forall x :: 0 <= x < |gl| ==>
              (fi[x] <==> old(fi[x]) || (x in Succs(gl, nl, p) && gl[x].gtype == gl[p].gtype))
  {
    var nets := gl[p].nets;
    var j := 0;
    assert ReadersOf(nl, nets[..0]) == [];
    while j < |nets|
      invariant 0 <= j <= |nets|
      invariant forall g :: 0 <= g < |gl| && g != p ==> fo[g] == old(fo[g])
      invariant fo[p] <==> old(fo[p]) || exists x :: 0 <= x < |gl| && x in ReadersOf(nl, nets[..j]) && gl[x].gtype == gl[p].gtype
      invariant forall x :: 0 <= x < |gl| ==>
                  (fi[x] <==> old(fi[x]) || (x in ReadersOf(nl, nets[..j]) && gl[x].gtype == gl[p].gtype))
    {
      assert nets[j] in nets;
      MarkNet(fi, fo, gl, nl[nets[j]].gates, p);
      ReadersOfNext(nl, nets, j);
      j := j + 1;
    }
    assert nets[..j] == nets;
  }

  /** The innermost loop: the readers of one net driven by gate p. */
  method MarkNet(fi: array<bool>, fo: array<bool>, gl: seq<Gate>, readers: seq<nat>, p: nat)
    requires fi != fo && fi.Length == fo.Length == |gl| && p < |gl| && gl[p].id == p
    requires forall x :: x in readers ==> x < |gl|
    modifies fi, fo
    ensures forall g :: 0 <= g < |gl| && g != p ==> fo[g] == old(fo[g])
    ensures fo[p] <==> old(fo[p]) || exists x :: 0 <= x < |gl| && x in readers && gl[x].gtype == gl[p].gtype
    ensures forall x :: 0 <= x < |gl| ==> (fi[x] <==> old(fi[x]) || (x in readers && gl[x].gtype == gl[p].gtype))
  {
    var k := 0;
    while k < |readers|
      invariant 0 <= k <= |readers|
      invariant forall g :: 0 <= g < |gl| && g != p ==> fo[g] == old(fo[g])
      invariant fo[p] <==> old(fo[p]) || exists x :: 0 <= x < |gl| && x in readers[..k] && gl[x].gtype == gl[p].gtype
      invariant forall x :: 0 <= x < |gl| ==> (fi[x] <==> old(fi[x]) || (x in readers[..k] && gl[x].gtype == gl[p].gtype))
    {
      var x := readers[k];
      assert x in readers;
      assert readers[..k + 1] == readers[..k] + [x];
      if gl[x].gtype == gl[p].gtype {
        fo[gl[p].id] := true;
        fi[x] := true;
      }
      k := k + 1;
    }
    assert readers[..k] == readers;
  }

  /** The counting loop: same_fanout[type] += 1 for every gate flagged in fout, and
      same_fanin[type] += 1 for every gate flagged in fin. */
  method AddMarked(sameFanout: map<nat, int>, sameFanin: map<nat, int>, gl: seq<Gate>, fout: seq<bool>, fin: seq<bool>)
    returns (fanout': map<nat, int>, fanin': map<nat, int>)
    requires |fout| == |fin| == |gl|
    ensures forall t :: Tally(fanout', t) == Tally(sameFanout, t) + MarkedOfType(gl, fout, t)
    ensures forall t :: Tally(fanin', t) == Tally(sameFanin, t) + MarkedOfType(gl, fin, t)
  {
    fanout', fanin' := sameFanout, sameFanin;
    var i := 0;
    while i < |gl|
      invariant 0 <= i <= |gl|
      invariant forall t :: Tally(fanout', t) == Tally(sameFanout, t) + MarkedOfType(gl[..i], fout[..i], t)
      invariant forall t :: Tally(fanin', t) == Tally(sameFanin, t) + MarkedOfType(gl[..i], fin[..i], t)
    {
      MarkedOfTypeNext(gl, fout, i);
      MarkedOfTypeNext(gl, fin, i);
      if fout[i] {
        fanout' := Bump(fanout', gl[i].gtype, 1);
      }
      if fin[i] {
        fanin' := Bump(fanin', gl[i].gtype, 1);
      }
      i := i + 1;
    }
    assert gl[..i] == gl && fout[..i] == fout && fin[..i] == fin;
  }

  // ---------------------------------------------------------------------------
  // What the counts mean

  /** Counting one more gate. */
  lemma MarkedOfTypeNext(gl: seq<Gate>, marks: seq<bool>, i: nat)
    requires |marks| == |gl| && i < |gl|
    ensures forall t :: MarkedOfType(gl[..i + 1], marks[..i + 1], t)
                     == MarkedOfType(gl[..i], marks[..i], t) + (if marks[i] && gl[i].gtype == t then 1 else 0)
  {
    assert gl[..i + 1][..i] == gl[..i];
    assert marks[..i + 1][..i] == marks[..i];
  }

  /** The count for type t is positive exactly when some gate of type t is flagged. */
  lemma {:induction false} MarkedPositive(gl: seq<Gate>, marks: seq<bool>, t: nat)
    requires |marks| == |gl|
    ensures MarkedOfType(gl, marks, t) > 0 <==> exists g :: 0 <= g < |gl| && marks[g] && gl[g].gtype == t
    decreases |gl|
  {
    if gl != [] {
      var n := |gl| - 1;
      MarkedPositive(gl[..n], marks[..n], t);
      if exists g :: 0 <= g < |gl| && marks[g] && gl[g].gtype == t {
        var g :| 0 <= g < |gl| && marks[g] && gl[g].gtype == t;
        if g < n {
          assert gl[..n][g] == gl[g] && marks[..n][g] == marks[g];
        }
      }
      if MarkedOfType(gl[..n], marks[..n], t) > 0 {
        var g :| 0 <= g < n && marks[..n][g] && gl[..n][g].gtype == t;
        assert marks[g] && gl[g].gtype == t;
      }
    }
  }

  /** No more gates of type t are counted than there are gates of type t. */
  lemma {:induction false} MarkedBound(gl: seq<Gate>, marks: seq<bool>, t: nat)
    requires |marks| == |gl|
    ensures MarkedOfType(gl, marks, t) <= CountGateType(gl, t)
    decreases |gl|
  {
    if gl != [] {
      MarkedBound(gl[..|gl| - 1], marks[..|gl| - 1], t);
    }
  }

  /** A flagged gate of type t makes the count for t positive. */
  lemma {:induction false} MarkedWitness(gl: seq<Gate>, marks: seq<bool>, t: nat, g: nat)
    requires |marks| == |gl| && g < |gl| && marks[g] && gl[g].gtype == t
    ensures MarkedOfType(gl, marks, t) > 0
    decreases |gl|
  {
    var n := |gl| - 1;
    if g < n {
      assert gl[..n][g] == gl[g] && marks[..n][g] == marks[g];
      MarkedWitness(gl[..n], marks[..n], t, g);
    }
  }

  /** A positive count for t has a flagged gate of type t behind it. */
  lemma {:induction false} MarkedChoose(gl: seq<Gate>, marks: seq<bool>, t: nat) returns (g: nat)
    requires |marks| == |gl| && MarkedOfType(gl, marks, t) > 0
    ensures g < |gl| && marks[g] && gl[g].gtype == t
    decreases |gl|
  {
    var n := |gl| - 1;
    if marks[n] && gl[n].gtype == t {
      g := n;
    } else {
      g := MarkedChoose(gl[..n], marks[..n], t);
      assert gl[..n][g] == gl[g] && marks[..n][g] == marks[g];
    }
  }

  /** For every type, some gate of that type drives one of its own type exactly when some
      gate of that type is driven by one: same_fanout[t] grows exactly when same_fanin[t] does. */
  lemma SameTypePaired(gl: seq<Gate>, nl: seq<Net>, inT: nat, outT: nat, t: nat)
    ensures MarkedOfType(gl, DriveFlags(gl, nl, inT, outT), t) > 0 <==> MarkedOfType(gl, FedFlags(gl, nl, inT, outT), t) > 0
  {
    var fout, fin := DriveFlags(gl, nl, inT, outT), FedFlags(gl, nl, inT, outT);
    if MarkedOfType(gl, fout, t) > 0 {
      var g := MarkedChoose(gl, fout, t);
      assert DrivesSame(gl, nl, inT, outT, g);
      var x :| Link(gl, nl, inT, outT, g, x);
      assert FedSame(gl, nl, inT, outT, x);
      MarkedWitness(gl, fin, t, x);
    }
    if MarkedOfType(gl, fin, t) > 0 {
      var x := MarkedChoose(gl, fin, t);
      assert FedSame(gl, nl, inT, outT, x);
      var g :| Link(gl, nl, inT, outT, g, x);
      assert DrivesSame(gl, nl, inT, outT, g);
      MarkedWitness(gl, fout, t, g);
    }
  }

  /** INPUT and OUTPUT gates are counted on neither side. */
  lemma TerminalsUncounted(gl: seq<Gate>, nl: seq<Net>, inT: nat, outT: nat, t: nat)
    requires t == inT || t == outT
    ensures MarkedOfType(gl, DriveFlags(gl, nl, inT, outT), t) == 0
    ensures MarkedOfType(gl, FedFlags(gl, nl, inT, outT), t) == 0
  {
    var fout, fin := DriveFlags(gl, nl, inT, outT), FedFlags(gl, nl, inT, outT);
    if MarkedOfType(gl, fout, t) > 0 {
      var g := MarkedChoose(gl, fout, t);
      assert false;
    }
    if MarkedOfType(gl, fin, t) > 0 {
      var x := MarkedChoose(gl, fin, t);
      FedNotTerminal(gl, nl, inT, outT, x);
      assert false;
    }
  }

  /** A gate driven by one of its own type is neither an INPUT nor an OUTPUT gate. */
  lemma FedNotTerminal(gl: seq<Gate>, nl: seq<Net>, inT: nat, outT: nat, x: nat)
    requires FedSame(gl, nl, inT, outT, x)
    ensures x < |gl| && gl[x].gtype != inT && gl[x].gtype != outT
  {
    var g :| Link(gl, nl, inT, outT, g, x);
  }
}
