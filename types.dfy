/**
 The values of the netlist engine: unsigned 32-bit arithmetic, gates, nets and
 the status codes its operations report.
 */
module Types {

  /** 2^32: the modulus of the engine's unsigned (u32) arithmetic. */
  const TWO_32: int := 0x1_0000_0000

  type u32 = x: int | 0 <= x < 0x1_0000_0000

  /** (u32)(-1): the "unset" mark of the timing fields and the unsigned infinity of the required-time fold. */
  const UNSET: u32 := 0xFFFF_FFFF

  /** u32 addition, wrapping around at 2^32; b may be wider (a size_t count). */
  function Add32(a: u32, b: nat): u32 {
    (a + b) % TWO_32
  }

  /** u32 subtraction, wrapping around below zero: a - b + 2^32 when b exceeds a. */
  function Sub32(a: u32, b: u32): u32 {
    if a >= b then a - b else TWO_32 + a - b
  }

  /** Sub32 is subtraction modulo 2^32, and adding b back restores a. */
  lemma Sub32Wraps(a: u32, b: u32)
    ensures Sub32(a, b) == (a - b) % TWO_32
    ensures Add32(Sub32(a, b), b) == a
  {
  }

  /** Adding in two steps wraps like adding the sum. */
  lemma Add32Twice(a: u32, x: nat, y: nat)
    ensures Add32(Add32(a, x), y) == Add32(a, x + y)
  {
    var q := (a + x) / TWO_32;
    assert a + x == q * TWO_32 + Add32(a, x);
    assert Add32(a, x) + y == (a + x + y) - q * TWO_32;
  }

  /** Adding k leaves b where it was exactly when k is a multiple of 2^32. */
  lemma Add32Fixed(b: u32, k: nat)
    ensures Add32(b, k) == b <==> k % TWO_32 == 0
  {
    var qk, rk := k / TWO_32, k % TWO_32;
    assert b + k == qk * TWO_32 + (b + rk);
    if rk != 0 {
      if b + rk < TWO_32 {
        assert (b + k) % TWO_32 == b + rk;
      } else {
        assert b + k == (qk + 1) * TWO_32 + (b + rk - TWO_32);
      }
    }
  }

  function Max(a: u32, b: u32): u32 {
    if a > b then a else b
  }

  function Min(a: u32, b: u32): u32 {
    if a < b then a else b
  }

  datatype Option<T> = None | Some(value: T)

  /** Ok is a return of 0, Failed a return of -1, and Aborted(g) the exit(-1) taken
      after reporting gate g. */
  datatype Status = Ok | Failed | Aborted(gate: nat)

  /** The net categories of net_t. */
  datatype NetType = InputNet | OutputNet | InternalNet | IoNet | Hyperedge

  /** One vertex. gtype is a code of the gate-type registry; inNets are the nets read,
      nets the nets driven; aTime, rTime and slack hold UNSET until the timing sweeps run. */
  datatype Gate = Gate(id: nat, gtype: nat, fanIn: nat, fanOut: u32,
                       inNets: seq<nat>, nets: seq<nat>,
                       aTime: u32, rTime: u32, slack: u32)

  /** One named wire. drivingGate is None until a gate is recorded as its driver;
      gates lists its readers in the order they were attached. */
  datatype Net = Net(id: nat, ntype: NetType, delay: nat, drivingGate: Option<nat>, gates: seq<nat>)

  /** A gate as add_gate creates it: no fan-in, no fan-out, no nets, timing unset. */
  function NewGate(id: nat, gtype: nat): Gate {
    Gate(id, gtype, 0, 0, [], [], UNSET, UNSET, UNSET)
  }
}
