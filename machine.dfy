/**
 * The rotor assembly: an ordered chain of rotors, each one's turnover
 * callback advancing the next, and a reflector that turns the signal around
 * between a forward pass through the rotors and a reverse pass back.
 */
module Machines {
  import opened Tables
  import opened Knocks
  import opened Rotors

  /** Every rotor value is valid and of width `base`. */
  ghost predicate AllValid(rs: seq<RotorState>, base: nat) {
    forall i :: 0 <= i < |rs| ==> rs[i].Valid() && rs[i].Base() == base
  }

  /** The forward pass: rotor 0 first, the last rotor last. */
  function ForwardPass(rs: seq<RotorState>, base: nat, v: nat): (r: nat)
    requires AllValid(rs, base) && v < base
    ensures r < base
    decreases |rs|
  {
    if rs == [] then v
    else ForwardLookup(rs[|rs| - 1], ForwardPass(rs[..|rs| - 1], base, v))
  }

  /** The reverse pass: the last rotor first, rotor 0 last. */
  function ReversePass(rs: seq<RotorState>, base: nat, v: nat): (r: nat)
    requires AllValid(rs, base) && v < base
    ensures r < base
    decreases |rs|
  {
    if rs == [] then v
    else ReverseLookup(rs[0], ReversePass(rs[1..], base, v))
  }

  /** `encode` on the rotor values: forward pass, reflector, reverse pass. */
  function EncodeValue(rs: seq<RotorState>, reflector: seq<nat>, base: nat, v: nat): (r: nat)
    requires AllValid(rs, base) && |reflector| == base && InRange(reflector, base) && v < base
    ensures r < base
  {
    ReversePass(rs, base, reflector[ForwardPass(rs, base, v)])
  }

  /** The reverse pass of a chain ending in `x` starts with `x`. */
  lemma {:induction false} ReversePassLast(rs: seq<RotorState>, x: RotorState, base: nat, v: nat)
    requires AllValid(rs + [x], base) && v < base
    ensures AllValid(rs, base) && x.Valid() && x.Base() == base
    ensures ReversePass(rs + [x], base, v) == ReversePass(rs, base, ReverseLookup(x, v))
    decreases |rs|
  {
    assert (rs + [x])[|rs|] == x;
    if rs != [] {
      assert (rs + [x])[1..] == rs[1..] + [x];
      assert (rs + [x])[0] == rs[0];
      ReversePassLast(rs[1..], x, base, v);
    }
  }

  /** With every rotor at position 0 the two passes undo each other. */
  lemma {:induction false} PassesCancelAtZero(rs: seq<RotorState>, base: nat, v: nat)
    requires AllValid(rs, base) && v < base
    requires forall i :: 0 <= i < |rs| ==> rs[i].position == 0
    ensures ReversePass(rs, base, ForwardPass(rs, base, v)) == v
    ensures ForwardPass(rs, base, ReversePass(rs, base, v)) == v
    decreases |rs|
  {
    if rs != [] {
      var init, x := rs[..|rs| - 1], rs[|rs| - 1];
      assert rs == init + [x];
      PassesCancelAtZero(init, base, v);
      var f := ForwardPass(init, base, v);
      ReversePassLast(init, x, base, ForwardLookup(x, f));
      LookupsCancelAtZero(x, f);
      ReversePassLast(init, x, base, v);
      var r := ReverseLookup(x, v);
      PassesCancelAtZero(init, base, r);
      LookupsCancelAtZero(x, v);
    }
  }

  /**
   * With every rotor at position 0 and a self-inverse reflector, encoding
   * twice gives back the input.
   */
  lemma EncodeInvolutionAtZero(rs: seq<RotorState>, reflector: seq<nat>, base: nat, v: nat)
    requires AllValid(rs, base) && |reflector| == base && InRange(reflector, base) && v < base
    requires forall u :: 0 <= u < base ==> reflector[reflector[u]] == u
    requires forall i :: 0 <= i < |rs| ==> rs[i].position == 0
    ensures EncodeValue(rs, reflector, base, EncodeValue(rs, reflector, base, v)) == v
  {
    var f := ForwardPass(rs, base, v);
    var e := ReversePass(rs, base, reflector[f]);
    PassesCancelAtZero(rs, base, reflector[f]);
    PassesCancelAtZero(rs, base, v);
  }

  /**
   * With every rotor at position 0 and a fixed-point-free involution as
   * reflector, no code point encodes to itself.
   */
  lemma EncodeNoFixedPointAtZero(rs: seq<RotorState>, reflector: seq<nat>, base: nat, v: nat)
    requires AllValid(rs, base) && IsFixedPointFreeInvolution(reflector, base) && v < base
    requires forall i :: 0 <= i < |rs| ==> rs[i].position == 0
    ensures EncodeValue(rs, reflector, base, v) != v
  {
    var f := ForwardPass(rs, base, v);
    PassesCancelAtZero(rs, base, reflector[f]);
    assert reflector[f] != f;
  }

  /** The identity wiring over four code points, at position 1. */
  function ShiftedIdentity(): (x: RotorState)
    ensures x.Valid() && x.Base() == 4 && x.position == 1
  {
    var identity := [0, 1, 2, 3];
    assert forall v :: 0 <= v < 4 ==> identity[v] == v;
    InverseMakesPermutation(identity, identity, 4);
    RotorState(identity, identity, [false, false, false, false], 1)
  }

  /**
   * Away from position 0 neither holds: the identity rotor over four code
   * points at position 1, with the fixed-point-free involution v + 2, sends
   * 0 to itself.
   */
  lemma EncodeMayFixAPointElsewhere()
    ensures var reflector := [2, 3, 0, 1];
            IsFixedPointFreeInvolution(reflector, 4)
            && EncodeValue([ShiftedIdentity()], reflector, 4, 0) == 0
  {
    var x := ShiftedIdentity();
    var rs := [x];
    assert rs[..0] == [] && rs[1..] == [];
    assert ForwardPass(rs, 4, 0) == ForwardLookup(x, 0) == 1;
    assert ReversePass(rs, 4, 3) == ReverseLookup(x, 3) == 0;
  }

  /**
   * The step count each rotor receives when rotor 0 is advanced by `steps`:
   * rotor 0 gets `steps`, and each following rotor gets the knocks of the
   * one before it.
   */
  function Deliveries(rs: seq<RotorState>, base: nat, steps: nat): (d: seq<nat>)
    requires AllValid(rs, base)
    ensures |d| == |rs|
    decreases |rs|
  {
    if rs == [] then []
    else [steps] + Deliveries(rs[1..], base, BatchKnocks(rs[0].notches, rs[0].position, steps))
  }

  /** The rotor values after rotor 0 was advanced by `steps` and the cascade ran. */
  function Cascade(rs: seq<RotorState>, base: nat, steps: nat): (after: seq<RotorState>)
    requires AllValid(rs, base)
    ensures |after| == |rs|
  {
    var d := Deliveries(rs, base, steps);
    seq(|rs|, i requires 0 <= i < |rs| => rs[i].(position := (rs[i].position + d[i]) % base))
  }

  /** Rotor i + 1 receives exactly the knocks of rotor i's move. */
  lemma {:induction false} DeliveriesLink(rs: seq<RotorState>, base: nat, steps: nat, i: nat)
    requires AllValid(rs, base) && i + 1 < |rs|
    ensures var d := Deliveries(rs, base, steps);
      d[i + 1] == BatchKnocks(rs[i].notches, rs[i].position, d[i])
    decreases i
  {
    if i > 0 {
      DeliveriesLink(rs[1..], base, BatchKnocks(rs[0].notches, rs[0].position, steps), i - 1);
    }
  }

  /**
   * Rotor 0 moves by `steps`, and each rotor i + 1 moves by exactly the
   * knocks that rotor i's move delivered, which are the knocks of as many
   * single steps; every rotor moves where that many steps take it.
   */
  lemma CascadeDeliveries(rs: seq<RotorState>, base: nat, steps: nat, i: nat)
    requires AllValid(rs, base) && i < |rs|
    ensures Deliveries(rs, base, steps)[0] == steps
    ensures i + 1 < |rs| ==>
      var d := Deliveries(rs, base, steps);
      d[i + 1] == BatchKnocks(rs[i].notches, rs[i].position, d[i])
      && d[i + 1] == StepwiseKnocks(rs[i].notches, rs[i].position, d[i])
    ensures var d := Deliveries(rs, base, steps);
      Cascade(rs, base, steps)[i].position == StepwisePosition(base, rs[i].position, d[i])
  {
    var d := Deliveries(rs, base, steps);
    if i + 1 < |rs| {
      DeliveriesLink(rs, base, steps, i);
    }
    BatchIsStepwise(rs[i].notches, rs[i].position, d[i]);
  }

  /** Once a rotor receives no steps, no later rotor receives any. */
  lemma {:induction false} DeliveriesStop(rs: seq<RotorState>, base: nat, steps: nat, i: nat, j: nat)
    requires AllValid(rs, base) && i <= j < |rs|
    requires Deliveries(rs, base, steps)[i] == 0
    ensures Deliveries(rs, base, steps)[j] == 0
    decreases j - i
  {
    if i < j {
      DeliveriesStop(rs, base, steps, i, j - 1);
      DeliveriesLink(rs, base, steps, j - 1);
      NoStepsNoKnocks(rs[j - 1].notches, rs[j - 1].position);
    }
  }

  /**
   * Once a rotor receives no steps the cascade has stopped: every rotor
   * from there on keeps its position.
   */
  lemma CascadeStops(rs: seq<RotorState>, base: nat, steps: nat, i: nat, j: nat)
    requires AllValid(rs, base) && i <= j < |rs|
    requires Deliveries(rs, base, steps)[i] == 0
    ensures Deliveries(rs, base, steps)[j] == 0
    ensures Cascade(rs, base, steps)[j] == rs[j]
  {
    DeliveriesStop(rs, base, steps, i, j);
    DivModUnique(rs[j].position, base, 0, rs[j].position);
    assert Cascade(rs, base, steps)[j] == rs[j].(position := (rs[j].position + 0) % base);
  }

  /**
   * Advancing rotor 0 by k whole revolutions advances rotor 1 by k times
   * rotor 0's notch count, and leaves rotor 0 where it was.
   */
  lemma CascadeWholeRevolutions(rs: seq<RotorState>, base: nat, k: nat)
    requires AllValid(rs, base) && |rs| >= 2
    ensures Cascade(rs, base, k * base)[0] == rs[0]
    ensures Deliveries(rs, base, k * base)[1] == k * PopCount(rs[0].notches)
  {
    var steps := k * base;
    var first := rs[0];
    assert |first.notches| == base;
    BatchWholeRevolutions(first.notches, first.position, k);
    DeliveriesLink(rs, base, steps, 0);
    assert Deliveries(rs, base, steps)[0] == steps;
    assert Cascade(rs, base, steps)[0] == rs[0].(position := (rs[0].position + steps) % base);
  }

  class EnigmaMachine {
    const base: nat
    const rotors: seq<Rotor>
    const reflector: seq<nat>
    ghost const Repr: set<Rotor>

    /** The rotor values, in assembly order. */
    function States(): (rs: seq<RotorState>)
      reads this, Repr
      requires Valid()
      ensures |rs| == |rotors| && AllValid(rs, base)
      ensures forall i :: 0 <= i < |rotors| ==> rs[i] == rotors[i].State()
    {
      seq(|rotors|, i reads rotors requires 0 <= i < |rotors| => rotors[i].State())
    }

    /**
     * At least one rotor, all distinct and of width `base`; rotor i's callback
     * advances rotor i + 1, and the last rotor's is the no-op; the reflector
     * is a table of code points.
     */
    ghost predicate Valid()
      reads this, Repr
    {
      && Repr == (set i | 0 <= i < |rotors| :: rotors[i])
      && |rotors| >= 1
      && (forall i, j :: 0 <= i < j < |rotors| ==> rotors[i] != rotors[j])
      && (forall i :: 0 <= i < |rotors| ==> rotors[i].Valid() && rotors[i].base == base)
      && (forall i :: 0 <= i < |rotors| - 1 ==> rotors[i].callback == AdvanceRotor(i + 1))
      && rotors[|rotors| - 1].callback == Ignore
      && |reflector| == base
      && InRange(reflector, base)
    }

    /**
     * Takes the rotors over in the order given and wires each one's turnover
     * callback to advance the next; no position changes.
     */
    constructor (rotors: seq<Rotor>, reflector: seq<nat>)
      requires |rotors| >= 1
      requires forall i, j :: 0 <= i < j < |rotors| ==> rotors[i] != rotors[j]
      requires forall i :: 0 <= i < |rotors| ==> rotors[i].Valid() && rotors[i].base == rotors[0].base
      requires rotors[|rotors| - 1].callback == Ignore
      requires |reflector| == rotors[0].base && InRange(reflector, rotors[0].base)
      modifies set i | 0 <= i < |rotors| :: rotors[i]
      ensures Valid()
      ensures this.rotors == rotors && this.reflector == reflector && base == rotors[0].base
      ensures forall i :: 0 <= i < |rotors| ==> rotors[i].position == old(rotors[i].position)
    {
      base := rotors[0].base;
      this.rotors := rotors;
      this.reflector := reflector;
      Repr := set i | 0 <= i < |rotors| :: rotors[i];
      new;
      for i := 0 to |rotors| - 1
        invariant forall j :: 0 <= j < |rotors| ==> rotors[j].Valid()
        invariant forall j :: 0 <= j < |rotors| ==> rotors[j].position == old(rotors[j].position)
        invariant forall j :: 0 <= j < i ==> rotors[j].callback == AdvanceRotor(j + 1)
        invariant rotors[|rotors| - 1].callback == Ignore
      {
        rotors[i].SetTurnoverCallback(AdvanceRotor(i + 1));
      }
    }

    /**
     * Advances rotor 0 by `steps`; every other rotor moves only through the
     * callback chain, each by the knocks of the rotor before it.
     */
    method Advance(steps: nat)
      requires Valid()
      modifies Repr
      ensures Valid()
      ensures States() == Cascade(old(States()), base, steps)
    {
      ghost var before := States();
      CascadeDeliveries(before, base, steps, 0);
      AdvanceFrom(0, steps, before, steps);
      assert forall j :: 0 <= j < |rotors| ==> States()[j] == Cascade(before, base, steps)[j];
    }

    /**
     * Rotor `i` advances by `k`, the steps the cascade started by advancing
     * rotor 0 of `before` by `steps` delivers to it; when that invokes its
     * callback and the callback is the link to rotor i + 1, rotor i + 1
     * advances by the knocks, and so on down the chain. Rotors before `i` do
     * not move.
     */
    method AdvanceFrom(i: nat, k: nat, ghost before: seq<RotorState>, ghost steps: nat)
      requires Valid() && i < |rotors|
      requires |before| == |rotors| && AllValid(before, base)
      requires forall j :: i <= j < |rotors| ==> rotors[j].State() == before[j]
      requires k == Deliveries(before, base, steps)[i]
      modifies Repr
      ensures Valid()
      ensures forall j :: 0 <= j < i ==> rotors[j].State() == old(rotors[j].State())
      ensures forall j :: i <= j < |rotors| ==> rotors[j].State() == Cascade(before, base, steps)[j]
      decreases |rotors| - i
    {
      ghost var after := Cascade(before, base, steps);
      CascadeDeliveries(before, base, steps, i);
      var landed, fired := rotors[i].AdvanceBy(k);
      assert rotors[i].State() == after[i];
      match rotors[i].callback
      case Ignore =>
      case AdvanceRotor(next) =>
        assert next == i + 1;
        if fired.Some? {
          AdvanceFrom(next, fired.value, before, steps);
        } else {
          forall j | next <= j < |rotors|
            ensures after[j] == before[j]
          {
            CascadeStops(before, base, steps, next, j);
          }
        }
    }

    /**
     * Forward through the rotors in order, through the reflector, and back
     * through the rotors in reverse order; reads the positions, changes none.
     */
    method Encode(val: nat) returns (r: nat)
      requires Valid() && val < base
      ensures r < base
      ensures r == EncodeValue(States(), reflector, base, val)
    {
      ghost var rs := States();
      var v := val;
      for i := 0 to |rotors|
        invariant v == ForwardPass(rs[..i], base, val)
      {
        assert rs[..i + 1][..i] == rs[..i] && rs[..i + 1][i] == rs[i];
        v := rotors[i].DoForwardCipher(v);
      }
      assert rs[..|rotors|] == rs;
      v := reflector[v];
      ghost var reflected := v;
      for i := |rotors| downto 0
        invariant v == ReversePass(rs[i..], base, reflected)
      {
        assert rs[i..][1..] == rs[i + 1..] && rs[i..][0] == rs[i];
        v := rotors[i].DoReverseCipher(v);
      }
      assert rs[0..] == rs;
      r := v;
    }

    /** One step of the assembly, then `Encode` on the new positions. */
    method EncodeNext(val: nat) returns (r: nat)
      requires Valid() && val < base
      modifies Repr
      ensures Valid()
      ensures States() == Cascade(old(States()), base, 1)
      ensures r < base && r == EncodeValue(States(), reflector, base, val)
    {
      Advance(1);
      r := Encode(val);
    }
  }
}
