/**
 * A single rotor: a substitution over the code points [0, base) whose input
 * is offset by the rotor's position, a set of notches, and a turnover
 * callback that receives the number of notches met while advancing.
 */
module Rotors {
  import opened Tables
  import opened Knocks

  /**
   * The turnover callback of a rotor, as a handle: `Ignore` is the default
   * no-op callback, `AdvanceRotor(i)` batch-advances rotor `i` of the same
   * machine by the number of knocks.
   */
  datatype Turnover = Ignore | AdvanceRotor(index: nat)

  /** The invocation of a callback with a knock total: none at all when it is 0. */
  function Delivered(knocks: nat): (fired: Option<nat>)
    ensures fired.Some? <==> knocks > 0
    ensures fired.Some? ==> fired.value == knocks
  {
    if knocks > 0 then Some(knocks) else None
  }

  /** The value of a rotor: its tables, its notches and its position. */
  datatype RotorState = RotorState(forward: seq<nat>, reverse: seq<nat>, notches: seq<bool>, position: nat)
  {
    function Base(): nat {
      |forward|
    }

    /** The forward table is a permutation, `reverse` is its inverse, the position in range. */
    ghost predicate Valid() {
      && Base() > 0
      && IsPermutation(forward, Base())
      && IsInverse(reverse, forward, Base())
      && |notches| == Base()
      && position < Base()
    }
  }

  /**
   * `doForwardCipher`: the forward table read at the input offset by the
   * position. Its result is the table entry whose inverse is that offset input.
   */
  function ForwardLookup(s: RotorState, v: nat): (r: nat)
    requires s.Valid() && v < s.Base()
    ensures r < s.Base() && s.reverse[r] == (s.position + v) % s.Base()
  {
    s.forward[(s.position + v) % s.Base()]
  }

  /**
   * `doReverseCipher`: the reverse table read at the input offset by the same
   * position (the offset is added in both directions, not undone).
   */
  function ReverseLookup(s: RotorState, v: nat): (r: nat)
    requires s.Valid() && v < s.Base()
    ensures r < s.Base() && s.forward[r] == (s.position + v) % s.Base()
  {
    s.reverse[(s.position + v) % s.Base()]
  }

  /** At position 0 the two lookups undo each other. */
  lemma LookupsCancelAtZero(s: RotorState, v: nat)
    requires s.Valid() && s.position == 0 && v < s.Base()
    ensures ReverseLookup(s, ForwardLookup(s, v)) == v
    ensures ForwardLookup(s, ReverseLookup(s, v)) == v
  {
    var n := s.Base();
    DivModUnique(v, n, 0, v);
    var f, r := s.forward[v], s.reverse[v];
    DivModUnique(f, n, 0, f);
    DivModUnique(r, n, 0, r);
  }

  /**
   * Away from position 0 they need not: the identity rotor over three code
   * points at position 1 sends 0 forward to 1, and 1 back to 2.
   */
  lemma LookupsNeedNotCancelElsewhere()
    ensures var s := RotorState([0, 1, 2], [0, 1, 2], [false, false, false], 1);
            s.Valid() && ReverseLookup(s, ForwardLookup(s, 0)) == 2
  {
    var s := RotorState([0, 1, 2], [0, 1, 2], [false, false, false], 1);
    assert forall v :: 0 <= v < 3 ==> s.forward[v] == v;
  }

  class Rotor {
    const base: nat
    const forward: seq<nat>
    const reverse: seq<nat>
    const notches: seq<bool>
    var position: nat
    var callback: Turnover

    function State(): RotorState
      reads this
    {
      RotorState(forward, reverse, notches, position)
    }

    ghost predicate Valid()
      reads this
    {
      State().Valid() && State().Base() == base
    }

    /**
     * Builds a rotor at position 0 from a forward table and a notch bitset of
     * width `base`; the reverse table is derived from the forward one.
     */
    constructor (base: nat, cipher: seq<nat>, notches: seq<bool>, callback: Turnover)
      requires base > 0 && IsPermutation(cipher, base) && |notches| == base
      ensures Valid()
      ensures this.base == base && forward == cipher && this.notches == notches
      ensures position == 0 && this.callback == callback
    {
      var inverse := ReverseTable(cipher, base);
      this.base := base;
      forward := cipher;
      reverse := inverse;
      this.notches := notches;
      this.callback := callback;
      position := 0;
    }

    /** Replaces the turnover callback; nothing else changes. */
    method SetTurnoverCallback(cb: Turnover)
      modifies this`callback
      ensures callback == cb
    {
      callback := cb;
    }

    /**
     * One step: the position moves to the next code point, wrapping to 0
     * after the last, and the callback receives 1 exactly when the new
     * position has a notch.
     */
    method Advance() returns (newPosition: nat, fired: Option<nat>)
      requires Valid()
      modifies this`position
      ensures Valid()
      ensures position == (old(position) + 1) % base && newPosition == position
      ensures fired == (if notches[position] then Some(1) else None)
      ensures fired == Delivered(StepwiseKnocks(notches, old(position), 1))
    {
      position := position + 1;
      if position == base {
        position := 0;
      }
      fired := if notches[position] then Some(1) else None;
      newPosition := position;
    }

    /**
     * `steps` steps in constant time: the position lands where `steps`
     * single steps land, and the callback is invoked at most once, with the
     * number of knocks those single steps deliver, and only when that is
     * positive.
     */
    method AdvanceBy(steps: nat) returns (newPosition: nat, fired: Option<nat>)
      requires Valid()
      modifies this`position
      ensures Valid()
      ensures position == (old(position) + steps) % base && newPosition == position
      ensures position == StepwisePosition(base, old(position), steps)
      ensures fired == Delivered(BatchKnocks(notches, old(position), steps))
      ensures fired == Delivered(StepwiseKnocks(notches, old(position), steps))
      ensures steps == 0 ==> fired == None && position == old(position)
    {
      BatchIsStepwise(notches, position, steps);
      NoStepsNoKnocks(notches, position);
      var knocks := BatchKnocks(notches, position, steps);
      position := (position + steps) % base;
      fired := Delivered(knocks);
      newPosition := position;
    }

    function DoForwardCipher(val: nat): (r: nat)
      reads this
      requires Valid() && val < base
      ensures r == ForwardLookup(State(), val)
    {
      forward[(position + val) % base]
    }

    function DoReverseCipher(val: nat): (r: nat)
      reads this
      requires Valid() && val < base
      ensures r == ReverseLookup(State(), val)
    {
      reverse[(position + val) % base]
    }
  }
}
