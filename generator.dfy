/**
 * A bounded pseudo-random value stream over a machine: each draw steps the
 * machine and encodes the previous value, and the result becomes the next
 * value. The generator does not own the machine.
 */
module Generators {
  import opened Tables
  import opened Rotors
  import opened Machines

  class Generator {
    const machine: EnigmaMachine
    var seqVal: nat

    ghost predicate Valid()
      reads this, machine, machine.Repr
    {
      machine.Valid()
    }

    /** Starts the stream at `seed` over a machine the caller keeps owning. */
    constructor (machine: EnigmaMachine, seed: nat)
      requires machine.Valid()
      ensures Valid() && this.machine == machine && seqVal == seed
    {
      this.machine := machine;
      seqVal := seed;
    }

    /** The smallest value a draw can give: the first code point. */
    function Min(): (r: nat)
      requires machine.base > 0
      ensures r <= Max()
    {
      0
    }

    /** The largest value a draw can give: the last code point. */
    function Max(): (r: nat)
      requires machine.base > 0
      ensures r < machine.base && r + 1 == machine.base
    {
      machine.base - 1
    }

    /**
     * One draw: the machine steps once and encodes the current value; the
     * result is stored as the current value and returned. The current value
     * must be a code point, as the encoder demands of its input.
     */
    method Draw() returns (r: nat)
      requires Valid() && seqVal < machine.base
      modifies this`seqVal, machine.Repr
      ensures Valid() && r == seqVal
      ensures Min() <= r <= Max()
      ensures machine.States() == Cascade(old(machine.States()), machine.base, 1)
      ensures r == EncodeValue(machine.States(), machine.reflector, machine.base, old(seqVal))
    {
      r := machine.EncodeNext(seqVal);
      seqVal := r;
    }
  }
}
