/**
 * The historical wirings the demonstration program assembles its machine
 * from: rotors I, II and III and reflector B over the 26 letters, letter `A`
 * being code point 0, and one notch per rotor.
 */
module Wirings {
  import opened Tables
  import opened Knocks
  import opened Rotors
  import opened Machines

  const Letters: nat := 26

  const CipherI: seq<nat> :=
    [4, 10, 12, 5, 11, 6, 3, 16, 21, 25, 13, 19, 14, 22, 24, 7, 23, 20, 18, 15, 0, 8, 1, 17, 2, 9]
  const CipherII: seq<nat> :=
    [0, 9, 3, 10, 18, 8, 17, 20, 23, 1, 11, 7, 22, 19, 12, 2, 16, 6, 25, 13, 15, 24, 5, 21, 14, 4]
  const CipherIII: seq<nat> :=
    [1, 3, 5, 7, 9, 11, 2, 15, 17, 19, 23, 21, 25, 13, 24, 4, 8, 22, 6, 0, 10, 12, 20, 18, 16, 14]
  const ReflectorB: seq<nat> :=
    [24, 17, 20, 7, 16, 18, 11, 3, 15, 23, 13, 6, 14, 10, 12, 8, 4, 1, 5, 25, 2, 22, 21, 9, 0, 19]

  /** The two-sided inverses of the three wirings, used to prove them permutations. */
  const InverseI: seq<nat> :=
    [20, 22, 24, 6, 0, 3, 5, 15, 21, 25, 1, 4, 2, 10, 12, 19, 7, 23, 18, 11, 17, 8, 13, 16, 14, 9]
  const InverseII: seq<nat> :=
    [0, 9, 15, 2, 25, 22, 17, 11, 5, 1, 3, 10, 14, 19, 24, 20, 16, 6, 4, 13, 7, 23, 12, 8, 21, 18]
  const InverseIII: seq<nat> :=
    [19, 0, 6, 1, 15, 2, 18, 3, 16, 4, 20, 5, 21, 13, 25, 7, 24, 8, 23, 9, 22, 11, 17, 10, 14, 12]

  /**
   * The bitset strings are written most significant bit first, so the only
   * set character of each string names bit 25 minus its offset: R (17) for
   * rotor I, F (5) for rotor II and W (22) for rotor III.
   */
  function NotchAt(letter: nat): (notches: seq<bool>)
    requires letter < Letters
    ensures |notches| == Letters && PopCount(notches) == 1
    ensures forall i :: 0 <= i < Letters ==> notches[i] == (i == letter)
  {
    var bits := seq(Letters, i => i == letter);
    CountSingle(bits, letter, 0, Letters);
    bits
  }

  /**
   * The entries from `i` on are code points, `inverse` undoes `table` on
   * them from both sides, and when `moves` holds `table` fixes none of them;
   * checked one index at a time.
   */
  predicate InverseFrom(table: seq<nat>, inverse: seq<nat>, moves: bool, i: nat)
    requires |table| == Letters && |inverse| == Letters
    decreases Letters - i
  {
    i >= Letters
    || (&& table[i] < Letters && inverse[i] < Letters
        && inverse[table[i]] == i && table[inverse[i]] == i
        && (moves ==> table[i] != i)
        && InverseFrom(table, inverse, moves, i + 1))
  }

  /** A table checked from index 0 on has `inverse` as its two-sided inverse. */
  lemma {:induction false} InverseFromSound(table: seq<nat>, inverse: seq<nat>, moves: bool, i: nat)
    requires |table| == Letters && |inverse| == Letters && InverseFrom(table, inverse, moves, i)
    ensures forall k :: i <= k < Letters ==>
      table[k] < Letters && inverse[k] < Letters && inverse[table[k]] == k && table[inverse[k]] == k
    ensures moves ==> forall k :: i <= k < Letters ==> table[k] != k
    decreases Letters - i
  {
    if i < Letters {
      InverseFromSound(table, inverse, moves, i + 1);
    }
  }

  /** `inverse` is the inverse of `table`, so both are permutations. */
  lemma CheckedPermutation(table: seq<nat>, inverse: seq<nat>)
    requires |table| == Letters && |inverse| == Letters && InverseFrom(table, inverse, false, 0)
    ensures IsPermutation(table, Letters) && IsPermutation(inverse, Letters)
  {
    InverseFromSound(table, inverse, false, 0);
    InverseMakesPermutation(table, inverse, Letters);
  }

  /**
   * The wiring of rotor I passes the index-by-index check. The ladder below
   * unrolls `InverseFrom` from the last index down to 0, one index per
   * assertion, so that each step asks the solver for one table entry only;
   * the same ladder proves the other wirings and the reflector.
   */
  lemma CipherIChecked()
    ensures InverseFrom(CipherI, InverseI, false, 0)
  {
    var t, inv := CipherI, InverseI;
    assert InverseFrom(t, inv, false, 25);
    assert InverseFrom(t, inv, false, 24);
    assert InverseFrom(t, inv, false, 23);
    assert InverseFrom(t, inv, false, 22);
    assert InverseFrom(t, inv, false, 21);
    assert InverseFrom(t, inv, false, 20);
    assert InverseFrom(t, inv, false, 19);
    assert InverseFrom(t, inv, false, 18);
    assert InverseFrom(t, inv, false, 17);
    assert InverseFrom(t, inv, false, 16);
    assert InverseFrom(t, inv, false, 15);
    assert InverseFrom(t, inv, false, 14);
    assert InverseFrom(t, inv, false, 13);
    assert InverseFrom(t, inv, false, 12);
    assert InverseFrom(t, inv, false, 11);
    assert InverseFrom(t, inv, false, 10);
    assert InverseFrom(t, inv, false, 9);
    assert InverseFrom(t, inv, false, 8);
    assert InverseFrom(t, inv, false, 7);
    assert InverseFrom(t, inv, false, 6);
    assert InverseFrom(t, inv, false, 5);
    assert InverseFrom(t, inv, false, 4);
    assert InverseFrom(t, inv, false, 3);
    assert InverseFrom(t, inv, false, 2);
    assert InverseFrom(t, inv, false, 1);
    assert InverseFrom(t, inv, false, 0);
  }

  lemma CipherIIsPermutation()
    ensures IsPermutation(CipherI, Letters)
  {
    CipherIChecked();
    CheckedPermutation(CipherI, InverseI);
  }

  /** The wiring of rotor II passes the index-by-index check, unrolled as for rotor I. */
  lemma CipherIIChecked()
    ensures InverseFrom(CipherII, InverseII, false, 0)
  {
    var t, inv := CipherII, InverseII;
    assert InverseFrom(t, inv, false, 25);
    assert InverseFrom(t, inv, false, 24);
    assert InverseFrom(t, inv, false, 23);
    assert InverseFrom(t, inv, false, 22);
    assert InverseFrom(t, inv, false, 21);
    assert InverseFrom(t, inv, false, 20);
    assert InverseFrom(t, inv, false, 19);
    assert InverseFrom(t, inv, false, 18);
    assert InverseFrom(t, inv, false, 17);
    assert InverseFrom(t, inv, false, 16);
    assert InverseFrom(t, inv, false, 15);
    assert InverseFrom(t, inv, false, 14);
    assert InverseFrom(t, inv, false, 13);
    assert InverseFrom(t, inv, false, 12);
    assert InverseFrom(t, inv, false, 11);
    assert InverseFrom(t, inv, false, 10);
    assert InverseFrom(t, inv, false, 9);
    assert InverseFrom(t, inv, false, 8);
    assert InverseFrom(t, inv, false, 7);
    assert InverseFrom(t, inv, false, 6);
    assert InverseFrom(t, inv, false, 5);
    assert InverseFrom(t, inv, false, 4);
    assert InverseFrom(t, inv, false, 3);
    assert InverseFrom(t, inv, false, 2);
    assert InverseFrom(t, inv, false, 1);
    assert InverseFrom(t, inv, false, 0);
  }

  lemma CipherIIIsPermutation()
    ensures IsPermutation(CipherII, Letters)
  {
    CipherIIChecked();
    CheckedPermutation(CipherII, InverseII);
  }

  /** The wiring of rotor III passes the index-by-index check, unrolled as for rotor I. */
  lemma CipherIIIChecked()
    ensures InverseFrom(CipherIII, InverseIII, false, 0)
  {
    var t, inv := CipherIII, InverseIII;
    assert InverseFrom(t, inv, false, 25);
    assert InverseFrom(t, inv, false, 24);
    assert InverseFrom(t, inv, false, 23);
    assert InverseFrom(t, inv, false, 22);
    assert InverseFrom(t, inv, false, 21);
    assert InverseFrom(t, inv, false, 20);
    assert InverseFrom(t, inv, false, 19);
    assert InverseFrom(t, inv, false, 18);
    assert InverseFrom(t, inv, false, 17);
    assert InverseFrom(t, inv, false, 16);
    assert InverseFrom(t, inv, false, 15);
    assert InverseFrom(t, inv, false, 14);
    assert InverseFrom(t, inv, false, 13);
    assert InverseFrom(t, inv, false, 12);
    assert InverseFrom(t, inv, false, 11);
    assert InverseFrom(t, inv, false, 10);
    assert InverseFrom(t, inv, false, 9);
    assert InverseFrom(t, inv, false, 8);
    assert InverseFrom(t, inv, false, 7);
    assert InverseFrom(t, inv, false, 6);
    assert InverseFrom(t, inv, false, 5);
    assert InverseFrom(t, inv, false, 4);
    assert InverseFrom(t, inv, false, 3);
    assert InverseFrom(t, inv, false, 2);
    assert InverseFrom(t, inv, false, 1);
    assert InverseFrom(t, inv, false, 0);
  }

  lemma CipherIIIIsPermutation()
    ensures IsPermutation(CipherIII, Letters)
  {
    CipherIIIChecked();
    CheckedPermutation(CipherIII, InverseIII);
  }

  /** Reflector B is its own inverse and moves every letter. */
  lemma ReflectorBIsFixedPointFreeInvolution()
    ensures IsFixedPointFreeInvolution(ReflectorB, Letters)
  {
    var t, inv := ReflectorB, ReflectorB;
    assert InverseFrom(t, inv, true, 25);
    assert InverseFrom(t, inv, true, 24);
    assert InverseFrom(t, inv, true, 23);
    assert InverseFrom(t, inv, true, 22);
    assert InverseFrom(t, inv, true, 21);
    assert InverseFrom(t, inv, true, 20);
    assert InverseFrom(t, inv, true, 19);
    assert InverseFrom(t, inv, true, 18);
    assert InverseFrom(t, inv, true, 17);
    assert InverseFrom(t, inv, true, 16);
    assert InverseFrom(t, inv, true, 15);
    assert InverseFrom(t, inv, true, 14);
    assert InverseFrom(t, inv, true, 13);
    assert InverseFrom(t, inv, true, 12);
    assert InverseFrom(t, inv, true, 11);
    assert InverseFrom(t, inv, true, 10);
    assert InverseFrom(t, inv, true, 9);
    assert InverseFrom(t, inv, true, 8);
    assert InverseFrom(t, inv, true, 7);
    assert InverseFrom(t, inv, true, 6);
    assert InverseFrom(t, inv, true, 5);
    assert InverseFrom(t, inv, true, 4);
    assert InverseFrom(t, inv, true, 3);
    assert InverseFrom(t, inv, true, 2);
    assert InverseFrom(t, inv, true, 1);
    assert InverseFrom(t, inv, true, 0);
    InverseFromSound(t, inv, true, 0);
  }

  /**
   * Single steps of rotor III (the first rotor of the demonstration
   * machine, notch W) as the source's batch count reports them: a knock on
   * the step from 3 to 4 and another on the step from 25 to 0, so rotor II
   * moves twice per revolution; the corrected count reports the one knock
   * single steps meet, on the step from 21 to 22.
   */
  lemma RotorIIIKnocksAsWritten()
    ensures MaskKnocks(NotchAt(22), 3, 1) == 1 && BatchKnocks(NotchAt(22), 3, 1) == 0
    ensures MaskKnocks(NotchAt(22), 21, 1) == 0 && BatchKnocks(NotchAt(22), 21, 1) == 1
    ensures MaskKnocks(NotchAt(22), 25, 1) == 1 && BatchKnocks(NotchAt(22), 25, 1) == 0
  {
    RotorIIIFromThree();
    RotorIIIFromTwentyOne();
    RotorIIIFromTwentyFive();
  }

  lemma RotorIIIFromThree()
    ensures MaskKnocks(NotchAt(22), 3, 1) == 1 && BatchKnocks(NotchAt(22), 3, 1) == 0
  {
    var notches := NotchAt(22);
    CountSingle(notches, 22, 22, 23);
    CountNone(notches, 4, 5);
    DivModUnique(3 + 1, 26, 0, 4);
    DivModUnique(1, 26, 0, 1);
    assert MaskKnocks(notches, 3, 1) == 0 * 1 + CountRange(notches, 26 - 4, 26 - 3);
  }

  lemma RotorIIIFromTwentyOne()
    ensures MaskKnocks(NotchAt(22), 21, 1) == 0 && BatchKnocks(NotchAt(22), 21, 1) == 1
  {
    var notches := NotchAt(22);
    CountSingle(notches, 22, 22, 23);
    CountNone(notches, 4, 5);
    DivModUnique(21 + 1, 26, 0, 22);
    DivModUnique(1, 26, 0, 1);
    assert MaskKnocks(notches, 21, 1) == 0 * 1 + CountRange(notches, 26 - 22, 26 - 21);
  }

  lemma RotorIIIFromTwentyFive()
    ensures MaskKnocks(NotchAt(22), 25, 1) == 1 && BatchKnocks(NotchAt(22), 25, 1) == 0
  {
    var notches := NotchAt(22);
    CountSingle(notches, 22, 1, 26);
    CountNone(notches, 0, 1);
    DivModUnique(25 + 1, 26, 1, 0);
    DivModUnique(1, 26, 0, 1);
    assert MaskKnocks(notches, 25, 1) == 1 * 1 + (1 - CountRange(notches, 26 - 25, 26 - 0));
  }

  /**
   * With reflector B and every rotor at position 0, encoding is its own
   * inverse and never gives back the letter it was given.
   */
  lemma ReflectorBReciprocalAtZero(rs: seq<RotorState>)
    requires AllValid(rs, Letters)
    requires forall i :: 0 <= i < |rs| ==> rs[i].position == 0
    ensures forall v :: 0 <= v < Letters ==>
      EncodeValue(rs, ReflectorB, Letters, v) != v
      && EncodeValue(rs, ReflectorB, Letters, EncodeValue(rs, ReflectorB, Letters, v)) == v
  {
    ReflectorBIsFixedPointFreeInvolution();
    forall v | 0 <= v < Letters
      ensures EncodeValue(rs, ReflectorB, Letters, v) != v
      ensures EncodeValue(rs, ReflectorB, Letters, EncodeValue(rs, ReflectorB, Letters, v)) == v
    {
      EncodeInvolutionAtZero(rs, ReflectorB, Letters, v);
      EncodeNoFixedPointAtZero(rs, ReflectorB, Letters, v);
    }
  }

  /**
   * The demonstration machine: rotors III, II and I in that order, each at
   * position 0, and reflector B; so reading a letter twice at the start
   * gives it back, and never gives the letter itself.
   */
  method DemoMachine() returns (m: EnigmaMachine)
    ensures m.Valid() && m.base == Letters && |m.rotors| == 3 && m.reflector == ReflectorB
    ensures forall i :: 0 <= i < 3 ==> m.rotors[i].position == 0
    ensures forall v :: 0 <= v < Letters ==>
      EncodeValue(m.States(), ReflectorB, Letters, v) != v
      && EncodeValue(m.States(), ReflectorB, Letters, EncodeValue(m.States(), ReflectorB, Letters, v)) == v
  {
    CipherIIsPermutation();
    CipherIIIsPermutation();
    CipherIIIIsPermutation();
    ReflectorBIsFixedPointFreeInvolution();
    var third := new Rotor(Letters, CipherIII, NotchAt(22), Ignore);
    var second := new Rotor(Letters, CipherII, NotchAt(5), Ignore);
    var first := new Rotor(Letters, CipherI, NotchAt(17), Ignore);
    var rotors := [third, second, first];
    assert rotors[0] == third && rotors[1] == second && rotors[2] == first;
    m := new EnigmaMachine(rotors, ReflectorB);
    ReflectorBReciprocalAtZero(m.States());
  }
}
