/**
 * Tables shared by the rotors and the reflector of the machine: code points
 * are naturals in [0, base), a cipher table is a sequence of code points of
 * length base, and a notch set is a bitset of length base, modelled as a
 * sequence of booleans.
 */
module Tables {

  /** `Some(k)`: a turnover callback was invoked once, with the count `k`. */
  datatype Option<+T> = None | Some(value: T)

  /** Every entry of `table` is a code point below `base`. */
  predicate InRange(table: seq<nat>, base: nat) {
    forall i :: 0 <= i < |table| ==> table[i] < base
  }

  /** `table` is a bijection of [0, base) onto itself. */
  ghost predicate IsPermutation(table: seq<nat>, base: nat) {
    && |table| == base
    && InRange(table, base)
    && (forall i, j :: 0 <= i < j < base ==> table[i] != table[j])
    && (forall v :: 0 <= v < base ==> v in table)
  }

  /** `inverse` undoes `table` from both sides. */
  ghost predicate IsInverse(inverse: seq<nat>, table: seq<nat>, base: nat) {
    && |table| == base
    && |inverse| == base
    && InRange(table, base)
    && InRange(inverse, base)
    && (forall i :: 0 <= i < base ==> inverse[table[i]] == i)
    && (forall j :: 0 <= j < base ==> table[inverse[j]] == j)
  }

  /** A table with a two-sided inverse is a permutation, and so is its inverse. */
  lemma InverseMakesPermutation(table: seq<nat>, inverse: seq<nat>, base: nat)
    requires IsInverse(inverse, table, base)
    ensures IsPermutation(table, base) && IsPermutation(inverse, base)
  {
    forall v | 0 <= v < base
      ensures v in table && v in inverse
    {
      assert table[inverse[v]] == v;
      assert inverse[table[v]] == v;
    }
  }

  /** A reflector that is its own inverse and sends no code point to itself. */
  ghost predicate IsFixedPointFreeInvolution(table: seq<nat>, base: nat) {
    && |table| == base
    && InRange(table, base)
    && (forall v :: 0 <= v < base ==> table[table[v]] == v && table[v] != v)
  }

  /**
   * The reverse cipher built by the rotor constructor: one pass over the
   * forward table writing `reverse[cipher[i]] = i` into a fixed-size buffer.
   */
  method ReverseTable(cipher: seq<nat>, base: nat) returns (reverse: seq<nat>)
    requires IsPermutation(cipher, base)
    ensures IsInverse(reverse, cipher, base)
  {
    var buffer := new nat[base];
    for i := 0 to base
      invariant forall k :: 0 <= k < i ==> buffer[cipher[k]] == k
    {
      buffer[cipher[i]] := i;
    }
    reverse := buffer[..];
    forall j | 0 <= j < base
      ensures reverse[j] < base && cipher[reverse[j]] == j
    {
      assert j in cipher;
      var i :| 0 <= i < base && cipher[i] == j;
    }
  }

  /** The number of set bits of `bits` at indices in [lo, hi). */
  function CountRange(bits: seq<bool>, lo: nat, hi: nat): (count: nat)
    requires lo <= hi <= |bits|
    ensures count <= hi - lo
    decreases hi - lo
  {
    if lo == hi then 0 else CountRange(bits, lo, hi - 1) + (if bits[hi - 1] then 1 else 0)
  }

  /** `std::bitset::count`: the number of set bits. */
  function PopCount(bits: seq<bool>): (count: nat)
    ensures count <= |bits|
  {
    CountRange(bits, 0, |bits|)
  }

  /** Bitwise `&` of two bitsets of one width. */
  function And(a: seq<bool>, b: seq<bool>): (r: seq<bool>)
    requires |a| == |b|
    ensures |r| == |a| && forall i :: 0 <= i < |a| ==> r[i] == (a[i] && b[i])
  {
    seq(|a|, i requires 0 <= i < |a| => a[i] && b[i])
  }

  /** Bitwise `~` of a bitset. */
  function Not(a: seq<bool>): (r: seq<bool>)
    ensures |r| == |a| && forall i :: 0 <= i < |a| ==> r[i] == !a[i]
  {
    seq(|a|, i requires 0 <= i < |a| => !a[i])
  }

  /** Counting over adjacent ranges adds up. */
  lemma {:induction false} CountSplit(bits: seq<bool>, lo: nat, mid: nat, hi: nat)
    requires lo <= mid <= hi <= |bits|
    ensures CountRange(bits, lo, hi) == CountRange(bits, lo, mid) + CountRange(bits, mid, hi)
    decreases hi - mid
  {
    if mid < hi {
      CountSplit(bits, lo, mid, hi - 1);
    }
  }

  /** A range with no set bit counts zero. */
  lemma {:induction false} CountNone(bits: seq<bool>, lo: nat, hi: nat)
    requires lo <= hi <= |bits|
    requires forall i :: lo <= i < hi ==> !bits[i]
    ensures CountRange(bits, lo, hi) == 0
    decreases hi - lo
  {
    if lo < hi {
      CountNone(bits, lo, hi - 1);
    }
  }

  /** Two bitsets that agree on a range count alike on it. */
  lemma {:induction false} CountAgree(a: seq<bool>, b: seq<bool>, lo: nat, hi: nat)
    requires lo <= hi <= |a| && hi <= |b|
    requires forall i :: lo <= i < hi ==> a[i] == b[i]
    ensures CountRange(a, lo, hi) == CountRange(b, lo, hi)
    decreases hi - lo
  {
    if lo < hi {
      CountAgree(a, b, lo, hi - 1);
    }
  }

  /** A bitset whose only set bit is `j` counts one on a range holding `j`. */
  lemma {:induction false} CountSingle(bits: seq<bool>, j: nat, lo: nat, hi: nat)
    requires lo <= j < hi <= |bits|
    requires forall i :: 0 <= i < |bits| ==> bits[i] == (i == j)
    ensures CountRange(bits, lo, hi) == 1
  {
    CountSplit(bits, lo, j, hi);
    CountSplit(bits, j, j + 1, hi);
    CountNone(bits, lo, j);
    CountNone(bits, j + 1, hi);
  }

  /** Masking with the interval [a, b) counts the set bits in [a, b). */
  lemma IntervalMaskCount(bits: seq<bool>, mask: seq<bool>, a: nat, b: nat)
    requires |mask| == |bits| && a <= b <= |bits|
    requires forall i :: 0 <= i < |mask| ==> mask[i] == (a <= i < b)
    ensures PopCount(And(bits, mask)) == CountRange(bits, a, b)
  {
    var n := |bits|;
    var masked := And(bits, mask);
    CountSplit(masked, 0, a, n);
    CountSplit(masked, a, b, n);
    CountNone(masked, 0, a);
    CountNone(masked, b, n);
    CountAgree(masked, bits, a, b);
  }

  /** Masking with the complement of [a, b) counts every set bit outside [a, b). */
  lemma ComplementMaskCount(bits: seq<bool>, mask: seq<bool>, a: nat, b: nat)
    requires |mask| == |bits| && a <= b <= |bits|
    requires forall i :: 0 <= i < |mask| ==> mask[i] == !(a <= i < b)
    ensures PopCount(And(bits, mask)) == PopCount(bits) - CountRange(bits, a, b)
  {
    var n := |bits|;
    var masked := And(bits, mask);
    CountSplit(masked, 0, a, n);
    CountSplit(masked, a, b, n);
    CountNone(masked, a, b);
    CountAgree(masked, bits, 0, a);
    CountAgree(masked, bits, b, n);
    CountSplit(bits, 0, a, n);
    CountSplit(bits, a, b, n);
  }
}
