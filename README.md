# Enigma rotor machine, modelled in Dafny

This project models the header-only Enigma library in `enigma/enigma.hpp`.
The library has three classes:

- A `Rotor` is a substitution over the code points `[0, base)`. Its input is offset by the rotor's position. It also has a notch bitset and a turnover callback. Advancing the rotor (one step, or `steps` steps in constant time) moves the position and, when its count is positive, calls the callback with that count. A single step counts 1 when the new position has a notch. The batch advance is documented to count the notches met, but its mask does not (see "Findings").
- An `EnigmaMachine` chains its rotors: each rotor's callback advances the next rotor. Encoding sends a value forward through the rotors, through a reflector, and back through the rotors in reverse order. `encodeNext` advances the machine by one step and then encodes.
- A `Generator` turns a machine into a bounded value stream: each draw encodes the previous value with `encodeNext`.

The Dafny modules follow that structure:

- `Tables` holds code-point tables and notch bitsets (`seq<bool>`, so bit `i` is element `i`). It has the permutation, inverse and involution predicates, the reverse-table construction, and bit counting under masks.
- `Knocks` counts the notches a rotor meets. It holds three counts: the reference count (repeated single steps), the constant-time count the rotor uses, and the count exactly as the source's bit mask computes it.
- `Rotors` holds the `Rotor` class and the value `RotorState` of a rotor.
- `Machines` holds the `EnigmaMachine` class. It also has the functions that specify it: the forward and reverse passes, the encoding, and the advance cascade.
- `Generators` holds the `Generator` class.
- `Wirings` holds the rotor I, II and III wirings, reflector B and the notches that `enigma/main.cpp` uses, with the machine that file assembles from them.

Callbacks are `std::function` closures in the source. Here a callback is a handle: `Ignore` (the default no-op) or `AdvanceRotor(i)` (batch-advance rotor `i` of the same machine). A rotor's advance returns `None` when it does not call its callback, and `Some(k)` when it calls it with `k`. The machine carries out a returned `Some(k)` as the call chain of the source does: the next rotor advances by `k`, and so on down the chain.

The comment on `advance(steps)` (enigma/enigma.hpp:105-108) says it reports the number of notches encountered, and `advance()` (91-103) counts those one step at a time. The code's mask does not do this (see "Findings"). The model records the count as the code computes it, and uses the corrected count for the rotor, the machine and the generator.

## Model

| member | source | states |
|---|---|---|
| `Tables.ReverseTable` | enigma/enigma.hpp:73-75 | Filling `reverse[cipher[i]] = i` for every `i` leaves the exact two-sided inverse of a permutation. |
| `Tables.InverseMakesPermutation` | enigma/enigma.hpp:65-76 | A table with a two-sided inverse is a permutation, and so is its inverse. |
| `Tables.PopCount` | enigma/enigma.hpp:111 | The number of set bits is at most the bitset's width. |
| `Tables.IntervalMaskCount` | enigma/enigma.hpp:118 | `(bits & mask).count()` with `mask` the interval `[a, b)` counts the set bits in `[a, b)`. |
| `Tables.ComplementMaskCount` | enigma/enigma.hpp:117-118 | With `mask` the complement of `[a, b)`, the count is every set bit outside `[a, b)`. |
| `Knocks.StepPosition` | enigma/enigma.hpp:93-95 | One step moves to `(position + 1) % base`, the next code point with wrap-around. |
| `Knocks.StepwiseKnocks` | enigma/enigma.hpp:91-103 | The knocks repeated `advance()` calls deliver: at most one per step. |
| `Knocks.StepwisePosition` | enigma/enigma.hpp:91-103 | Repeated single steps keep the position below `base`. |
| `Knocks.StepwiseSplit` | enigma/enigma.hpp:91-103 | Stepping `a` times and then `b` times lands where `a + b` steps land, and meets the sum of the two knock counts. |
| `Knocks.WithinLap` | enigma/enigma.hpp:91-103 | Steps that do not pass the last position land at `p + steps` and meet the notches in `(p, p + steps]`. |
| `Knocks.WrapLap` | enigma/enigma.hpp:91-103 | At most one revolution that wraps meets the notches in `(p, base)` and then those in `[0, p + steps - base]`. |
| `Knocks.FullLaps` | enigma/enigma.hpp:91-103 | `k` whole revolutions of single steps return to the start and meet each notch `k` times. |
| `Knocks.NoStepsNoKnocks` | enigma/enigma.hpp:121-123 | A batch advance by no steps counts no knocks, so it invokes no callback. |
| `Knocks.ArcKnocks` | enigma/enigma.hpp:105-118 | The notches on the arc swept by fewer steps than a revolution: at most one per step, and at most the notch count, since no notch is met twice. |
| `Knocks.BatchKnocks` | enigma/enigma.hpp:105-127 | The corrected constant-time count used by the rotor: at least one knock per notch for each whole revolution, at most one revolution's notches more, and at most one knock per step. |
| `Knocks.ArcIsStepwise` | enigma/enigma.hpp:105-127 | Fewer steps than a revolution meet exactly the notches on the arc `(p, p + rest]`, read around the rotor. |
| `Knocks.ModAfterLaps` | enigma/enigma.hpp:110-112 | Whole laps do not change where an advance lands: `(p + laps * base + rest) % base` is `p + rest`, minus `base` when that passes the end. |
| `Knocks.BatchIsStepwise` | enigma/enigma.hpp:105-127 | The constant-time count (whole revolutions times the notch count, plus the notches on the remaining arc) equals the knocks of `steps` single steps. The new position `(p + steps) % base` is where those steps land. |
| `Knocks.BatchWholeRevolutions` | enigma/enigma.hpp:110-112 | `k` whole revolutions leave the position unchanged and count `k` knocks per notch. |
| `Tables.And` | enigma/enigma.hpp:118 | Bitwise `&` of two bitsets of one width: a bit is set when it is set in both. |
| `Tables.Not` | enigma/enigma.hpp:117 | Bitwise `~`: every bit flipped. |
| `Knocks.Min` | enigma/enigma.hpp:115 | `lead`, the first entry of `make_sorted_array(position, next)`: one of the two, and at most both. |
| `Knocks.Max` | enigma/enigma.hpp:115 | `trail`, the second entry: one of the two, and at least both. |
| `Knocks.Ones` | enigma/enigma.hpp:114 | `~NotchArray{}` sets all `base` bits. |
| `Knocks.ShiftLeft` | enigma/enigma.hpp:116 | `<<` moves bit `i` to `i + k` and clears the `k` lowest bits; bits pushed past the width are lost. |
| `Knocks.ShiftRight` | enigma/enigma.hpp:116 | `>>` moves bit `i` to `i - k` and clears the `k` highest bits. |
| `Knocks.SweepMask` | enigma/enigma.hpp:114-117 | The shifted all-ones mask holds the bits `[base - new, base - old)` when the advance did not wrap. When it did wrap, it holds the complement of `[base - old, base - new)`. |
| `Knocks.SweepMaskCounts` | enigma/enigma.hpp:114-118 | A mask of that shape selects the notches at the mirrored positions, or every notch outside the mirrored interval after a wrap. |
| `Knocks.SweepMaskSelects` | enigma/enigma.hpp:114-118 | The source's own mask selects exactly those notches. |
| `Knocks.MaskSelected` | enigma/enigma.hpp:114-118 | `(notches & mask).count()` with the source's mask is the count of the notches at the mirrored positions `[base - new, base - old)`, or, after a wrap, of every notch outside `[base - old, base - new)`. |
| `Knocks.MaskKnocks` | enigma/enigma.hpp:110-118 | The count as the source computes it: `(position + steps) / base` times the notch count, plus the notches its mask selects. |
| `Wirings.RotorIIIKnocksAsWritten` | enigma/enigma.hpp:110-118 | For rotor III of the demonstration machine (notch W), the source's count reports a knock on the steps 3 to 4 and 25 to 0 and none on 21 to 22. The corrected count reports the single knock on 21 to 22. |
| `Knocks.WholeRevolutions` | enigma/enigma.hpp:110-118 | For `k` whole revolutions (and for no steps), the source's count, the corrected count and the single-step count agree on `k` knocks per notch. |
| `Knocks.MaskMissesReachedNotch` | enigma/enigma.hpp:105-118 | One step from 0 onto the only notch, at 1, knocks once step by step and in the corrected count. The source's mask counts 0. |
| `Knocks.MaskCountsWrappedNotchTwice` | enigma/enigma.hpp:105-118 | One step from the last position onto the only notch, at 0, knocks once step by step and in the corrected count. The source counts 2. |
| `Rotors.Delivered` | enigma/enigma.hpp:121-123 | The callback is invoked exactly when the knock count is positive, and then with that count. |
| `Rotors.ForwardLookup` | enigma/enigma.hpp:129-132 | The forward cipher gives a code point whose reverse entry is the input offset by the position. |
| `Rotors.ReverseLookup` | enigma/enigma.hpp:134-137 | The reverse cipher gives a code point whose forward entry is the input offset by the same position. |
| `Rotors.LookupsCancelAtZero` | enigma/enigma.hpp:129-137 | At position 0 the forward and reverse ciphers undo each other in both orders. |
| `Rotors.LookupsNeedNotCancelElsewhere` | enigma/enigma.hpp:129-137 | Away from position 0 they need not undo each other, because both add the position. Here an identity rotor at position 1 sends 0 forward to 1 and 1 back to 2. |
| `Rotors.Rotor.constructor` | enigma/enigma.hpp:65-76 | A rotor built from a permutation and a notch bitset of width `base` starts at position 0 with the given callback. Its reverse table is the inverse of the forward one. |
| `Rotors.Rotor.SetTurnoverCallback` | enigma/enigma.hpp:82-85 | The callback is replaced and nothing else changes. |
| `Rotors.Rotor.Advance` | enigma/enigma.hpp:91-103 | The position becomes `(old + 1) % base` and is returned. The callback receives 1 exactly when the new position has a notch, which is the one-step reference count. |
| `Rotors.Rotor.AdvanceBy` | enigma/enigma.hpp:109-127 | The position becomes `(old + steps) % base`, where `steps` single steps land, and is returned. The callback is invoked once, with the single-step knock count, when that count is positive. No steps change nothing. |
| `Rotors.Rotor.DoForwardCipher` | enigma/enigma.hpp:129-132 | Reads the forward table at `(position + val) % base`, as `ForwardLookup` states. |
| `Rotors.Rotor.DoReverseCipher` | enigma/enigma.hpp:134-137 | Reads the reverse table at `(position + val) % base`, as `ReverseLookup` states. |
| `Machines.ForwardPass` | enigma/enigma.hpp:232-235 | The forward pass through the rotors in assembly order stays a code point. |
| `Machines.ReversePass` | enigma/enigma.hpp:240-243 | The reverse pass through the rotors in reverse order stays a code point. |
| `Machines.ReversePassLast` | enigma/enigma.hpp:240-243 | The reverse pass over a chain that ends in `x` starts with `x`'s reverse cipher. |
| `Machines.EncodeValue` | enigma/enigma.hpp:230-246 | Forward pass, reflector, reverse pass: the result is a code point. |
| `Machines.PassesCancelAtZero` | enigma/enigma.hpp:230-246 | With every rotor at position 0, the two passes undo each other in both orders. |
| `Machines.EncodeInvolutionAtZero` | enigma/enigma.hpp:230-246 | With every rotor at position 0 and a self-inverse reflector, encoding twice gives back the input. |
| `Machines.EncodeNoFixedPointAtZero` | enigma/enigma.hpp:230-246 | With every rotor at position 0 and a fixed-point-free involution as reflector, no code point encodes to itself. |
| `Machines.EncodeMayFixAPointElsewhere` | enigma/enigma.hpp:230-246 | Away from position 0 that fails. An identity rotor at position 1, with a fixed-point-free involution as reflector, encodes 0 to 0. |
| `Machines.Deliveries` | enigma/enigma.hpp:211-222 | One step count per rotor: rotor 0 receives `steps`, and every later rotor receives what the rotor before it knocked. |
| `Machines.Cascade` | enigma/enigma.hpp:211-222 | The rotor values after the cascade, one per rotor. |
| `Machines.DeliveriesLink` | enigma/enigma.hpp:211-216 | Rotor `i + 1` receives exactly the knocks of rotor `i`'s move. |
| `Machines.CascadeDeliveries` | enigma/enigma.hpp:211-222 | Rotor 0 receives `steps`. Each later rotor receives the single-step knock count of the rotor before it, and lands where that many single steps take it. |
| `Machines.DeliveriesStop` | enigma/enigma.hpp:211-222 | Once a rotor receives no steps, no later rotor receives any. |
| `Machines.CascadeStops` | enigma/enigma.hpp:211-222 | From a rotor that receives no steps on, every rotor keeps its position. |
| `Machines.CascadeWholeRevolutions` | enigma/enigma.hpp:220-222 | Advancing by `k` whole revolutions leaves rotor 0 in place and advances rotor 1 by `k` times rotor 0's notch count. |
| `Machines.EnigmaMachine.constructor` | enigma/enigma.hpp:206-218 | The rotors are kept in the order given. Each rotor's callback is wired to advance the next, and no position changes. |
| `Machines.EnigmaMachine.Advance` | enigma/enigma.hpp:220-222 | The new rotor values are exactly the cascade started by advancing rotor 0 by `steps`. |
| `Machines.EnigmaMachine.AdvanceFrom` | enigma/enigma.hpp:211-216 | Following the callback chain from rotor `i` moves rotors `i` and later to their cascade values, and leaves the earlier rotors alone. |
| `Machines.EnigmaMachine.Encode` | enigma/enigma.hpp:230-246 | The loops compute `EncodeValue` of the current rotor values, and no state changes. |
| `Machines.EnigmaMachine.EncodeNext` | enigma/enigma.hpp:253-256 | The machine steps once (the cascade of one step), then encodes on the new positions. |
| `Generators.Generator.constructor` | enigma/enigma.hpp:315-317 | Binds the machine and sets the current value to the seed. |
| `Generators.Generator.Min` | enigma/enigma.hpp:319-321 | The lower bound is at most the upper bound. |
| `Generators.Generator.Max` | enigma/enigma.hpp:323-325 | The upper bound is the last code point. |
| `Generators.Generator.Draw` | enigma/enigma.hpp:327-330 | The machine steps once, and the result is the encoding of the previous value on the new positions. It lies in `[Min(), Max()]` and becomes the current value. |
| `Wirings.NotchAt` | enigma/main.cpp:40-57 | A notch bitset with the single notch at the given letter, counting one. |
| `Wirings.CipherIIsPermutation` | enigma/main.cpp:20-23 | The rotor I wiring is a permutation of the 26 letters. |
| `Wirings.CipherIIIsPermutation` | enigma/main.cpp:25-28 | The rotor II wiring is a permutation. |
| `Wirings.CipherIIIIsPermutation` | enigma/main.cpp:30-33 | The rotor III wiring is a permutation. |
| `Wirings.ReflectorBIsFixedPointFreeInvolution` | enigma/main.cpp:35-38 | Reflector B is its own inverse and moves every letter. |
| `Wirings.ReflectorBReciprocalAtZero` | enigma/main.cpp:35-38 | With reflector B and every rotor at position 0, encoding is its own inverse and never returns its input. |
| `Wirings.DemoMachine` | enigma/main.cpp:67-74 | The machine of rotors III, II and I with reflector B is well formed and starts at position 0, where it encodes reciprocally and without fixed points. |

## Left out

- Machines.Deliveries: uses the corrected count, so it gives the next rotor the knocks single steps meet. The program's batch advance reports other knocks even on single steps: for rotor III of the demonstration machine, a knock on the steps from 3 and from 25 (`Wirings.RotorIIIKnocksAsWritten`), while single steps knock only on the step from 21.
- Machines.Cascade: moves each rotor by the corrected deliveries, so the rotor positions after an advance can differ from the program's.
- Machines.EnigmaMachine.Advance: is specified by the corrected cascade, not by the program's, because every machine advance goes through the batch overload (enigma/enigma.hpp:220-222).
- Machines.EnigmaMachine.AdvanceFrom: follows the callback chain with the corrected knock counts.
- Machines.EnigmaMachine.EncodeNext: steps the machine by the corrected cascade. The program's positions after a step, and hence its encodings, can differ.
- Generators.Generator.Draw: draws from the machine stepped by the corrected cascade, so its value stream is not the program's.
- No as-written cascade is modelled. The difference is shown rotor by rotor (`Knocks.MaskKnocks` against `Knocks.BatchKnocks`).
- Rotors.Rotor.AdvanceBy: does not reproduce the mask count of enigma/enigma.hpp:114-118. It uses the corrected count (`Knocks.BatchKnocks`). The count as written is `Knocks.MaskKnocks`, and the "Findings" section relates the two.
- Callbacks are handles, not arbitrary closures. A rotor's callback is either the no-op or "advance rotor `i`". A machine's last rotor must carry the no-op, where the source would call whatever closure it was built with.
- The machine takes over the caller's rotor objects and rewires them in place. The source copies or moves the array into the machine, and its closures refer to those copies.
- `std::size_t` arithmetic is unbounded here. Overflow of `position + steps` in the batch advance, and `rotors.size() - 1` wrapping for an empty array, are not modelled, so a machine needs at least one rotor.
- The `IndexT` code-point type and its width are not modelled; code points are naturals below `base`. The `static_assert`s on it become the requirement `base > 0`.
- The `assert`s on `val < base` and `position < base` become preconditions and invariants. The `assert(callback)` of `setTurnoverCallback` has no counterpart, because a handle is never empty.
- Rotor tables that are not permutations are not modelled. The source would leave reverse entries unset, or write out of range.
- `getTurnoverCallback`, `getBase` and `getRotorCount` only read a field or return a constant (`callback`, `base`, `|rotors|`).
- The deduction guides and the array helpers of `enigma/util.hpp` are compile-time plumbing and have no runtime behaviour.
- From `enigma/main.cpp` only the tables and the machine assembly are modelled. Clock seeding, `std::shuffle` and console output are I/O and library calls.

## Findings

| source | as written | input that shows it | evidently intended | confidence | as-written member | corrected member |
|---|---|---|---|---|---|---|
| enigma/enigma.hpp:110-118 | The batch advance counts `(position + steps) / base` revolutions, then `(notches & mask).count()` with mask bits `[base - trail, base - lead)`. That interval mirrors the arc that was swept, and on a wrap the complemented mask counts the wrapped part a second time. | `base >= 3`, position 0, steps 1, only notch at 1: counts 0, single steps knock once. `base >= 2`, position `base - 1`, steps 1, only notch at 0: counts 2, single steps knock once. | The knocks of `steps` single steps, as the comment at 105-108 says and as `advance()` at 91-103 counts them: whole revolutions times the notch count, plus the notches on the arc `(position, position + steps % base]` read around the rotor. | not executed | `Knocks.MaskKnocks` (`Knocks.MaskMissesReachedNotch`, `Knocks.MaskCountsWrappedNotchTwice`, `Wirings.RotorIIIKnocksAsWritten`) | `Knocks.BatchKnocks` (`Knocks.BatchIsStepwise`) |
