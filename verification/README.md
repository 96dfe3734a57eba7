# Slide utilities: identifier hash, click gate and variant colours

A Dafny model of the three pieces of the slide-deck add-on that have
behaviour of their own:

- **`hashId`** (`composables/useRough.ts`): a deterministic string hash that
  seeds the hand-drawn shape generator, so one identifier always gets the same
  jitter. It folds the string's UTF-16 code units into a signed 32-bit
  accumulator with `h = ((h << 5) - h + c) | 0` and returns `Math.abs(h)`.
  The model spells out JavaScript's 32-bit operators as in ECMA-262.
  `ToInt32` is section 7.1.6. `<<` is section 13.9.1. `x | 0` is
  ToInt32 of `x`. Strings are sequences of code units in `[0, 65536)`.
  `HashId` is the loop, proved against the recursive fold `Fold`.
  `Fold` is in turn proved equal to the exact polynomial hash `Poly`,
  reduced by ToInt32.
- **`isVisible`** (`composables/useClickVisibility.ts`): whether an element
  with an optional click threshold, and an optional fallback threshold, is
  shown at the slide's current click step. The host's reactive click counter
  is the explicit parameter `current`.
- **`getVariantColors`** (`constants/colors.ts`): the stroke/fill pair of a
  semantic variant, with `default` for an absent variant. `VARIANT_COLORS` and
  `EDGE_STROKE` are constants; `PathInfo` (`useRough.ts:4-9`) is a plain
  record type.

`undefined` and `null` are both `None` of `Wrappers.Option`. The source only
tests them together, through `??` and `== null`.

The result of `hashId` lies in `[0, 2^31]`, and both ends are reached.
The upper end comes from a final accumulator of `-2^31`. `Math.abs` works on
doubles, so it returns `2^31` there rather than overflowing. The model keeps
that behaviour, as the code does, and adopts no clamping or other policy.
`HashAtBound` and `HashReachesBound` state it.

Files: `wrappers.dfy` (Option), `int32.dfy` (JavaScript 32-bit arithmetic),
`rough.dfy` (the hash and `PathInfo`), `click_visibility.dfy`, `colors.dfy`.

## Model

| member | source | states |
|---|---|---|
| Int32.ToInt32 | packages/slidev-addon-utils/composables/useRough.ts:14 | the result is a signed 32-bit value congruent to the input modulo 2^32 (the conversion behind `<<` and `\| 0`) |
| Int32.ShiftLeft | packages/slidev-addon-utils/composables/useRough.ts:14 | `x << n` is a signed 32-bit value congruent to `x * 2^(n mod 32)` modulo 2^32 |
| Int32.OrZero | packages/slidev-addon-utils/composables/useRough.ts:14 | `x \| 0` is signed 32-bit, congruent to `x`, and leaves an int32 value unchanged |
| Int32.Abs | packages/slidev-addon-utils/composables/useRough.ts:16 | `Math.abs` returns a non-negative value equal to `x` or `-x`, with no 32-bit overflow |
| Int32.ToInt32Congruent | packages/slidev-addon-utils/composables/useRough.ts:14 | ToInt32 gives the same result on inputs that are equal modulo 2^32 |
| Rough.Step | packages/slidev-addon-utils/composables/useRough.ts:14 | one loop step `((h << 5) - h + c) \| 0` equals `wrap32(31*h + c)` and is int32 |
| Rough.Fold | packages/slidev-addon-utils/composables/useRough.ts:12-15 | the accumulator after the whole string is always a signed 32-bit value |
| Rough.Hash | packages/slidev-addon-utils/composables/useRough.ts:11-17 | the hash is in `[0, 2^31]` |
| Rough.HashZero | packages/slidev-addon-utils/composables/useRough.ts:16 | the hash is 0 exactly when the final accumulator is 0 |
| Rough.HashId | packages/slidev-addon-utils/composables/useRough.ts:11-17 | the loop returns `Math.abs` of the left fold over all code units, within `[0, 2^31]`; after `i` units its accumulator is the fold of the first `i` (loop invariant); it has no modifies clause, so it touches no state |
| Rough.FoldAppend | packages/slidev-addon-utils/composables/useRough.ts:13-15 | appending a code unit `c` turns accumulator `a` into `wrap32(31*a + c)` |
| Rough.FoldIsPoly | packages/slidev-addon-utils/composables/useRough.ts:12-15 | the wrapped accumulator equals the exact polynomial `sum s[i]*31^(n-1-i)` reduced by ToInt32 |
| Rough.HashEmpty | packages/slidev-addon-utils/composables/useRough.ts:12-16 | the empty string hashes to 0 |
| Rough.HashSingle | packages/slidev-addon-utils/composables/useRough.ts:12-16 | a single code unit `c` hashes to `c` |
| Rough.HashNoWrap | packages/slidev-addon-utils/composables/useRough.ts:12-16 | when the polynomial stays below 2^31 the hash equals the polynomial |
| Rough.HashAtBound | packages/slidev-addon-utils/composables/useRough.ts:14-16 | the hash is 2^31 if and only if the final accumulator is -2^31 |
| Rough.HashReachesBound | packages/slidev-addon-utils/composables/useRough.ts:14-16 | the bound 2^31 is attained, by the code units `[2325, 9, 30, 12, 2]` |
| ClickVisibility.EffectiveClick | packages/slidev-addon-utils/composables/useClickVisibility.ts:9 | `click ?? fallbackClick`: the element's threshold when present, else the fallback; absent only when both are |
| ClickVisibility.IsVisible | packages/slidev-addon-utils/composables/useClickVisibility.ts:8-12 | visible with no threshold at all; with `click` present, iff `current >= click`, ignoring the fallback; with only the fallback, iff `current >= fallbackClick` |
| ClickVisibility.VisibleMonotoneInStep | packages/slidev-addon-utils/composables/useClickVisibility.ts:11 | visible at step `n` implies visible at every later step |
| ClickVisibility.VisibleBoundary | packages/slidev-addon-utils/composables/useClickVisibility.ts:9-11 | with threshold `t`, from either argument, the element is shown at step `t` and hidden at `t - 1` |
| ClickVisibility.VisibleAntitoneInThreshold | packages/slidev-addon-utils/composables/useClickVisibility.ts:9-11 | visible with effective threshold `t`, taken from either argument, implies visible with any lower threshold given as `click` (whatever the fallback) or as the fallback alone |
| Colors.TableIsTotal | packages/slidev-addon-utils/constants/colors.ts:6-14 | `VARIANT_COLORS` has an entry for every variant |
| Colors.GetVariantColors | packages/slidev-addon-utils/constants/colors.ts:18-20 | a present variant gets its own table entry with no fallback; an absent one gets the `default` entry; the result is always a table entry |
| Colors.AbsentIsDefault | packages/slidev-addon-utils/constants/colors.ts:19 | an absent variant gives the same pair as `default` |
| Colors.VariantColorValues | packages/slidev-addon-utils/constants/colors.ts:8-14 | each of the five variants gets exactly its literal stroke/fill pair |

## Left out

- `useRough`, `rough.generator()` and `toPaths` (`useRough.ts:19-27`) are not modelled. They hand a drawable to the roughjs library and return its path list. That library's code and its seeded random sampling are not part of this model. `PathInfo` is kept only as a record type.
- The reactive wiring of `useClickVisibility` is not modelled: `useSlideContext`, `computed`, and returning `clicks` (`useClickVisibility.ts:1-6, 14`). The current click step is a parameter instead.
- `constants/fonts.ts` is a static typography table with no behaviour.
- `slidev-theme-brand/setup/unocss.ts` is a build-time configuration factory for an external styling tool.
- Click thresholds and the step counter are integers. The source's `number` is a double, and fractional, infinite or NaN thresholds are not modelled.
- The hash models the arithmetic between the 32-bit operators as exact integer arithmetic. In the source it is double arithmetic. The two agree because every operand is below 2^32 in magnitude.
- Determinism and immutability hold by construction. `Hash` and `GetVariantColors` are functions, `HashId` has no modifies clause, and `VARIANT_COLORS` is a constant. No separate lemma states them.
