/** The identifier hash that seeds the sketch generator, and the path record
    it hands to the renderer. The hash folds the UTF-16 code units of a
    string into a signed 32-bit accumulator, `h = 31 * h + c` with
    wrap-around, and returns the accumulator's absolute value. */
module Rough {
  import opened Int32
  import opened Wrappers

  /** One UTF-16 code unit, as `String.prototype.charCodeAt` returns it. */
  type CodeUnit = c: int | 0 <= c < 0x1_0000

  /** A JavaScript string: a sequence of UTF-16 code units. */
  type JsString = seq<CodeUnit>

  /** A path descriptor handed to the renderer: the SVG path data and the
      optional style attributes. */
  datatype PathInfo = PathInfo(d: string, stroke: Option<string>, strokeWidth: Option<real>, fill: Option<string>)

  /** One pass of the loop body: `((h << 5) - h + c) | 0`. The subtraction
      and the addition are exact in double arithmetic, since every operand is
      below 2^32 in magnitude. */
  function Step(h: int, c: CodeUnit): (r: int)
    ensures IsInt32(r)
    ensures r == ToInt32(31 * h + c)
  {
    var shifted := ShiftLeft(h, 5);
    assert Pow2(5) == 32;
    CongruentShift(shifted, h * 32, c - h);
    assert shifted - h + c - (31 * h + c) == shifted - h * 32;
    ToInt32Congruent(shifted - h + c, 31 * h + c);
    OrZero(shifted - h + c)
  }

  /** The accumulator after the loop has consumed all of `s`, as a left fold. */
  function Fold(s: JsString): (h: int)
    ensures IsInt32(h)
  {
    if s == [] then 0 else Step(Fold(s[..|s| - 1]), s[|s| - 1])
  }

  /** The exact, unbounded polynomial hash `sum of s[i] * 31^(|s|-1-i)`:
      the value the loop would compute without 32-bit truncation. */
  function Poly(s: JsString): (p: nat)
  {
    if s == [] then 0 else 31 * Poly(s[..|s| - 1]) + s[|s| - 1]
  }

  /** The value `hashId` returns. */
  function Hash(s: JsString): (r: nat)
    ensures r <= TWO_31
  {
    Abs(Fold(s))
  }

  /** `hashId`: the loop over the code units, then `Math.abs`. It reads and
      writes no state besides its locals. */
  method HashId(id: JsString) returns (r: int)
    ensures r == Hash(id)
    ensures 0 <= r <= TWO_31
  {
    var h := 0;
    for i := 0 to |id|
      invariant h == Fold(id[..i])
    {
      assert id[..i + 1][..i] == id[..i];
      h := OrZero(ShiftLeft(h, 5) - h + id[i]);
      assert h == Step(Fold(id[..i]), id[i]);
    }
    assert id[..|id|] == id;
    r := Abs(h);
  }

  /** Appending a code unit multiplies the accumulator by 31, adds the code
      unit, and wraps to 32 bits. */
  lemma FoldAppend(s: JsString, c: CodeUnit)
    ensures Fold(s + [c]) == ToInt32(31 * Fold(s) + c)
  {
    assert (s + [c])[..|s|] == s;
  }

  /** The 32-bit accumulator is the exact polynomial hash reduced by ToInt32:
      truncating at every step and truncating once at the end agree. */
  lemma {:induction false} FoldIsPoly(s: JsString)
    ensures Fold(s) == ToInt32(Poly(s))
  {
    if s != [] {
      var init, c := s[..|s| - 1], s[|s| - 1];
      FoldIsPoly(init);
      CongruentScale(ToInt32(Poly(init)), Poly(init), 31);
      CongruentShift(31 * ToInt32(Poly(init)), 31 * Poly(init), c);
      ToInt32Congruent(31 * Fold(init) + c, 31 * Poly(init) + c);
    }
  }

  /** The hash is 0 exactly when the accumulator ends at 0. */
  lemma HashZero(s: JsString)
    ensures Hash(s) == 0 <==> Fold(s) == 0
  {
  }

  lemma HashEmpty()
    ensures Hash([]) == 0
  {
  }

  /** A single code unit hashes to itself. */
  lemma HashSingle(c: CodeUnit)
    ensures Hash([c]) == c
  {
    assert [c][..0] == [];
    assert Fold([c]) == ToInt32(31 * 0 + c);
    ToInt32Fixed(c);
  }

  /** As long as the polynomial stays below 2^31 nothing wraps, and the hash
      is the polynomial itself. */
  lemma HashNoWrap(s: JsString)
    requires Poly(s) < TWO_31
    ensures Hash(s) == Poly(s)
  {
    FoldIsPoly(s);
    ToInt32Fixed(Poly(s));
  }

  /** The upper bound 2^31 is reached exactly when the accumulator ends at
      the most negative 32-bit value, whose absolute value has no signed
      32-bit representation. */
  lemma HashAtBound(s: JsString)
    ensures Hash(s) == TWO_31 <==> Fold(s) == -TWO_31
  {
  }

  /** A five-unit string whose polynomial is exactly 2^31, so the final
      step wraps to -2^31 and the hash is 2^31: the bound is attained. */
  lemma HashReachesBound()
    ensures Hash([2325, 9, 30, 12, 2]) == TWO_31
  {
    var s: JsString := [2325, 9, 30, 12, 2];
    assert s[..4] == [2325, 9, 30, 12] && s[..4][..3] == [2325, 9, 30];
    assert s[..4][..3][..2] == [2325, 9] && [2325, 9][..1] == [2325] && [2325][..0] == [];
    assert Poly([2325]) == 2325;
    assert Poly([2325, 9]) == 72084;
    assert Poly([2325, 9, 30]) == 2234634;
    assert Poly([2325, 9, 30, 12]) == 69273666;
    assert Poly(s) == TWO_31;
    FoldIsPoly(s);
  }
}
