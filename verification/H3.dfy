/** H3 cell identifiers: a resolution, a base cell and fifteen octal digits in one
    64-bit word, and the hierarchy they form. */
module H3 {
  import opened Bits
  import opened Seqs
  import opened Wrappers

  const MAX_RESOLUTION: nat := 15
  const BASE_CELLS: nat := 122
  const PENTAGONS: set<nat> := {4, 14, 24, 38, 49, 58, 63, 72, 83, 97, 107, 117}
  const UNUSED: nat := 7

  datatype CellError = NotHex | NotACell

  // ---------------------------------------------------------------- octal digits

  function Pow8(k: nat): (p: nat)
    ensures p > 0
  {
    if k == 0 then 1 else 8 * Pow8(k - 1)
  }

  predicate Octal(ds: seq<nat>) {
    forall i :: 0 <= i < |ds| ==> ds[i] < 8
  }

  /** The low `k` octal digits of `x`, highest first. */
  function OctDigits(x: nat, k: nat): (r: seq<nat>)
    ensures |r| == k && Octal(r)
    decreases k, x
  {
    if k == 0 then [] else OctDigits(x / 8, k - 1) + [x % 8]
  }

  function OctValue(ds: seq<nat>): nat
    decreases |ds|
  {
    if ds == [] then 0 else 8 * OctValue(Init(ds)) + Last(ds)
  }

  lemma {:induction false} OctBound(ds: seq<nat>)
    requires Octal(ds)
    ensures OctValue(ds) < Pow8(|ds|)
    decreases |ds|
  {
    if ds != [] {
      OctBound(Init(ds));
    }
  }

  /** A word is what stands above its low digits, and the digits. */
  lemma {:induction false} OctSplit(x: nat, k: nat)
    ensures x == x / Pow8(k) * Pow8(k) + OctValue(OctDigits(x, k))
    decreases k
  {
    if k > 0 {
      OctSplit(x / 8, k - 1);
      Snoc(OctDigits(x / 8, k - 1), x % 8);
      SplitStep(x, Pow8(k - 1), OctValue(OctDigits(x / 8, k - 1)));
    }
  }

  lemma {:induction false} SplitStep(x: nat, p: nat, v: nat)
    requires p > 0 && x / 8 == x / 8 / p * p + v
    ensures x == x / (8 * p) * (8 * p) + (8 * v + x % 8)
  {
    DivEight(x, p);
    Scale(x / 8 / p, p);
  }

  lemma {:induction false} Scale(q: int, p: nat)
    ensures 8 * (q * p) == q * (8 * p)
  {
  }

  lemma {:induction false} DivEight(x: nat, b: nat)
    requires b > 0
    ensures x / 8 / b == x / (8 * b)
  {
    var q, r := x / 8, x % 8;
    DivEightParts(x, b, r, q / b, q % b);
  }

  lemma {:induction false} DivEightParts(x: nat, b: nat, r: nat, s: nat, t: nat)
    requires b > 0 && r < 8 && t < b && x == 8 * (b * s + t) + r
    ensures x / (8 * b) == s
  {
    assert 8 * (b * s) == (8 * b) * s;
    QuotientIs(x, 8 * b, s, 8 * t + r);
  }

  /** The digits of a word put together are those it was made of. */
  lemma {:induction false} OctJoin(top: nat, ds: seq<nat>)
    requires Octal(ds)
    ensures OctDigits(top * Pow8(|ds|) + OctValue(ds), |ds|) == ds
    ensures (top * Pow8(|ds|) + OctValue(ds)) / Pow8(|ds|) == top
    decreases |ds|
  {
    OctBound(ds);
    QuotientIs(top * Pow8(|ds|) + OctValue(ds), Pow8(|ds|), top, OctValue(ds));
    if ds != [] {
      var p := Pow8(|ds| - 1);
      OctJoin(top, Init(ds));
      var x := top * p + OctValue(Init(ds));
      Scale(top, p);
      assert top * Pow8(|ds|) + OctValue(ds) == 8 * x + Last(ds);
      QuotientIs(8 * x + Last(ds), 8, x, Last(ds));
      Unsnoc(ds);
    }
  }

  /** `digit_at`, as a shift and a mask. */
  lemma {:induction false} DigitIndex(x: nat, k: nat, i: nat)
    requires i < k
    ensures OctDigits(x, k)[i] == x / Pow8(k - 1 - i) % 8
    decreases k
  {
    if i < k - 1 {
      DigitIndex(x / 8, k - 1, i);
      DivEight(x, Pow8(k - 2 - i));
    }
  }

  /** Setting a digit adds what it lacks. */
  lemma {:induction false} SetDigit(ds: seq<nat>, i: nat, d: nat)
    requires i < |ds|
    ensures OctValue(ds[i := d]) == OctValue(ds) + (d - ds[i]) * Pow8(|ds| - 1 - i)
    decreases |ds|
  {
    var after := ds[i := d];
    if i == |ds| - 1 {
      assert Init(after) == Init(ds);
    } else {
      assert Init(after) == Init(ds)[i := d];
      SetDigit(Init(ds), i, d);
      Scale(d - ds[i], Pow8(|ds| - 2 - i));
    }
  }

  // ------------------------------------------------------------------- the fields

  /** `(bits >> 52) & 0xf`. */
  function Resolution(bits: U64): (r: nat)
    ensures r <= MAX_RESOLUTION
  {
    bits / 0x10_0000_0000_0000 % 16
  }

  /** `(bits >> 45) & 0x7f`. */
  function Base(bits: U64): nat {
    bits / 0x2000_0000_0000 % 128
  }

  /** No reserved bit set, and the mode of a cell. */
  predicate CellMode(bits: U64) {
    bits / 0x8000_0000_0000_0000 == 0 && bits / 0x800_0000_0000_0000 % 16 == 1 && bits / 0x100_0000_0000_0000 % 8 == 0
  }

  /** `digit_at`: the digit of one resolution. */
  function DigitAt(bits: U64, r: nat): nat
    requires 1 <= r <= MAX_RESOLUTION
  {
    bits / Pow8(MAX_RESOLUTION - r) % 8
  }

  function CellDigits(bits: U64): (ds: seq<nat>)
    ensures |ds| == MAX_RESOLUTION && Octal(ds)
  {
    OctDigits(bits, MAX_RESOLUTION)
  }

  /** The word with these fields. */
  function Word(mode: nat, resolution: nat, base: nat, ds: seq<nat>): nat {
    ((mode * 16 + resolution) * 128 + base) * 0x2000_0000_0000 + OctValue(ds)
  }

  lemma {:induction false} Pow8At15()
    ensures Pow8(MAX_RESOLUTION) == 0x2000_0000_0000
  {
    assert Pow8(15) == 0x2000_0000_0000;
  }

  lemma {:induction false} WordFields(mode: nat, resolution: nat, base: nat, ds: seq<nat>)
    requires mode < 256 && resolution < 16 && base < 128 && |ds| == MAX_RESOLUTION && Octal(ds)
    ensures 0 <= Word(mode, resolution, base, ds) < 0x1_0000_0000_0000_0000
    ensures var w: U64 := Word(mode, resolution, base, ds);
      && w / 0x100_0000_0000_0000 == mode && Resolution(w) == resolution && Base(w) == base && CellDigits(w) == ds
  {
    Pow8At15();
    OctBound(ds);
    OctJoin((mode * 16 + resolution) * 128 + base, ds);
    TopFields(Word(mode, resolution, base, ds), mode, resolution, base);
  }

  lemma {:induction false} TopFields(w: nat, mode: nat, resolution: nat, base: nat)
    requires mode < 256 && resolution < 16 && base < 128
    requires w / 0x2000_0000_0000 == (mode * 16 + resolution) * 128 + base
    ensures w < 0x1_0000_0000_0000_0000 && w / 0x100_0000_0000_0000 == mode
    ensures w / 0x10_0000_0000_0000 % 16 == resolution && w / 0x2000_0000_0000 % 128 == base
  {
  }

  /** A word is made of its fields. */
  lemma {:induction false} FieldsWord(bits: U64)
    ensures bits / 0x100_0000_0000_0000 < 256
    ensures bits == Word(bits / 0x100_0000_0000_0000, Resolution(bits), Base(bits), CellDigits(bits))
  {
    Pow8At15();
    OctSplit(bits, MAX_RESOLUTION);
    TopParts(bits);
  }

  lemma {:induction false} TopParts(bits: U64)
    ensures bits / 0x100_0000_0000_0000 < 256
    ensures bits / 0x2000_0000_0000
            == (bits / 0x100_0000_0000_0000 * 16 + bits / 0x10_0000_0000_0000 % 16) * 128
               + bits / 0x2000_0000_0000 % 128
  {
  }

  lemma {:induction false} CellModeIsEight(bits: U64)
    ensures CellMode(bits) <==> bits / 0x100_0000_0000_0000 == 8
  {
  }

  // ---------------------------------------------------------------- which are cells

  /** The first digit that is not nought. */
  function Leading(ds: seq<nat>): Option<nat>
    decreases |ds|
  {
    if ds == [] then None
    else if Leading(Init(ds)).Some? then Leading(Init(ds))
    else if Last(ds) != 0 then Some(Last(ds))
    else None
  }

  /** Digits are used down to the resolution and not beyond; and no descendant of a
      pentagon turns first in the direction it lacks. */
  predicate CellFields(resolution: nat, base: nat, ds: seq<nat>)
    requires |ds| == MAX_RESOLUTION && resolution <= MAX_RESOLUTION
  {
    && base < BASE_CELLS
    && (forall k :: 0 <= k < MAX_RESOLUTION ==> (k < resolution <==> ds[k] != UNUSED))
    && !(base in PENTAGONS && Leading(ds[..resolution]) == Some(1))
  }

  predicate IsCell(bits: U64) {
    CellMode(bits) && CellFields(Resolution(bits), Base(bits), CellDigits(bits))
  }

  /** `digit_at` reads the digit of that place. */
  method ReadDigit(bits: U64, r: nat) returns (d: nat)
    requires 1 <= r <= MAX_RESOLUTION
    ensures d == CellDigits(bits)[r - 1]
  {
    DigitIndex(bits, MAX_RESOLUTION, r - 1);
    d := DigitAt(bits, r);
  }

  method FromBits(bits: U64) returns (r: Result<U64, CellError>)
    ensures r == if IsCell(bits) then Ok(bits) else Err(NotACell)
  {
    if !CellMode(bits) {
      return Err(NotACell);
    }
    var resolution, base := Resolution(bits), Base(bits);
    if base >= BASE_CELLS {
      return Err(NotACell);
    }
    var leading: Option<nat> := None;
    ghost var ds := CellDigits(bits);
    for r := 1 to MAX_RESOLUTION + 1
      invariant forall k :: 0 <= k < r - 1 ==> (k < resolution <==> ds[k] != UNUSED)
      invariant leading == Leading(ds[..if r - 1 <= resolution then r - 1 else resolution])
    {
      var d := ReadDigit(bits, r);
      NextDigit(resolution, r, ds, leading);
      var used := r <= resolution;
      if used == (d == UNUSED) {
        return Err(NotACell);
      }
      if used && d != 0 && leading.None? {
        leading := Some(d);
      }
    }
    if base in PENTAGONS && leading == Some(1) {
      return Err(NotACell);
    }
    r := Ok(bits);
  }

  /** One digit more of the check. */
  lemma {:induction false} NextDigit(resolution: nat, r: nat, ds: seq<nat>, leading: Option<nat>)
    requires 1 <= r <= |ds| && leading == Leading(ds[..if r - 1 <= resolution then r - 1 else resolution])
    requires resolution <= |ds|
    ensures r <= resolution ==> Leading(ds[..r]) == if ds[r - 1] != 0 && leading.None? then Some(ds[r - 1]) else leading
  {
    if r <= resolution {
      LeadingNext(ds, r - 1);
    }
  }

  lemma {:induction false} LeadingNext(ds: seq<nat>, i: nat)
    requires i < |ds|
    ensures Leading(ds[..i + 1])
            == if Leading(ds[..i]).Some? then Leading(ds[..i]) else if ds[i] != 0 then Some(ds[i]) else None
  {
    assert Init(ds[..i + 1]) == ds[..i] && Last(ds[..i + 1]) == ds[i];
  }

  // -------------------------------------------------------------------- ancestors

  function Sevens(n: nat): (r: seq<nat>)
    ensures |r| == n && Octal(r)
  {
    seq(n, _ => UNUSED)
  }

  /** The digits of an ancestor. */
  function Coarser(ds: seq<nat>, resolution: nat): (r: seq<nat>)
    requires |ds| == MAX_RESOLUTION && resolution <= MAX_RESOLUTION && Octal(ds)
    ensures |r| == MAX_RESOLUTION && Octal(r)
  {
    ds[..resolution] + Sevens(MAX_RESOLUTION - resolution)
  }

  /** The cell at `resolution` a cell is in. */
  function ParentOf(cell: U64, resolution: nat): Option<U64> {
    if resolution > Resolution(cell) then None
    else
      FieldsWord(cell);
      WordFields(cell / 0x100_0000_0000_0000, resolution, Base(cell), Coarser(CellDigits(cell), resolution));
      Some(Word(cell / 0x100_0000_0000_0000, resolution, Base(cell), Coarser(CellDigits(cell), resolution)))
  }

  /** `(bits & !(0xf << 52)) | (resolution << 52)`. */
  function WithResolution(bits: U64, resolution: nat): int {
    bits - Resolution(bits) * 0x10_0000_0000_0000 + resolution * 0x10_0000_0000_0000
  }

  /** `bits | (UNUSED << digit_shift(r))`: all three bits of a digit set. */
  function WithUnused(bits: U64, r: nat): int
    requires 1 <= r <= MAX_RESOLUTION
  {
    bits + (UNUSED - DigitAt(bits, r)) * Pow8(MAX_RESOLUTION - r)
  }

  lemma {:induction false} ResolutionSet(bits: U64, resolution: nat)
    requires resolution <= MAX_RESOLUTION
    ensures WithResolution(bits, resolution)
            == Word(bits / 0x100_0000_0000_0000, resolution, Base(bits), CellDigits(bits))
  {
    FieldsWord(bits);
  }

  /** Setting a digit changes that digit alone. */
  lemma {:induction false} UnusedSet(mode: nat, resolution: nat, base: nat, ds: seq<nat>, r: nat)
    requires mode < 256 && resolution < 16 && base < 128 && |ds| == MAX_RESOLUTION && Octal(ds)
    requires 1 <= r <= MAX_RESOLUTION
    ensures 0 <= Word(mode, resolution, base, ds) < 0x1_0000_0000_0000_0000
    ensures WithUnused(Word(mode, resolution, base, ds), r) == Word(mode, resolution, base, ds[r - 1 := UNUSED])
  {
    WordFields(mode, resolution, base, ds);
    UnusedDigit(Word(mode, resolution, base, ds), ds, r);
  }

  lemma {:induction false} UnusedDigit(w: U64, ds: seq<nat>, r: nat)
    requires CellDigits(w) == ds && 1 <= r <= MAX_RESOLUTION
    ensures WithUnused(w, r) - w == OctValue(ds[r - 1 := UNUSED]) - OctValue(ds)
  {
    DigitIndex(w, MAX_RESOLUTION, r - 1);
    SetDigit(ds, r - 1, UNUSED);
  }

  lemma {:induction false} UnusedNext(ds: seq<nat>, resolution: nat, i: nat)
    requires |ds| == MAX_RESOLUTION && resolution <= i < MAX_RESOLUTION
    ensures (ds[..resolution] + Sevens(i - resolution) + ds[i..])[i := UNUSED]
            == ds[..resolution] + Sevens(i + 1 - resolution) + ds[i + 1..]
  {
  }

  /** Digits `resolution` to `i` unused, the others as they are. */
  function Cleared(ds: seq<nat>, resolution: nat, i: nat): (r: seq<nat>)
    requires |ds| == MAX_RESOLUTION && resolution <= i <= MAX_RESOLUTION && Octal(ds)
    ensures |r| == MAX_RESOLUTION && Octal(r)
  {
    ds[..resolution] + Sevens(i - resolution) + ds[i..]
  }

  lemma {:induction false} ClearedNext(mode: nat, resolution: nat, base: nat, ds: seq<nat>, r: nat, bits: U64)
    requires mode < 256 && resolution < 16 && base < 128 && |ds| == MAX_RESOLUTION && Octal(ds)
    requires resolution < r <= MAX_RESOLUTION
    requires bits == Word(mode, resolution, base, Cleared(ds, resolution, r - 1))
    ensures 0 <= WithUnused(bits, r) < 0x1_0000_0000_0000_0000
    ensures WithUnused(bits, r) == Word(mode, resolution, base, Cleared(ds, resolution, r))
  {
    UnusedNext(ds, resolution, r - 1);
    UnusedSet(mode, resolution, base, Cleared(ds, resolution, r - 1), r);
    WordFields(mode, resolution, base, Cleared(ds, resolution, r));
  }

  lemma {:induction false} ClearedAll(cell: U64, resolution: nat)
    requires IsCell(cell) && resolution <= Resolution(cell)
    ensures Cleared(CellDigits(cell), resolution, Resolution(cell)) == Coarser(CellDigits(cell), resolution)
  {
  }

  method Parent(cell: U64, resolution: nat) returns (p: Option<U64>)
    requires IsCell(cell)
    ensures p == ParentOf(cell, resolution)
  {
    var own := Resolution(cell);
    if resolution > own {
      return None;
    }
    ghost var mode: nat, base, ds := cell / 0x100_0000_0000_0000, Base(cell), CellDigits(cell);
    FieldsWord(cell);
    ResolutionSet(cell, resolution);
    WordFields(mode, resolution, base, ds);
    assert Cleared(ds, resolution, resolution) == ds;
    var bits: U64 := WithResolution(cell, resolution);
    for r := resolution + 1 to own + 1
      invariant bits == Word(mode, resolution, base, Cleared(ds, resolution, r - 1))
    {
      ClearedNext(mode, resolution, base, ds, r, bits);
      bits := WithUnused(bits, r);
    }
    ClearedAll(cell, resolution);
    p := Some(bits);
  }

  lemma {:induction false} LeadingOfPrefix(ds: seq<nat>, i: nat)
    requires i <= |ds| && Leading(ds[..i]).Some?
    ensures Leading(ds) == Leading(ds[..i])
    decreases |ds|
  {
    if i == |ds| {
      assert ds[..i] == ds;
    } else {
      assert Init(ds)[..i] == ds[..i];
      LeadingOfPrefix(Init(ds), i);
    }
  }

  /** The fields of an ancestor. */
  lemma {:induction false} ParentFields(cell: U64, resolution: nat)
    requires IsCell(cell) && resolution <= Resolution(cell)
    ensures ParentOf(cell, resolution).Some?
    ensures var p := ParentOf(cell, resolution).value;
      && CellMode(p) && Resolution(p) == resolution && Base(p) == Base(cell)
      && CellDigits(p) == Coarser(CellDigits(cell), resolution)
  {
    CellModeIsEight(cell);
    WordFields(8, resolution, Base(cell), Coarser(CellDigits(cell), resolution));
    CellModeIsEight(ParentOf(cell, resolution).value);
  }

  /** An ancestor is a cell, though nothing checks it. */
  lemma {:induction false} ParentIsCell(cell: U64, resolution: nat)
    requires IsCell(cell) && resolution <= Resolution(cell)
    ensures ParentOf(cell, resolution).Some? && IsCell(ParentOf(cell, resolution).value)
    ensures Resolution(ParentOf(cell, resolution).value) == resolution
  {
    ParentFields(cell, resolution);
    var ds, own := CellDigits(cell), Resolution(cell);
    var qs := Coarser(ds, resolution);
    assert qs[..resolution] == ds[..resolution] == ds[..own][..resolution];
    if Leading(qs[..resolution]).Some? {
      LeadingOfPrefix(ds[..own], resolution);
    }
  }

  /** An ancestor of an ancestor is an ancestor. */
  lemma {:induction false} ParentOfParent(cell: U64, near: nat, far: nat)
    requires IsCell(cell) && far <= near <= Resolution(cell)
    ensures ParentOf(cell, near).Some? && ParentOf(ParentOf(cell, near).value, far) == ParentOf(cell, far)
  {
    ParentFields(cell, near);
    CellModeIsEight(cell);
    CellModeIsEight(ParentOf(cell, near).value);
    var ds := CellDigits(cell);
    assert Coarser(Coarser(ds, near), far) == Coarser(ds, far);
  }

  lemma {:induction false} ParentOfSelf(cell: U64)
    requires IsCell(cell)
    ensures ParentOf(cell, Resolution(cell)) == Some(cell)
  {
    FieldsWord(cell);
    ClearedAll(cell, Resolution(cell));
    assert Cleared(CellDigits(cell), Resolution(cell), Resolution(cell)) == CellDigits(cell);
  }

  /** Going up from `other` to this cell's resolution leads to this cell. */
  predicate Contains(cell: U64, other: U64) {
    ParentOf(other, Resolution(cell)) == Some(cell)
  }

  /** Containment orders the cells. */
  lemma {:induction false} ContainsReflexive(a: U64)
    requires IsCell(a)
    ensures Contains(a, a)
  {
    ParentOfSelf(a);
  }

  lemma {:induction false} ContainsAntisymmetric(a: U64, b: U64)
    requires IsCell(a) && IsCell(b) && Contains(a, b) && Contains(b, a)
    ensures a == b
  {
    ParentOfSelf(a);
  }

  lemma {:induction false} ContainsTransitive(a: U64, b: U64, c: U64)
    requires IsCell(a) && IsCell(b) && IsCell(c) && Contains(a, b) && Contains(b, c)
    ensures Contains(a, c)
  {
    ParentOfParent(c, Resolution(b), Resolution(a));
  }

  /** Cells that both contain one are one inside the other: the hierarchy is a
      forest. */
  lemma {:induction false} AncestorsComparable(a: U64, b: U64, c: U64)
    requires IsCell(a) && IsCell(b) && IsCell(c) && Contains(a, c) && Contains(b, c)
    ensures Contains(a, b) || Contains(b, a)
  {
    if Resolution(a) <= Resolution(b) {
      ParentOfParent(c, Resolution(b), Resolution(a));
    } else {
      ParentOfParent(c, Resolution(a), Resolution(b));
    }
  }

  // ------------------------------------------------------------------- text forms

  predicate IsHex(ch: char) {
    '0' <= ch <= '9' || 'a' <= ch <= 'f'
  }

  function HexChar(d: nat): (ch: char)
    requires d < 16
    ensures IsHex(ch)
  {
    if d < 10 then ('0' as int + d) as char else ('a' as int + d - 10) as char
  }

  function HexValue(ch: char): (d: nat)
    requires IsHex(ch)
    ensures d < 16 && HexChar(d) == ch
  {
    if ch <= '9' then ch as int - '0' as int else ch as int - 'a' as int + 10
  }

  lemma {:induction false} HexCharValue(d: nat)
    requires d < 16
    ensures HexValue(HexChar(d)) == d
  {
  }

  /** `{:x}`. */
  function Show(n: nat): (r: string)
    ensures r != "" && forall i :: 0 <= i < |r| ==> IsHex(r[i])
  {
    if n < 16 then [HexChar(n)] else Show(n / 16) + [HexChar(n % 16)]
  }

  function Radix16(text: string): nat
    requires forall i :: 0 <= i < |text| ==> IsHex(text[i])
    decreases |text|
  {
    if text == "" then 0 else 16 * Radix16(Init(text)) + HexValue(Last(text))
  }

  predicate CanonicalHex(text: string) {
    text != "" && |text| <= 16 && text[0] != '0' && forall i :: 0 <= i < |text| ==> IsHex(text[i])
  }

  /** Text as a word; sixteen hexadecimal characters never overflow one. */
  function Parse(text: string): Result<U64, CellError> {
    if !CanonicalHex(text) then Err(NotHex)
    else
      Radix16Bound(text);
      if IsCell(Radix16(text)) then Ok(Radix16(text)) else Err(NotACell)
  }

  function Pow16(n: nat): nat {
    if n == 0 then 1 else 16 * Pow16(n - 1)
  }

  lemma {:induction false} Radix16Below(text: string)
    requires forall i :: 0 <= i < |text| ==> IsHex(text[i])
    ensures Radix16(text) < Pow16(|text|)
    decreases |text|
  {
    if text != "" {
      Radix16Below(Init(text));
    }
  }

  lemma {:induction false} Pow16At16()
    ensures Pow16(16) == 0x1_0000_0000_0000_0000
  {
    assert Pow16(5) == 0x10_0000;
    assert Pow16(10) == 0x100_0000_0000;
    assert Pow16(15) == 0x1000_0000_0000_0000;
  }

  lemma {:induction false} Radix16Bound(text: string)
    requires |text| <= 16 && forall i :: 0 <= i < |text| ==> IsHex(text[i])
    ensures Radix16(text) < 0x1_0000_0000_0000_0000
  {
    Radix16Below(text);
    Pow16Mono(|text|, 16);
    Pow16At16();
  }

  lemma {:induction false} Pow16Mono(a: nat, b: nat)
    requires a <= b
    ensures Pow16(a) <= Pow16(b)
    decreases b
  {
    if a < b {
      Pow16Mono(a, b - 1);
    }
  }

  /** Digits without a nought in front are those their value prints. */
  lemma {:induction false} ShowRadix(text: string)
    requires text != "" && (forall i :: 0 <= i < |text| ==> IsHex(text[i])) && text[0] != '0'
    ensures Radix16(text) > 0 && Show(Radix16(text)) == text
    decreases |text|
  {
    var d := HexValue(Last(text));
    Unsnoc(text);
    if |text| == 1 {
      assert Init(text) == "";
    } else {
      ShowRadix(Init(text));
      QuotientIs(16 * Radix16(Init(text)) + d, 16, Radix16(Init(text)), d);
    }
  }

  lemma {:induction false} RadixShow(n: nat)
    ensures Radix16(Show(n)) == n && (n > 0 ==> Show(n)[0] != '0')
  {
    HexCharValue(n % 16);
    if n < 16 {
      assert Init(Show(n)) == "";
    } else {
      RadixShow(n / 16);
      Snoc(Show(n / 16), HexChar(n % 16));
    }
  }

  lemma {:induction false} ShowLength(n: nat, k: nat)
    requires k > 0 && n < Pow16(k)
    ensures |Show(n)| <= k
    decreases k
  {
    if n >= 16 {
      ShowLength(n / 16, k - 1);
    }
  }

  /** What parses prints back as it was. */
  lemma {:induction false} ShowParse(text: string)
    requires Parse(text).Ok?
    ensures IsCell(Parse(text).value) && Show(Parse(text).value) == text
  {
    ShowRadix(text);
  }

  /** And every cell parses from how it prints. */
  lemma {:induction false} ParseShow(cell: U64)
    requires IsCell(cell)
    ensures Parse(Show(cell)) == Ok(cell)
  {
    Pow16At16();
    ShowLength(cell, 16);
    RadixShow(cell);
  }
}
