/** Cell identifiers bit by bit: which words are cells, what an ancestor's bits are,
    and that one cell contains another exactly when it begins it. */
module H3Bits {
  import opened Bits
  import opened Seqs
  import opened Wrappers
  import opened H3

  /** Three bits, the first highest, down to the lowest for resolution 15. */
  function Turn(bits: U64, r: nat): nat
    requires 1 <= r <= 15
  {
    bits / Pow8(15 - r) % 8
  }

  lemma {:induction false} TurnIsDigit(bits: U64, r: nat)
    requires 1 <= r <= 15
    ensures Turn(bits, r) == CellDigits(bits)[r - 1]
  {
    DigitIndex(bits, MAX_RESOLUTION, r - 1);
  }

  /** The first turn that is not straight on is not to the side a pentagon lacks. */
  ghost predicate TurnsAround(bits: U64, resolution: nat)
    requires resolution <= 15
  {
    forall r :: 1 <= r <= resolution && Turn(bits, r) == 1 ==> exists q :: 1 <= q < r && Turn(bits, q) != 0
  }

  /** At `i` is the first digit that is not nought, and it is `d`. */
  ghost predicate FirstAt(ds: seq<nat>, d: nat, i: int) {
    0 <= i < |ds| && ds[i] == d && d != 0 && forall j :: 0 <= j < i ==> ds[j] == 0
  }

  lemma {:induction false} LeadingIs(ds: seq<nat>, d: nat)
    ensures Leading(ds) == Some(d) <==> exists i :: FirstAt(ds, d, i)
    ensures Leading(ds).None? <==> forall i :: 0 <= i < |ds| ==> ds[i] == 0
    decreases |ds|
  {
    if ds != [] {
      LeadingIs(Init(ds), d);
      FirstAtLonger(ds, d);
    }
  }

  lemma {:induction false} FirstAtLonger(ds: seq<nat>, d: nat)
    requires ds != []
    ensures forall i :: i < |ds| - 1 ==> (FirstAt(ds, d, i) <==> FirstAt(Init(ds), d, i))
    ensures FirstAt(ds, d, |ds| - 1) <==> d != 0 && Last(ds) == d && forall j :: 0 <= j < |ds| - 1 ==> Init(ds)[j] == 0
    ensures (forall i :: 0 <= i < |ds| ==> ds[i] == 0) <==>
            Last(ds) == 0 && forall i :: 0 <= i < |ds| - 1 ==> Init(ds)[i] == 0
  {
    assert forall j :: 0 <= j < |ds| - 1 ==> Init(ds)[j] == ds[j];
    assert Last(ds) == ds[|ds| - 1];
  }

  lemma {:induction false} PentagonTurns(bits: U64, resolution: nat)
    requires resolution <= 15
    ensures Leading(CellDigits(bits)[..resolution]) == Some(1) <==> !TurnsAround(bits, resolution)
  {
    var ds := CellDigits(bits)[..resolution];
    LeadingIs(ds, 1);
    forall r | 1 <= r <= resolution ensures Turn(bits, r) == ds[r - 1] {
      TurnIsDigit(bits, r);
    }
    if Leading(ds) == Some(1) {
      var i :| FirstAt(ds, 1, i);
      assert Turn(bits, i + 1) == 1;
      forall q | 1 <= q < i + 1 ensures Turn(bits, q) == 0 {
        assert ds[q - 1] == 0;
      }
    }
    if !TurnsAround(bits, resolution) {
      var r :| 1 <= r <= resolution && Turn(bits, r) == 1 && forall q :: 1 <= q < r ==> Turn(bits, q) == 0;
      assert ds[r - 1] == 1;
      forall j | 0 <= j < r - 1 ensures ds[j] == 0 {
        assert Turn(bits, j + 1) == 0;
      }
      assert FirstAt(ds, 1, r - 1);
    }
  }

  /** Exactly which words are cells. */
  lemma {:induction false} CellExactly(bits: U64)
    ensures IsCell(bits) <==>
      var resolution, base := bits / 0x10_0000_0000_0000 % 16, bits / 0x2000_0000_0000 % 128;
      && bits / 0x100_0000_0000_0000 == 8
      && base < 122
      && (forall r :: 1 <= r <= 15 ==> (r <= resolution <==> Turn(bits, r) != 7))
      && (base in {4, 14, 24, 38, 49, 58, 63, 72, 83, 97, 107, 117} ==> TurnsAround(bits, resolution))
  {
    CellModeIsEight(bits);
    var ds := CellDigits(bits);
    forall r | 1 <= r <= 15 ensures Turn(bits, r) == ds[r - 1] {
      TurnIsDigit(bits, r);
    }
    assert (forall r :: 1 <= r <= 15 ==> (r <= Resolution(bits) <==> Turn(bits, r) != 7)) <==>
           (forall k :: 0 <= k < 15 ==> (k < Resolution(bits) <==> ds[k] != 7)) by {
      if forall r :: 1 <= r <= 15 ==> (r <= Resolution(bits) <==> Turn(bits, r) != 7) {
        forall k | 0 <= k < 15 ensures k < Resolution(bits) <==> ds[k] != 7 {
          assert Turn(bits, k + 1) == ds[k];
        }
      }
    }
    PentagonTurns(bits, Resolution(bits));
  }

  /** An ancestor keeps the mode, the base cell and the turns down to its own
      resolution, and has no more. */
  lemma {:induction false} ParentIs(cell: U64, resolution: nat)
    requires IsCell(cell)
    ensures resolution > cell / 0x10_0000_0000_0000 % 16 ==> ParentOf(cell, resolution) == None
    ensures resolution <= cell / 0x10_0000_0000_0000 % 16 ==>
      ParentOf(cell, resolution).Some? && var p := ParentOf(cell, resolution).value;
      && p / 0x100_0000_0000_0000 == 8 && p / 0x10_0000_0000_0000 % 16 == resolution
      && p / 0x2000_0000_0000 % 128 == cell / 0x2000_0000_0000 % 128
      && forall r :: 1 <= r <= 15 ==> Turn(p, r) == if r <= resolution then Turn(cell, r) else 7
  {
    if resolution <= Resolution(cell) {
      ParentFields(cell, resolution);
      var p := ParentOf(cell, resolution).value;
      CellModeIsEight(p);
      forall r | 1 <= r <= 15 ensures Turn(p, r) == if r <= resolution then Turn(cell, r) else 7 {
        TurnIsDigit(p, r);
        TurnIsDigit(cell, r);
      }
    }
  }

  /** A cell contains another exactly when it is no finer, in the same base cell, and
      the other begins with its turns. */
  lemma {:induction false} ContainsExactly(cell: U64, other: U64)
    requires IsCell(cell) && IsCell(other)
    ensures Contains(cell, other) <==>
      && cell / 0x10_0000_0000_0000 % 16 <= other / 0x10_0000_0000_0000 % 16
      && cell / 0x2000_0000_0000 % 128 == other / 0x2000_0000_0000 % 128
      && forall r :: 1 <= r <= cell / 0x10_0000_0000_0000 % 16 ==> Turn(cell, r) == Turn(other, r)
  {
    var n := Resolution(cell);
    if n <= Resolution(other) {
      ParentIs(other, n);
      var p := ParentOf(other, n).value;
      if Base(cell) == Base(other) && forall r :: 1 <= r <= n ==> Turn(cell, r) == Turn(other, r) {
        CellExactly(cell);
        SameFields(cell, p);
      }
      if p == cell {
        forall r | 1 <= r <= n ensures Turn(cell, r) == Turn(other, r) {
        }
      }
    }
  }

  lemma {:induction false} SameFields(a: U64, b: U64)
    requires a / 0x100_0000_0000_0000 == b / 0x100_0000_0000_0000
    requires Resolution(a) == Resolution(b) && Base(a) == Base(b)
    requires forall r :: 1 <= r <= 15 ==> Turn(a, r) == Turn(b, r)
    ensures a == b
  {
    FieldsWord(a);
    FieldsWord(b);
    forall k | 0 <= k < 15 ensures CellDigits(a)[k] == CellDigits(b)[k] {
      TurnIsDigit(a, k + 1);
      TurnIsDigit(b, k + 1);
      assert Turn(a, k + 1) == Turn(b, k + 1);
    }
    assert CellDigits(a) == CellDigits(b);
  }

  // ------------------------------------------------------------------------ text

  /** Digits to nine, then letters from a. */
  lemma {:induction false} HexIs(ch: char)
    ensures IsHex(ch) <==> '0' <= ch <= '9' || 'a' <= ch <= 'f'
    ensures '0' <= ch <= '9' ==> HexValue(ch) == ch as int - '0' as int
    ensures 'a' <= ch <= 'f' ==> HexValue(ch) == 10 + (ch as int - 'a' as int)
  {
  }

  /** Text is refused as such when it is empty, too long, begins with a nought or has
      any other character; otherwise it is read in base 16, and must be a cell. */
  lemma {:induction false} ParseIs(text: string)
    ensures Parse(text) == Err(NotHex) <==>
            text == "" || |text| > 16 || text[0] == '0' || exists i :: 0 <= i < |text| && !IsHex(text[i])
    ensures Parse(text).Ok? ==> Parse(text).value == Radix16(text)
    ensures Parse(text) == Err(NotACell) ==>
              CanonicalHex(text) && 0 <= Radix16(text) < 0x1_0000_0000_0000_0000 && !IsCell(Radix16(text))
  {
    if CanonicalHex(text) {
      Radix16Bound(text);
    }
  }
}
