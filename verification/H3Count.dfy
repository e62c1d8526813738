/** How many cells there are: every identifier of a resolution, listed once. */
module H3Count {
  import opened Bits
  import opened Seqs
  import opened Wrappers
  import opened H3

  function Pow7(n: nat): nat {
    if n == 0 then 1 else 7 * Pow7(n - 1)
  }

  /** Every way down `n` resolutions, from a pentagon or from a hexagon. */
  function Turns(n: nat, pentagon: bool): seq<seq<nat>>
    decreases n, 8
  {
    if n == 0 then [[]] else TurnsBelow(7, n, pentagon)
  }

  /** Those that begin with a digit below `m`. */
  function TurnsBelow(m: nat, n: nat, pentagon: bool): seq<seq<nat>>
    requires m <= 7 && n > 0
    decreases n, m
  {
    if m == 0 then []
    else TurnsBelow(m - 1, n, pentagon) + TurnsBy(m - 1, n, pentagon)
  }

  /** Straight on stays on the pentagon; a pentagon has no first direction. */
  function TurnsBy(d: nat, n: nat, pentagon: bool): seq<seq<nat>>
    requires n > 0
    decreases n, 0
  {
    if d == 0 then Prepend(0, Turns(n - 1, pentagon))
    else if d == 1 && pentagon then []
    else Prepend(d, Turns(n - 1, false))
  }

  lemma {:induction false} TurnsCount(n: nat)
    ensures |Turns(n, false)| == Pow7(n) && 6 * |Turns(n, true)| == 5 * Pow7(n) + 1
  {
    if n > 0 {
      TurnsCount(n - 1);
      SevenBlocks(n, false);
      SevenBlocks(n, true);
    }
  }

  lemma {:induction false} SevenBlocks(n: nat, pentagon: bool)
    requires n > 0
    ensures |TurnsBelow(7, n, pentagon)|
            == |TurnsBy(0, n, pentagon)| + |TurnsBy(1, n, pentagon)| + 5 * |Turns(n - 1, false)|
  {
    assert TurnsBelow(1, n, pentagon) == TurnsBelow(0, n, pentagon) + TurnsBy(0, n, pentagon);
    assert TurnsBelow(2, n, pentagon) == TurnsBelow(1, n, pentagon) + TurnsBy(1, n, pentagon);
    assert TurnsBelow(3, n, pentagon) == TurnsBelow(2, n, pentagon) + TurnsBy(2, n, pentagon);
    assert TurnsBelow(4, n, pentagon) == TurnsBelow(3, n, pentagon) + TurnsBy(3, n, pentagon);
    assert TurnsBelow(5, n, pentagon) == TurnsBelow(4, n, pentagon) + TurnsBy(4, n, pentagon);
    assert TurnsBelow(6, n, pentagon) == TurnsBelow(5, n, pentagon) + TurnsBy(5, n, pentagon);
    assert TurnsBelow(7, n, pentagon) == TurnsBelow(6, n, pentagon) + TurnsBy(6, n, pentagon);
  }

  lemma {:induction false} LeadingCons(d: nat, s: seq<nat>)
    ensures Leading([d] + s) == if d != 0 then Some(d) else Leading(s)
    decreases |s|
  {
    if s == [] {
      assert [d] + s == [d] && Init([d]) == [];
    } else {
      assert Init([d] + s) == [d] + Init(s);
      LeadingCons(d, Init(s));
    }
  }

  /** A way down a pentagon may not turn first in the direction it lacks. */
  predicate IsTurns(s: seq<nat>, n: nat, pentagon: bool) {
    |s| == n && (forall i :: 0 <= i < n ==> s[i] < 7) && !(pentagon && Leading(s) == Some(1))
  }

  lemma {:induction false} IsTurnsCons(d: nat, s: seq<nat>, n: nat, pentagon: bool)
    requires n > 0
    ensures IsTurns([d] + s, n, pentagon) <==>
      d < 7 && !(d == 1 && pentagon) && IsTurns(s, n - 1, pentagon && d == 0)
  {
    LeadingCons(d, s);
    if IsTurns([d] + s, n, pentagon) {
      forall i | 0 <= i < n - 1 ensures s[i] < 7 {
        assert ([d] + s)[i + 1] == s[i];
      }
      assert ([d] + s)[0] == d;
    }
  }

  /** Exactly the ways down are listed. */
  lemma {:induction false} TurnsExact(n: nat, pentagon: bool, s: seq<nat>)
    ensures s in Turns(n, pentagon) <==> IsTurns(s, n, pentagon)
    decreases n, 8
  {
    if n == 0 {
      assert Turns(0, pentagon)[0] == [];
    } else {
      TurnsBelowExact(7, n, pentagon, s);
      if IsTurns(s, n, pentagon) {
        assert s[0] < 7;
      }
    }
  }

  lemma {:induction false} TurnsBelowExact(m: nat, n: nat, pentagon: bool, s: seq<nat>)
    requires m <= 7 && n > 0
    ensures s in TurnsBelow(m, n, pentagon) <==> s != [] && s[0] < m && IsTurns(s, n, pentagon)
    decreases n, m
  {
    if m > 0 {
      TurnsBelowExact(m - 1, n, pentagon, s);
      TurnsByExact(m - 1, n, pentagon, s);
    }
  }

  lemma {:induction false} TurnsByExact(d: nat, n: nat, pentagon: bool, s: seq<nat>)
    requires d < 7 && n > 0
    ensures s in TurnsBy(d, n, pentagon) <==> s != [] && s[0] == d && IsTurns(s, n, pentagon)
    decreases n, 0
  {
    if s != [] {
      assert s == [s[0]] + s[1..];
      IsTurnsCons(s[0], s[1..], n, pentagon);
      TurnsExact(n - 1, pentagon, s[1..]);
      TurnsExact(n - 1, false, s[1..]);
      PrependHolds(d, Turns(n - 1, pentagon), s);
      PrependHolds(d, Turns(n - 1, false), s);
    } else {
      PrependHolds(d, Turns(n - 1, pentagon), s);
      PrependHolds(d, Turns(n - 1, false), s);
    }
  }

  lemma {:induction false} DistinctConcat<T>(a: seq<T>, b: seq<T>)
    requires Distinct(a) && Distinct(b) && forall x :: x in a ==> x !in b
    ensures Distinct(a + b)
  {
    forall i, j | 0 <= i < j < |a + b| ensures (a + b)[i] != (a + b)[j] {
      if i < |a| <= j {
        assert a[i] in a && b[j - |a|] in b;
      }
    }
  }

  lemma {:induction false} PrependDistinct(d: nat, turns: seq<seq<nat>>)
    requires Distinct(turns)
    ensures Distinct(Prepend(d, turns))
  {
    var r := Prepend(d, turns);
    forall i, j | 0 <= i < j < |r| ensures r[i] != r[j] {
      assert r[i][1..] == turns[i] && r[j][1..] == turns[j];
    }
  }

  lemma {:induction false} TurnsDistinct(n: nat, pentagon: bool)
    ensures Distinct(Turns(n, pentagon))
    decreases n, 8
  {
    if n > 0 {
      TurnsBelowDistinct(7, n, pentagon);
    }
  }

  lemma {:induction false} TurnsBelowDistinct(m: nat, n: nat, pentagon: bool)
    requires m <= 7 && n > 0
    ensures Distinct(TurnsBelow(m, n, pentagon))
    decreases n, m
  {
    if m > 0 {
      var a, b := TurnsBelow(m - 1, n, pentagon), TurnsBy(m - 1, n, pentagon);
      TurnsBelowDistinct(m - 1, n, pentagon);
      TurnsByDistinct(m - 1, n, pentagon);
      forall s | s in a ensures s !in b {
        TurnsBelowExact(m - 1, n, pentagon, s);
        TurnsByExact(m - 1, n, pentagon, s);
      }
      DistinctConcat(a, b);
    }
  }

  lemma {:induction false} TurnsByDistinct(d: nat, n: nat, pentagon: bool)
    requires n > 0
    ensures Distinct(TurnsBy(d, n, pentagon))
    decreases n, 0
  {
    TurnsDistinct(n - 1, pentagon);
    TurnsDistinct(n - 1, false);
    PrependDistinct(0, Turns(n - 1, pentagon));
    PrependDistinct(d, Turns(n - 1, false));
  }

  // ------------------------------------------------------------------------ cells

  /** The identifier reached from a base cell by these turns. */
  function CellAt(resolution: nat, base: nat, s: seq<nat>): nat {
    Word(8, resolution, base, s + Sevens(if resolution <= MAX_RESOLUTION then MAX_RESOLUTION - resolution else 0))
  }

  function CellsFrom(resolution: nat, base: nat): (r: seq<nat>)
    ensures |r| == |Turns(resolution, base in PENTAGONS)|
  {
    var turns := Turns(resolution, base in PENTAGONS);
    seq(|turns|, i requires 0 <= i < |turns| => CellAt(resolution, base, turns[i]))
  }

  lemma {:induction false} TurnsOctal(resolution: nat, pentagon: bool, s: seq<nat>)
    requires resolution <= MAX_RESOLUTION && IsTurns(s, resolution, pentagon)
    ensures var ds := s + Sevens(MAX_RESOLUTION - resolution); |ds| == MAX_RESOLUTION && Octal(ds)
  {
  }

  /** Such an identifier is a cell's, and its fields are what it was made of. */
  lemma {:induction false} CellAtIsCell(resolution: nat, base: nat, s: seq<nat>)
    requires resolution <= MAX_RESOLUTION && base < BASE_CELLS && IsTurns(s, resolution, base in PENTAGONS)
    ensures 0 <= CellAt(resolution, base, s) < 0x1_0000_0000_0000_0000
    ensures var w: U64 := CellAt(resolution, base, s);
      IsCell(w) && Resolution(w) == resolution && Base(w) == base && CellDigits(w)[..resolution] == s
  {
    var ds := s + Sevens(MAX_RESOLUTION - resolution);
    TurnsOctal(resolution, base in PENTAGONS, s);
    WordFields(8, resolution, base, ds);
    CellModeIsEight(CellAt(resolution, base, s));
    assert ds[..resolution] == s;
  }

  /** And every cell's is such an identifier. */
  lemma {:induction false} CellIsAt(w: U64)
    requires IsCell(w)
    ensures var s := CellDigits(w)[..Resolution(w)];
      IsTurns(s, Resolution(w), Base(w) in PENTAGONS) && w == CellAt(Resolution(w), Base(w), s)
  {
    FieldsWord(w);
    CellModeIsEight(w);
    var ds, resolution := CellDigits(w), Resolution(w);
    assert ds == ds[..resolution] + Sevens(MAX_RESOLUTION - resolution);
  }

  /** `w` is the identifier of a cell of this resolution on this base cell. */
  predicate CellOn(w: nat, resolution: nat, base: nat) {
    w < 0x1_0000_0000_0000_0000 && IsCell(w) && Resolution(w) == resolution && Base(w) == base
  }

  lemma {:induction false} CellsFromSound(resolution: nat, base: nat, w: nat)
    requires resolution <= MAX_RESOLUTION && base < BASE_CELLS && w in CellsFrom(resolution, base)
    ensures CellOn(w, resolution, base)
  {
    var turns := Turns(resolution, base in PENTAGONS);
    var i :| 0 <= i < |turns| && CellsFrom(resolution, base)[i] == w;
    TurnsExact(resolution, base in PENTAGONS, turns[i]);
    CellAtIsCell(resolution, base, turns[i]);
  }

  lemma {:induction false} CellsFromExact(resolution: nat, base: nat, w: nat)
    requires resolution <= MAX_RESOLUTION && base < BASE_CELLS
    ensures w in CellsFrom(resolution, base) <==> CellOn(w, resolution, base)
  {
    if CellOn(w, resolution, base) {
      CellIsAt(w);
      var turns, s := Turns(resolution, base in PENTAGONS), CellDigits(w)[..resolution];
      TurnsExact(resolution, base in PENTAGONS, s);
      var i :| 0 <= i < |turns| && turns[i] == s;
      assert CellsFrom(resolution, base)[i] == w;
    } else if w in CellsFrom(resolution, base) {
      CellsFromSound(resolution, base, w);
    }
  }

  lemma {:induction false} CellsFromDistinct(resolution: nat, base: nat)
    requires resolution <= MAX_RESOLUTION && base < BASE_CELLS
    ensures Distinct(CellsFrom(resolution, base))
  {
    var turns, cells := Turns(resolution, base in PENTAGONS), CellsFrom(resolution, base);
    TurnsDistinct(resolution, base in PENTAGONS);
    forall i, j | 0 <= i < j < |cells| ensures cells[i] != cells[j] {
      TurnsExact(resolution, base in PENTAGONS, turns[i]);
      TurnsExact(resolution, base in PENTAGONS, turns[j]);
      CellAtIsCell(resolution, base, turns[i]);
      CellAtIsCell(resolution, base, turns[j]);
    }
  }

  /** No cell is on two base cells. */
  lemma {:induction false} OneBase(resolution: nat, b: nat, c: nat, w: nat)
    requires resolution <= MAX_RESOLUTION && b < BASE_CELLS && c < BASE_CELLS
    requires w in CellsFrom(resolution, b) && w in CellsFrom(resolution, c)
    ensures b == c
  {
    CellsFromExact(resolution, b, w);
    CellsFromExact(resolution, c, w);
  }

  // --------------------------------------------------------------- block by block

  /** Lists one after another. */
  function Blocks(f: nat -> seq<nat>, m: nat): seq<nat>
    decreases m
  {
    if m == 0 then [] else Blocks(f, m - 1) + f(m - 1)
  }

  lemma {:induction false} BlocksHold(f: nat -> seq<nat>, m: nat, w: nat)
    ensures w in Blocks(f, m) <==> exists b: nat :: b < m && w in f(b)
    decreases m
  {
    if m > 0 {
      BlocksHold(f, m - 1, w);
      if w in f(m - 1) {
        assert m - 1 < m;
      }
    }
  }

  ghost predicate Apart(f: nat -> seq<nat>, m: nat) {
    forall b: nat, c: nat, w :: b < m && c < m && w in f(b) && w in f(c) ==> b == c
  }

  lemma {:induction false} BlocksDistinct(f: nat -> seq<nat>, m: nat)
    requires Apart(f, m) && forall b: nat :: b < m ==> Distinct(f(b))
    ensures Distinct(Blocks(f, m))
    decreases m
  {
    if m > 0 {
      BlocksDistinct(f, m - 1);
      var a, last := Blocks(f, m - 1), f(m - 1);
      forall w | w in a ensures w !in last {
        BlocksHold(f, m - 1, w);
      }
      DistinctConcat(a, last);
    }
  }

  function CountBelow(s: set<nat>, m: nat): (n: nat)
    ensures n <= m
    decreases m, s
  {
    if m == 0 then 0 else CountBelow(s, m - 1) + if m - 1 in s then 1 else 0
  }

  lemma {:induction false} NoneBetween(s: set<nat>, a: nat, b: nat)
    requires a <= b && forall k :: a <= k < b ==> k !in s
    ensures CountBelow(s, b) == CountBelow(s, a)
    decreases b
  {
    if a < b {
      NoneBetween(s, a, b - 1);
    }
  }

  lemma {:induction false} NextOne(s: set<nat>, a: nat, p: nat)
    requires a <= p && p in s && forall k :: a <= k < p ==> k !in s
    ensures CountBelow(s, p + 1) == CountBelow(s, a) + 1
  {
    NoneBetween(s, a, p);
  }

  lemma {:induction false} ThreePentagons()
    ensures CountBelow(PENTAGONS, 25) == 3
  {
    NextOne(PENTAGONS, 0, 4);
    NextOne(PENTAGONS, 5, 14);
    NextOne(PENTAGONS, 15, 24);
  }

  lemma {:induction false} SixPentagons()
    ensures CountBelow(PENTAGONS, 59) == 6
  {
    ThreePentagons();
    NextOne(PENTAGONS, 25, 38);
    NextOne(PENTAGONS, 39, 49);
    NextOne(PENTAGONS, 50, 58);
  }

  lemma {:induction false} NinePentagons()
    ensures CountBelow(PENTAGONS, 84) == 9
  {
    SixPentagons();
    NextOne(PENTAGONS, 59, 63);
    NextOne(PENTAGONS, 64, 72);
    NextOne(PENTAGONS, 73, 83);
  }

  lemma {:induction false} TwelvePentagons()
    ensures CountBelow(PENTAGONS, BASE_CELLS) == 12
  {
    NinePentagons();
    NextOne(PENTAGONS, 84, 97);
    NextOne(PENTAGONS, 98, 107);
    NextOne(PENTAGONS, 108, 117);
    NoneBetween(PENTAGONS, 118, BASE_CELLS);
  }

  lemma {:induction false} BlocksCount(f: nat -> seq<nat>, m: nat, s: set<nat>, inside: nat, outside: nat)
    requires forall b: nat :: b < m ==> |f(b)| == if b in s then inside else outside
    ensures |Blocks(f, m)| == (m - CountBelow(s, m)) * outside + CountBelow(s, m) * inside
    decreases m
  {
    if m > 0 {
      BlocksCount(f, m - 1, s, inside, outside);
      OneMore(m - 1 - CountBelow(s, m - 1), outside);
      OneMore(CountBelow(s, m - 1), inside);
    }
  }

  lemma {:induction false} OneMore(n: int, x: nat)
    ensures (n + 1) * x == n * x + x
  {
  }

  function Listed(resolution: nat): nat -> seq<nat> {
    b => CellsFrom(resolution, b)
  }

  lemma {:induction false} CountIs(resolution: nat, m: nat)
    requires m == BASE_CELLS
    ensures |Blocks(Listed(resolution), m)| == 2 + 120 * Pow7(resolution)
  {
    TurnsCount(resolution);
    TwelvePentagons();
    BlocksCount(Listed(resolution), m, PENTAGONS, |Turns(resolution, true)|, |Turns(resolution, false)|);
  }

  lemma {:induction false} ListedOnce(resolution: nat, m: nat)
    requires m == BASE_CELLS && resolution <= MAX_RESOLUTION
    ensures Distinct(Blocks(Listed(resolution), m))
  {
    forall b: nat | b < m ensures Distinct(Listed(resolution)(b)) {
      CellsFromDistinct(resolution, b);
    }
    forall b: nat, c: nat, w | b < m && c < m && w in Listed(resolution)(b) && w in Listed(resolution)(c)
      ensures b == c
    {
      OneBase(resolution, b, c, w);
    }
    BlocksDistinct(Listed(resolution), m);
  }

  lemma {:induction false} ListedExactly(resolution: nat, m: nat, w: nat)
    requires m == BASE_CELLS && resolution <= MAX_RESOLUTION
    ensures w in Blocks(Listed(resolution), m) <==>
      w < 0x1_0000_0000_0000_0000 && IsCell(w) && Resolution(w) == resolution
  {
    BlocksHold(Listed(resolution), m, w);
    if b: nat :| b < m && w in Listed(resolution)(b) {
      CellsFromExact(resolution, b, w);
    }
    if w < 0x1_0000_0000_0000_0000 && IsCell(w) && Resolution(w) == resolution {
      CellsFromExact(resolution, Base(w), w);
      assert w in Listed(resolution)(Base(w));
    }
  }

  lemma {:induction false} AllCells(resolution: nat, m: nat) returns (cells: seq<nat>)
    requires m == BASE_CELLS && resolution <= MAX_RESOLUTION
    ensures Distinct(cells) && |cells| == 2 + 120 * Pow7(resolution)
    ensures forall w: nat :: w in cells <==> w < 0x1_0000_0000_0000_0000 && IsCell(w) && Resolution(w) == resolution
  {
    CountIs(resolution, m);
    ListedOnce(resolution, m);
    cells := Blocks(Listed(resolution), m);
    forall w: nat
      ensures w in cells <==> w < 0x1_0000_0000_0000_0000 && IsCell(w) && Resolution(w) == resolution
    {
      ListedExactly(resolution, m, w);
    }
  }

  /** At each resolution there are two cells and 120 times a power of seven more:
      some listing holds exactly those identifiers, each once. */
  lemma {:induction false} CellCount(resolution: nat) returns (cells: seq<nat>)
    requires resolution <= MAX_RESOLUTION
    ensures Distinct(cells) && |cells| == 2 + 120 * Pow7(resolution)
    ensures forall w: nat :: w in cells <==> w < 0x1_0000_0000_0000_0000 && IsCell(w) && Resolution(w) == resolution
  {
    cells := AllCells(resolution, BASE_CELLS);
  }
}
