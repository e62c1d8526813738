/** Content identifiers as text: lower-case base 32 without padding, RFC 4648
    section 6, through a 32-bit accumulator that drops its high bits. */
module Cid {
  import opened Bits
  import opened Hashing
  import opened Seqs
  import opened Wrappers

  type U32 = x: int | 0 <= x < 0x1_0000_0000

  const ALPHABET: string := "abcdefghijklmnopqrstuvwxyz234567"

  datatype DigestError = UpperCase | Padded | NotBase32 | NonZeroTail

  function CharValue(ch: char): (r: Result<nat, DigestError>)
    ensures r.Ok? ==> r.value < 32
  {
    if 'a' <= ch <= 'z' then Ok(ch as int - 'a' as int)
    else if '2' <= ch <= '7' then Ok(ch as int - '2' as int + 26)
    else if 'A' <= ch <= 'Z' then Err(UpperCase)
    else if ch == '=' then Err(Padded)
    else Err(NotBase32)
  }

  /** The alphabet and the decoder agree. */
  lemma {:induction false} LetterValue(v: nat)
    requires v < 32
    ensures CharValue(ALPHABET[v]) == Ok(v)
  {
    if v < 8 {
      assert ALPHABET[0] == 'a' && ALPHABET[1] == 'b' && ALPHABET[2] == 'c' && ALPHABET[3] == 'd';
      assert ALPHABET[4] == 'e' && ALPHABET[5] == 'f' && ALPHABET[6] == 'g' && ALPHABET[7] == 'h';
    } else if v < 16 {
      assert ALPHABET[8] == 'i' && ALPHABET[9] == 'j' && ALPHABET[10] == 'k' && ALPHABET[11] == 'l';
      assert ALPHABET[12] == 'm' && ALPHABET[13] == 'n' && ALPHABET[14] == 'o' && ALPHABET[15] == 'p';
    } else if v < 24 {
      assert ALPHABET[16] == 'q' && ALPHABET[17] == 'r' && ALPHABET[18] == 's' && ALPHABET[19] == 't';
      assert ALPHABET[20] == 'u' && ALPHABET[21] == 'v' && ALPHABET[22] == 'w' && ALPHABET[23] == 'x';
    } else {
      assert ALPHABET[24] == 'y' && ALPHABET[25] == 'z' && ALPHABET[26] == '2' && ALPHABET[27] == '3';
      assert ALPHABET[28] == '4' && ALPHABET[29] == '5' && ALPHABET[30] == '6' && ALPHABET[31] == '7';
    }
  }

  lemma {:induction false} ValueLetter(ch: char)
    requires CharValue(ch).Ok?
    ensures ALPHABET[CharValue(ch).value] == ch
  {
    LetterValue(CharValue(ch).value);
  }

  // ------------------------------------------------------------------ bit strings

  /** Digits to a byte, and to a character. */
  const OCTET: nat := 8
  const GROUP: nat := 5

  type Digit = d: int | 0 <= d < 2

  /** The low `k` binary digits of `x`, highest first. */
  function Digits(x: nat, k: nat): (r: seq<Digit>)
    ensures |r| == k
    decreases k, x
  {
    if k == 0 then [] else Digits(x / 2, k - 1) + [x % 2]
  }

  function Value(s: seq<Digit>): (v: nat)
    ensures v < Pow2(|s|)
    decreases |s|
  {
    if s == [] then 0 else 2 * Value(Init(s)) + Last(s)
  }

  lemma {:induction false} DigitsValue(x: nat, k: nat)
    requires x < Pow2(k)
    ensures Value(Digits(x, k)) == x
    decreases k
  {
    if k > 0 {
      DigitsValue(x / 2, k - 1);
      Snoc(Digits(x / 2, k - 1), x % 2);
    }
  }

  lemma {:induction false} ValueDigits(s: seq<Digit>)
    ensures Digits(Value(s), |s|) == s
    decreases |s|
  {
    if s != [] {
      ValueDigits(Init(s));
      Unsnoc(s);
    }
  }

  /** Digits written one group after another. */
  function Flat(xs: seq<nat>, k: nat): (r: seq<Digit>)
    ensures |r| == |xs| * k
    decreases |xs|
  {
    if xs == [] then []
    else
      GroupLength(|xs|, k);
      Flat(Init(xs), k) + Digits(Last(xs), k)
  }

  lemma {:induction false} GroupLength(n: nat, k: nat)
    requires n > 0
    ensures n * k == (n - 1) * k + k
  {
  }

  lemma {:induction false} ValueConcat(a: seq<Digit>, b: seq<Digit>)
    ensures Value(a + b) == Value(a) * Pow2(|b|) + Value(b)
    decreases |b|
  {
    if b == [] {
      assert a + b == a;
    } else {
      assert Init(a + b) == a + Init(b) && Last(a + b) == Last(b);
      ValueConcat(a, Init(b));
      OneMore(Value(a), Pow2(|b| - 1), Value(Init(b)), Last(b));
    }
  }

  lemma {:induction false} OneMore(x: nat, p: nat, y: nat, d: nat)
    ensures 2 * (x * p + y) + d == x * (2 * p) + (2 * y + d)
  {
  }

  function Zeros(n: nat): (r: seq<Digit>)
    ensures |r| == n
  {
    seq(n, _ => 0)
  }

  lemma {:induction false} ZeroValue(s: seq<Digit>)
    ensures Value(s) == 0 <==> s == Zeros(|s|)
    decreases |s|
  {
    if s != [] {
      ZeroValue(Init(s));
      if Value(s) == 0 {
        assert s == Init(s) + [0] == Zeros(|s| - 1) + [0];
        assert s == Zeros(|s|);
      }
      if s == Zeros(|s|) {
        assert Init(s) == Zeros(|s| - 1);
      }
    }
  }

  // --------------------------------------------------------------- the accumulator

  /** `(acc << k) | x`, in 32 bits. */
  function ShiftIn(acc: U32, k: nat, x: nat): U32
    requires k <= 8 && x < Pow2(k)
  {
    ShiftFits(acc, k, x);
    acc * Pow2(k) % 0x1_0000_0000 + x
  }

  /** A shift keeps what lies below 2^32, a multiple of 2^k. */
  lemma {:induction false} ShiftFits(acc: U32, k: nat, x: nat)
    requires k <= 8 && x < Pow2(k)
    ensures acc * Pow2(k) % 0x1_0000_0000 + x < 0x1_0000_0000
  {
    Pow2To32(k);
    var t, s := acc * Pow2(k) / 0x1_0000_0000, acc * Pow2(k) % 0x1_0000_0000;
    ShiftBelow(acc, Pow2(k), Pow2(32 - k), x, t, s);
  }

  lemma {:induction false} ShiftBelow(acc: nat, c: nat, w: nat, x: nat, t: int, s: nat)
    requires c > 0 && c * w == 0x1_0000_0000 && acc * c == 0x1_0000_0000 * t + s && s < 0x1_0000_0000 && x < c
    ensures s + x < 0x1_0000_0000
  {
    Factor(c, w, t, acc);
    Multiple(c, acc - w * t, w);
  }

  lemma {:induction false} Factor(c: int, w: int, t: int, acc: int)
    ensures acc * c - (c * w) * t == c * (acc - w * t)
  {
    assert (c * w) * t == c * (w * t);
  }

  lemma {:induction false} Multiple(c: nat, y: int, z: int)
    requires c > 0 && c * y < c * z
    ensures c * y + c <= c * z
  {
    assert c * (z - y) == c * z - c * y;
    MulAtLeast(c, z - y);
    AtLeast(c, z - y);
  }

  /** What is left of a product modulo 2^32, of which `p * c` is a factor. */
  lemma {:induction false} ShiftSplits(
      acc: nat, p: nat, c: nat, w: nat, v: nat, x: nat, q: int, t: int, s: nat) returns (e: int)
    requires p * c * w == 0x1_0000_0000 && acc == p * q + v && acc * c == 0x1_0000_0000 * t + s
    ensures s + x == (p * c) * e + (v * c + x)
  {
    e := q - w * t;
    assert (p * q + v) * c == (p * c) * q + v * c;
    Factor(p * c, w, t, q);
    assert q * (p * c) == (p * c) * q;
  }

  lemma {:induction false} LowFits(p: nat, c: nat, v: nat, x: nat)
    requires v < p && x < c
    ensures v * c + x < p * c
  {
    assert p * c == (p - v) * c + v * c;
    AtLeast(c, p - v);
  }

  lemma {:induction false} AtLeast(c: nat, n: int)
    requires n >= 1
    ensures c * n >= c && n * c >= c
  {
  }

  lemma {:induction false} Pow2Is32()
    ensures Pow2(32) == 0x1_0000_0000
  {
    assert Pow2(4) == 16;
    Pow2Add(4, 4);
    Pow2Add(8, 8);
    Pow2Add(16, 16);
  }

  lemma {:induction false} Pow2To32(n: nat)
    requires n <= 32
    ensures Pow2(n) * Pow2(32 - n) == 0x1_0000_0000
  {
    Pow2Is32();
    Pow2Add(n, 32 - n);
  }

  /** `acc & ((1 << n) - 1)`. */
  function Low(acc: U32, n: nat): nat {
    acc % Pow2(n)
  }

  /** The low digits of an accumulator shift up, whatever falls off its top. */
  lemma {:induction false} ShiftInLow(acc: U32, k: nat, x: nat, b: nat, v: nat)
    requires k <= 8 && b <= 8 && x < Pow2(k) && Low(acc, b) == v
    ensures Low(ShiftIn(acc, k, x), b + k) == v * Pow2(k) + x
  {
    Pow2Add(b, k);
    Pow2To32(b + k);
    ShiftLow(acc, Pow2(b), Pow2(k), Pow2(b + k), Pow2(32 - (b + k)), v, x);
  }

  lemma {:induction false} ShiftLow(acc: nat, p: nat, c: nat, d: nat, w: nat, v: nat, x: nat)
    requires p > 0 && d > 0 && d == p * c && d * w == 0x1_0000_0000 && acc % p == v && x < c
    ensures (acc * c % 0x1_0000_0000 + x) % d == v * c + x
  {
    var t, s := acc * c / 0x1_0000_0000, acc * c % 0x1_0000_0000;
    var e := ShiftSplits(acc, p, c, w, v, x, acc / p, t, s);
    LowFits(p, c, v, x);
    QuotientIs(s + x, d, e, v * c + x);
  }

  /** Above the low digits sits the next group. */
  lemma {:induction false} TakeOut(acc: U32, b: nat, k: nat, hi: nat, lo: nat)
    requires hi < Pow2(k) && lo < Pow2(b) && Low(acc, b + k) == hi * Pow2(b) + lo
    ensures acc / Pow2(b) % Pow2(k) == hi && Low(acc, b) == lo
  {
    Pow2Add(b, k);
    TakeArith(acc, Pow2(b), Pow2(k), Pow2(b + k), hi, lo);
  }

  lemma {:induction false} TakeArith(acc: nat, p: nat, c: nat, d: nat, hi: nat, lo: nat)
    requires d > 0 && d == p * c && hi < c && lo < p && acc % d == hi * p + lo
    ensures acc / p % c == hi && acc % p == lo
  {
    var q := acc / d;
    assert acc == d * q + (hi * p + lo);
    Nest(p, c, q, hi);
    QuotientIs(acc, p, c * q + hi, lo);
    QuotientIs(c * q + hi, c, q, hi);
  }

  lemma {:induction false} Nest(p: int, c: int, q: int, hi: int)
    ensures p * c * q + hi * p == p * (c * q + hi)
  {
  }

  // -------------------------------------------------------------------- encoding

  /** `(acc >> s) & 0x1f`. */
  function LowFive(acc: U32, s: nat): (r: nat)
    ensures r < |ALPHABET|
  {
    acc / Pow2(s) % 32
  }

  /** Groups of five digits, the last one filled up with zeros. */
  function Symbols(bits: seq<Digit>): (r: seq<nat>)
    ensures forall i :: 0 <= i < |r| ==> r[i] < 32
    decreases |bits|
  {
    SmallPowers();
    if bits == [] then []
    else if |bits| < 5 then [Value(bits + Zeros(5 - |bits|))]
    else [Value(bits[..5])] + Symbols(bits[5..])
  }

  lemma {:induction false} SmallPowers()
    ensures Pow2(5) == 32 && Pow2(8) == 256
  {
    assert Pow2(3) == 8;
    assert Pow2(6) == 64;
  }

  function Spell(vs: seq<nat>): (r: string)
    requires forall i :: 0 <= i < |vs| ==> vs[i] < 32
    ensures |r| == |vs|
  {
    seq(|vs|, i requires 0 <= i < |vs| => ALPHABET[vs[i]])
  }

  /** A byte string as digits. */
  function Stream(data: Bytes): (r: seq<Digit>)
    ensures |r| == 8 * |data|
  {
    Flat(data, OCTET)
  }

  lemma {:induction false} StreamNext(data: Bytes, i: nat)
    requires i < |data|
    ensures Stream(data[..i + 1]) == Stream(data[..i]) + Digits(data[i], OCTET)
  {
    assert Init(data[..i + 1]) == data[..i];
  }

  function Encode(data: Bytes): string {
    Spell(Symbols(Stream(data)))
  }

  lemma {:induction false} SymbolsAppend(a: seq<Digit>, b: seq<Digit>)
    requires |a| % 5 == 0
    ensures Symbols(a + b) == Symbols(a) + Symbols(b)
    decreases |a|
  {
    if a == [] {
      assert a + b == b;
    } else {
      assert (a + b)[..5] == a[..5] && (a + b)[5..] == a[5..] + b;
      SymbolsAppend(a[5..], b);
    }
  }

  /** So far, whole groups are spelt and the rest is in the accumulator. */
  ghost predicate Encoding(done: seq<Digit>, out: string, acc: U32, bits: nat) {
    && bits <= 12 && |done| == 5 * |out| + bits
    && out == Spell(Symbols(done[..5 * |out|]))
    && Low(acc, bits) == Value(done[5 * |out|..])
  }

  lemma {:induction false} EncodingIn(done: seq<Digit>, out: string, acc: U32, bits: nat, byte: Byte)
    requires bits < 5 && Encoding(done, out, acc, bits)
    ensures byte < Pow2(8) && Encoding(done + Digits(byte, OCTET), out, ShiftIn(acc, 8, byte), bits + 8)
  {
    SmallPowers();
    var pending := done[5 * |out|..];
    ShiftInLow(acc, 8, byte, bits, Value(pending));
    ValueConcat(pending, Digits(byte, OCTET));
    DigitsValue(byte, OCTET);
    assert (done + Digits(byte, OCTET))[5 * |out|..] == pending + Digits(byte, OCTET);
    assert (done + Digits(byte, OCTET))[..5 * |out|] == done[..5 * |out|];
  }

  lemma {:induction false} EncodingOut(done: seq<Digit>, out: string, acc: U32, bits: nat)
    requires bits >= 5 && Encoding(done, out, acc, bits)
    ensures Encoding(done, out + [ALPHABET[LowFive(acc, bits - 5)]], acc, bits - 5)
  {
    SmallPowers();
    var n := 5 * |out|;
    var group, rest := done[n..n + 5], done[n + 5..];
    assert done[n..] == group + rest;
    ValueConcat(group, rest);
    TakeOut(acc, bits - 5, 5, Value(group), Value(rest));
    assert done[..n + 5] == done[..n] + group;
    SymbolsAppend(done[..n], group);
    assert group[..5] == group && group[5..] == [];
    assert Symbols(group) == [Value(group)];
    assert out + [ALPHABET[Value(group)]] == Spell(Symbols(done[..n]) + [Value(group)]);
  }

  lemma {:induction false} LastSymbol(rest: seq<Digit>, acc: U32, bits: nat)
    requires 0 < bits < 5 && |rest| == bits && Low(acc, bits) == Value(rest)
    ensures Symbols(rest) == [LowFive(ShiftIn(acc, 5 - bits, 0), 0)]
  {
    SmallPowers();
    ShiftInLow(acc, 5 - bits, 0, bits, Value(rest));
    ValueConcat(rest, Zeros(5 - bits));
    ZeroValue(Zeros(5 - bits));
  }

  lemma {:induction false} EncodingEnds(done: seq<Digit>, out: string, acc: U32, bits: nat)
    requires bits < 5 && Encoding(done, out, acc, bits)
    ensures bits == 0 ==> out == Spell(Symbols(done))
    ensures bits > 0 ==> out + [ALPHABET[LowFive(ShiftIn(acc, 5 - bits, 0), 0)]] == Spell(Symbols(done))
  {
    var n := 5 * |out|;
    var rest := done[n..];
    assert done == done[..n] + rest;
    if bits > 0 {
      SymbolsAppend(done[..n], rest);
      LastSymbol(rest, acc, bits);
    } else {
      assert done[..n] == done;
    }
  }

  method Base32Lower(data: Bytes) returns (out: string)
    ensures out == Encode(data)
  {
    out := "";
    var acc: U32 := 0;
    var bits := 0;
    ghost var done: seq<Digit> := [];
    for i := 0 to |data|
      invariant done == Stream(data[..i])
      invariant bits < 5 && Encoding(done, out, acc, bits)
    {
      StreamNext(data, i);
      EncodingIn(done, out, acc, bits, data[i]);
      acc := ShiftIn(acc, 8, data[i]);
      bits := bits + 8;
      done := done + Digits(data[i], OCTET);
      while bits >= 5
        invariant Encoding(done, out, acc, bits)
      {
        EncodingOut(done, out, acc, bits);
        bits := bits - 5;
        out := out + [ALPHABET[LowFive(acc, bits)]];
      }
    }
    assert data[..|data|] == data;
    EncodingEnds(done, out, acc, bits);
    if bits > 0 {
      out := out + [ALPHABET[LowFive(ShiftIn(acc, 5 - bits, 0), 0)]];
    }
  }

  // -------------------------------------------------------------------- decoding

  /** What each character stands for, or the first that stands for nothing. */
  function Values(text: string): (r: Result<seq<nat>, DigestError>)
    ensures r.Ok? ==> |r.value| == |text| && forall i :: 0 <= i < |r.value| ==> r.value[i] < 32
    decreases |text|
  {
    if text == [] then Ok([])
    else
      match Values(Init(text))
      case Err(e) => Err(e)
      case Ok(vs) =>
        match CharValue(Last(text))
        case Err(e) => Err(e)
        case Ok(v) => Ok(vs + [v])
  }

  /** Whole groups of eight digits. */
  function Octets(bits: seq<Digit>): (r: Bytes)
    ensures |r| == |bits| / 8
    decreases |bits|
  {
    SmallPowers();
    if |bits| < 8 then [] else [Value(bits[..8])] + Octets(bits[8..])
  }

  /** The digits after the last whole group. */
  function Tail(bits: seq<Digit>): (r: seq<Digit>)
    ensures |r| == |bits| % 8
  {
    bits[|bits| / 8 * 8..]
  }

  function Decode(text: string): Result<Bytes, DigestError> {
    match Values(text)
    case Err(e) => Err(e)
    case Ok(vs) =>
      var bits := Flat(vs, GROUP);
      if Value(Tail(bits)) == 0 then Ok(Octets(bits)) else Err(NonZeroTail)
  }

  lemma {:induction false} OctetsFirst(group: seq<Digit>, rest: seq<Digit>)
    requires |group| == 8
    ensures Octets(group + rest) == [Value(group)] + Octets(rest) && Tail(group + rest) == Tail(rest)
  {
    assert (group + rest)[..8] == group && (group + rest)[8..] == rest;
    assert |group + rest| / 8 == |rest| / 8 + 1;
  }

  lemma {:induction false} OctetsAppend(a: seq<Digit>, b: seq<Digit>)
    requires |a| % 8 == 0
    ensures Octets(a + b) == Octets(a) + Octets(b)
    decreases |a|
  {
    if a == [] {
      assert a + b == b;
    } else {
      var group, rest := a[..8], a[8..];
      assert a == group + rest && a + b == group + (rest + b);
      OctetsFirst(group, rest);
      OctetsFirst(group, rest + b);
      OctetsAppend(rest, b);
    }
  }

  /** So far, whole bytes are out and the rest is in the accumulator. */
  ghost predicate Decoding(done: seq<Digit>, out: Bytes, acc: U32, bits: nat) {
    && bits <= 12 && |done| == 8 * |out| + bits
    && out == Octets(done[..8 * |out|])
    && Low(acc, bits) == Value(done[8 * |out|..])
  }

  lemma {:induction false} DecodingIn(done: seq<Digit>, out: Bytes, acc: U32, bits: nat, v: nat)
    requires bits < 8 && v < 32 && Decoding(done, out, acc, bits)
    ensures v < Pow2(5) && Decoding(done + Digits(v, GROUP), out, ShiftIn(acc, 5, v), bits + 5)
  {
    SmallPowers();
    var pending := done[8 * |out|..];
    ShiftInLow(acc, 5, v, bits, Value(pending));
    ValueConcat(pending, Digits(v, GROUP));
    DigitsValue(v, GROUP);
    assert (done + Digits(v, GROUP))[8 * |out|..] == pending + Digits(v, GROUP);
    assert (done + Digits(v, GROUP))[..8 * |out|] == done[..8 * |out|];
  }

  /** `(acc >> s) & 0xff`. */
  function LowEight(acc: U32, s: nat): Byte {
    acc / Pow2(s) % 256
  }

  lemma {:induction false} DecodingOut(done: seq<Digit>, out: Bytes, acc: U32, bits: nat)
    requires bits >= 8 && Decoding(done, out, acc, bits)
    ensures Decoding(done, out + [LowEight(acc, bits - 8)], acc, bits - 8)
  {
    SmallPowers();
    var n := 8 * |out|;
    var group, rest := done[n..n + 8], done[n + 8..];
    assert done[n..] == group + rest;
    ValueConcat(group, rest);
    TakeOut(acc, bits - 8, 8, Value(group), Value(rest));
    assert done[..n + 8] == done[..n] + group;
    OctetsAppend(done[..n], group);
    assert group[..8] == group && group[8..] == [];
    assert Octets(group) == [Value(group)];
  }

  lemma {:induction false} DecodingEnds(done: seq<Digit>, out: Bytes, acc: U32, bits: nat)
    requires bits < 8 && Decoding(done, out, acc, bits)
    ensures out == Octets(done) && Low(acc, bits) == Value(Tail(done))
  {
    var n := 8 * |out|;
    assert done == done[..n] + done[n..];
    OctetsAppend(done[..n], done[n..]);
    assert |done| / 8 * 8 == n;
  }

  lemma {:induction false} ValuesFailEarly(text: string, i: nat)
    requires i <= |text| && Values(text[..i]).Err?
    ensures Values(text) == Values(text[..i])
    decreases |text|
  {
    if i == |text| {
      assert text[..i] == text;
    } else {
      assert Init(text)[..i] == text[..i];
      ValuesFailEarly(Init(text), i);
    }
  }

  /** One character more. */
  lemma {:induction false} ValuesNext(text: string, i: nat, vs: seq<nat>)
    requires i < |text| && Values(text[..i]) == Ok(vs)
    ensures match CharValue(text[i])
            case Ok(v) => Values(text[..i + 1]) == Ok(vs + [v])
              && Flat(vs + [v], GROUP) == Flat(vs, GROUP) + Digits(v, GROUP)
            case Err(e) => Values(text) == Err(e)
  {
    assert Init(text[..i + 1]) == text[..i];
    match CharValue(text[i])
    case Ok(v) => Snoc(vs, v);
    case Err(e) => ValuesFailEarly(text, i + 1);
  }

  method Base32LowerDecode(text: string) returns (r: Result<Bytes, DigestError>)
    ensures r == Decode(text)
  {
    var out: Bytes := [];
    var acc: U32 := 0;
    var bits := 0;
    ghost var vs: seq<nat>, done: seq<Digit> := [], [];
    for i := 0 to |text|
      invariant Values(text[..i]) == Ok(vs)
      invariant done == Flat(vs, GROUP)
      invariant bits < 8 && Decoding(done, out, acc, bits)
    {
      ValuesNext(text, i, vs);
      var value := CharValue(text[i]);
      if value.Err? {
        return Err(value.error);
      }
      DecodingIn(done, out, acc, bits, value.value);
      acc := ShiftIn(acc, 5, value.value);
      bits := bits + 5;
      vs := vs + [value.value];
      done := done + Digits(value.value, GROUP);
      if bits >= 8 {
        DecodingOut(done, out, acc, bits);
        bits := bits - 8;
        out := out + [LowEight(acc, bits)];
      }
    }
    assert text[..|text|] == text;
    DecodingEnds(done, out, acc, bits);
    if Low(acc, bits) != 0 {
      return Err(NonZeroTail);
    }
    r := Ok(out);
  }

  // ------------------------------------------------------------------ round trips

  lemma {:induction false} FlatCons(x: nat, xs: seq<nat>, k: nat)
    ensures Flat([x] + xs, k) == Digits(x, k) + Flat(xs, k)
    decreases |xs|
  {
    if xs == [] {
      assert Init([x]) == [] && [x] + xs == [x];
    } else {
      assert Init([x] + xs) == [x] + Init(xs);
      FlatCons(x, Init(xs), k);
    }
  }

  /** How many zeros fill up the last group of five. */
  function Padding(n: nat): nat {
    (5 - n % 5) % 5
  }

  /** Read back, symbols are the digits they were made of, filled up. */
  lemma {:induction false} SymbolsFlat(bits: seq<Digit>)
    ensures Flat(Symbols(bits), GROUP) == bits + Zeros(Padding(|bits|))
    decreases |bits|
  {
    if |bits| < 5 {
      ShortSymbols(bits);
    } else {
      var group, rest := bits[..5], bits[5..];
      assert bits == group + rest;
      SymbolsFlat(rest);
      PaddingAgain(|rest|);
      SymbolsStep(group, rest, Zeros(Padding(|rest|)));
    }
  }

  lemma {:induction false} PaddingAgain(n: nat)
    ensures Padding(n + 5) == Padding(n)
  {
  }

  lemma {:induction false} ShortSymbols(bits: seq<Digit>)
    requires |bits| < 5
    ensures Flat(Symbols(bits), GROUP) == bits + Zeros(Padding(|bits|))
  {
    if bits != [] {
      var filled := bits + Zeros(5 - |bits|);
      assert Padding(|bits|) == 5 - |bits|;
      OneSymbol(filled, Value(filled));
    }
  }

  lemma {:induction false} OneSymbol(filled: seq<Digit>, v: nat)
    requires |filled| == 5 && v == Value(filled)
    ensures Flat([v], GROUP) == filled
  {
    ValueDigits(filled);
    FlatCons(v, [], GROUP);
    assert [v] + [] == [v];
  }

  lemma {:induction false} SymbolsStep(group: seq<Digit>, rest: seq<Digit>, z: seq<Digit>)
    requires |group| == 5 && Flat(Symbols(rest), GROUP) == rest + z
    ensures Flat(Symbols(group + rest), GROUP) == group + rest + z
  {
    assert (group + rest)[..5] == group && (group + rest)[5..] == rest;
    FlatCons(Value(group), Symbols(rest), GROUP);
    ValueDigits(group);
    Regroup(group, rest, z);
  }

  lemma {:induction false} SpellValues(vs: seq<nat>)
    requires forall i :: 0 <= i < |vs| ==> vs[i] < 32
    ensures Values(Spell(vs)) == Ok(vs)
    decreases |vs|
  {
    if vs != [] {
      assert Init(Spell(vs)) == Spell(Init(vs));
      SpellValues(Init(vs));
      LetterValue(Last(vs));
      Unsnoc(vs);
    }
  }

  lemma {:induction false} ValuesSpell(text: string)
    requires Values(text).Ok?
    ensures Spell(Values(text).value) == text
    decreases |text|
  {
    if text != [] {
      ValuesSpell(Init(text));
      ValueLetter(Last(text));
      Unsnoc(text);
    }
  }

  lemma {:induction false} StreamFirst(x: Byte, rest: Bytes)
    ensures Stream([x] + rest) == Digits(x, OCTET) + Stream(rest) && Value(Digits(x, OCTET)) == x
  {
    SmallPowers();
    FlatCons(x, rest, OCTET);
    DigitsValue(x, OCTET);
  }

  /** Bytes come back from their digits, with fewer than eight zeros after. */
  lemma {:induction false} OctetsFlat(data: Bytes, z: seq<Digit>)
    requires |z| < 8
    ensures Octets(Stream(data) + z) == data && Tail(Stream(data) + z) == z
    decreases |data|
  {
    if data == [] {
      assert Stream(data) + z == z;
    } else {
      var rest := data[1..];
      assert data == [data[0]] + rest;
      StreamFirst(data[0], rest);
      Regroup(Digits(data[0], OCTET), Stream(rest), z);
      OctetsFirst(Digits(data[0], OCTET), Stream(rest) + z);
      OctetsFlat(rest, z);
    }
  }

  /** Every byte string comes back from its text. */
  lemma {:induction false} DecodeEncode(data: Bytes)
    ensures Decode(Encode(data)) == Ok(data)
  {
    var bits := Stream(data);
    SpellValues(Symbols(bits));
    SymbolsFlat(bits);
    OctetsFlat(data, Zeros(Padding(|bits|)));
    ZeroValue(Zeros(Padding(|bits|)));
  }

  lemma {:induction false} FlatOctets(bits: seq<Digit>)
    ensures bits == Stream(Octets(bits)) + Tail(bits)
    decreases |bits|
  {
    if |bits| >= 8 {
      var group, rest := bits[..8], bits[8..];
      assert bits == group + rest;
      FlatOctets(rest);
      OctetsFirst(group, rest);
      StreamFirst(Value(group), Octets(rest));
      ValueDigits(group);
      Regroup(group, Stream(Octets(rest)), Tail(rest));
    }
  }

  /** Symbols come back from their digits, less fewer than five zeros. */
  lemma {:induction false} SymbolsOf(vs: seq<nat>, bits: seq<Digit>, z: nat)
    requires (forall i :: 0 <= i < |vs| ==> vs[i] < 32) && Flat(vs, GROUP) == bits + Zeros(z) && z < 5
    ensures Symbols(bits) == vs
    decreases |vs|
  {
    if vs != [] {
      var rest := vs[1..];
      assert vs == [vs[0]] + rest;
      SmallPowers();
      FlatCons(vs[0], rest, GROUP);
      DigitsValue(vs[0], GROUP);
      var all := bits + Zeros(z);
      assert all[..5] == Digits(vs[0], GROUP) && all[5..] == Flat(rest, GROUP);
      if |bits| >= 5 {
        assert all[..5] == bits[..5] && all[5..] == bits[5..] + Zeros(z);
        SymbolsOf(rest, bits[5..], z);
      } else {
        assert all[..5] == all;
      }
    }
  }

  /** Text comes back from the bytes it decodes to exactly when its length is one
      an encoder writes. */
  lemma {:induction false} EncodeDecode(text: string)
    requires Decode(text).Ok?
    ensures Encode(Decode(text).value) == text <==> |text| % 8 in {0, 2, 4, 5, 7}
  {
    var vs := Values(text).value;
    TailIs(vs);
    TailLength(|text|);
    ComesBack(text, vs, Flat(vs, GROUP), 5 * |text| % 8);
  }

  lemma {:induction false} TailIs(vs: seq<nat>)
    ensures |Tail(Flat(vs, GROUP))| == 5 * |vs| % 8
  {
    assert |vs| * GROUP == 5 * |vs|;
  }

  lemma {:induction false} ComesBack(text: string, vs: seq<nat>, bits: seq<Digit>, left: nat)
    requires Values(text) == Ok(vs) && bits == Flat(vs, GROUP) && Value(Tail(bits)) == 0 && left == |Tail(bits)|
    ensures Encode(Octets(bits)) == text <==> left < 5
  {
    FlatOctets(bits);
    ZeroValue(Tail(bits));
    ValuesSpell(text);
    SymbolsBack(vs, Stream(Octets(bits)), |Tail(bits)|);
    SpellInjective(Symbols(Stream(Octets(bits))), vs);
  }

  /** A tail of a whole letter is not spelt again. */
  lemma {:induction false} SymbolsBack(vs: seq<nat>, bits: seq<Digit>, z: nat)
    requires (forall i :: 0 <= i < |vs| ==> vs[i] < 32) && Flat(vs, GROUP) == bits + Zeros(z)
    ensures Symbols(bits) == vs <==> z < 5
  {
    if z < 5 {
      SymbolsOf(vs, bits, z);
    } else {
      SymbolsFlat(bits);
    }
  }

  lemma {:induction false} SpellInjective(a: seq<nat>, b: seq<nat>)
    requires forall i :: 0 <= i < |a| ==> a[i] < 32
    requires forall i :: 0 <= i < |b| ==> b[i] < 32
    ensures Spell(a) == Spell(b) <==> a == b
  {
    if Spell(a) == Spell(b) {
      SpellValues(a);
      SpellValues(b);
    }
  }

  lemma {:induction false} TailLength(n: nat)
    ensures 5 * n % 8 < 5 <==> n % 8 in {0, 2, 4, 5, 7}
  {
    var q, r := n / 8, n % 8;
    assert 5 * n == 8 * (5 * q) + 5 * r;
    QuotientIs(5 * n, 8, 5 * q + 5 * r / 8, 5 * r % 8);
  }

  /** One letter decodes to nothing. */
  lemma {:induction false} OneLetter()
    ensures Decode("a") == Ok([]) && Encode([]) == ""
  {
    assert Init("a") == "" && Last("a") == 'a' && Values("") == Ok([]);
    assert CharValue('a') == Ok(0);
    assert Values("a").value == [0];
    assert Flat([0], GROUP) == Zeros(5);
    ZeroValue(Zeros(5));
    assert Tail(Zeros(5)) == Zeros(5);
  }

  /** A 32-byte digest is 52 characters, and nothing else. */
  lemma {:induction false} DigestLength(text: string)
    requires Decode(text).Ok?
    ensures |Decode(text).value| == 32 ==> |text| == 52
    ensures |text| == 52 ==> |Decode(text).value| == 32
  {
  }

  // ------------------------------------------------------------------ identifiers

  /** A content identifier under SHA-256, the one algorithm there is. */
  datatype Cid = Cid(digest: Hash)

  datatype CidError =
    | MissingScheme
    | Malformed
    | UnknownAlgorithm(name: string)
    | InvalidDigest(why: DigestError)
    | WrongDigestLength(got: nat)

  const SCHEME: string := "pub:"
  const SHA2_256: string := "sha2-256"

  function Show(c: Cid): string {
    SCHEME + (SHA2_256 + ":" + Encode(c.digest))
  }

  /** The text before the first colon, and after it, if there is one. */
  function SplitColon(s: string): (r: Option<(string, string)>)
    ensures r.Some? ==> s == r.value.0 + ":" + r.value.1 && ':' !in r.value.0
    ensures r.None? ==> ':' !in s
  {
    if s == "" then None
    else if s[0] == ':' then
      assert s == "" + ":" + s[1..];
      Some(("", s[1..]))
    else
      match SplitColon(s[1..])
      case None => None
      case Some((head, rest)) =>
        assert s == [s[0]] + s[1..];
        Some(([s[0]] + head, rest))
  }

  function Parse(s: string): Result<Cid, CidError> {
    if !(SCHEME <= s) then Err(MissingScheme)
    else
      match SplitColon(s[|SCHEME|..])
      case None => Err(Malformed)
      case Some((alg, text)) => ParseParts(alg, text)
  }

  function ParseParts(alg: string, text: string): Result<Cid, CidError> {
    if alg == "" || text == "" then Err(Malformed)
    else if alg != SHA2_256 then Err(UnknownAlgorithm(alg))
    else
      match Decode(text)
      case Err(e) => Err(InvalidDigest(e))
      case Ok(digest) => if |digest| != 32 then Err(WrongDigestLength(|digest|)) else Ok(Cid(digest))
  }

  /** An identifier has one text form: what parses prints back as it was. */
  lemma {:induction false} ShowParse(s: string)
    requires Parse(s).Ok?
    ensures Show(Parse(s).value) == s
  {
    var rest := s[|SCHEME|..];
    assert s == SCHEME + rest;
    var text := SplitColon(rest).value.1;
    DigestLength(text);
    EncodeDecode(text);
    assert rest == SHA2_256 + ":" + text;
  }

  lemma {:induction false} SplitFirst(head: string, rest: string)
    requires ':' !in head
    ensures SplitColon(head + ":" + rest) == Some((head, rest))
    decreases |head|
  {
    var s := head + ":" + rest;
    if head == "" {
      assert s[1..] == rest;
    } else {
      assert s[1..] == head[1..] + ":" + rest;
      SplitFirst(head[1..], rest);
      assert head == [head[0]] + head[1..];
    }
  }

  lemma {:induction false} AfterPrefix(a: string, b: string)
    ensures a <= a + b && (a + b)[|a|..] == b
  {
  }

  lemma {:induction false} NoColon()
    ensures ':' !in SHA2_256 && SHA2_256 != ""
  {
    assert SHA2_256[0] == 's' && SHA2_256[1] == 'h' && SHA2_256[2] == 'a' && SHA2_256[3] == '2';
    assert SHA2_256[4] == '-' && SHA2_256[5] == '2' && SHA2_256[6] == '5' && SHA2_256[7] == '6';
  }

  lemma {:induction false} ParseShow(c: Cid)
    ensures Parse(Show(c)) == Ok(c)
  {
    var text := Encode(c.digest);
    AfterPrefix(SCHEME, SHA2_256 + ":" + text);
    NoColon();
    SplitFirst(SHA2_256, text);
    PartsShow(c);
  }

  lemma {:induction false} PartsShow(c: Cid)
    ensures ParseParts(SHA2_256, Encode(c.digest)) == Ok(c)
  {
    NoColon();
    DecodeEncode(c.digest);
    SymbolsLong(c.digest);
  }

  lemma {:induction false} SymbolsLong(data: Bytes)
    requires data != []
    ensures Encode(data) != ""
  {
    if Encode(data) == "" {
      OneLetter();
      DecodeEncode(data);
      DecodeEncode([]);
    }
  }
}
