/** The text of an identifier, letter by letter: RFC 4648's alphabet for base 32, and
    one number written in two ways. */
module CidBytes {
  import opened Bits
  import opened Hashing
  import opened Seqs
  import opened Wrappers
  import opened Cid

  /** Letters from a, then digits from two. */
  lemma {:induction false} AlphabetIs(v: nat)
    requires v < 32
    ensures ALPHABET[v] == if v < 26 then ('a' as int + v) as char else ('2' as int + v - 26) as char
  {
    LetterValue(v);
  }

  /** What a character is read as, and why not. */
  lemma {:induction false} CharIs(ch: char)
    ensures 'a' <= ch <= 'z' ==> CharValue(ch) == Ok(ch as int - 'a' as int)
    ensures '2' <= ch <= '7' ==> CharValue(ch) == Ok(26 + (ch as int - '2' as int))
    ensures 'A' <= ch <= 'Z' ==> CharValue(ch) == Err(UpperCase)
    ensures ch == '=' ==> CharValue(ch) == Err(Padded)
    ensures !('a' <= ch <= 'z') && !('2' <= ch <= '7') && !('A' <= ch <= 'Z') && ch != '=' ==>
              CharValue(ch) == Err(NotBase32)
  {
  }

  // ------------------------------------------------------------------ as one number

  /** Digits in a base, the highest first. */
  ghost function Number(xs: seq<nat>, base: nat): nat
    decreases |xs|
  {
    if xs == [] then 0 else base * Number(Init(xs), base) + Last(xs)
  }

  lemma {:induction false} FlatNumber(xs: seq<nat>, k: nat, base: nat)
    requires base == Pow2(k) && forall i :: 0 <= i < |xs| ==> xs[i] < base
    ensures Value(Flat(xs, k)) == Number(xs, base)
    decreases |xs|
  {
    if xs != [] {
      FlatNumber(Init(xs), k, base);
      ValueConcat(Flat(Init(xs), k), Digits(Last(xs), k));
      DigitsValue(Last(xs), k);
      Commutes(Number(Init(xs), base), base);
    }
  }

  lemma {:induction false} Commutes(x: nat, y: nat)
    ensures x * y == y * x
  {
  }

  lemma {:induction false} SymbolCount(bits: seq<Digit>)
    ensures 5 * |Symbols(bits)| == |bits| + Padding(|bits|)
    decreases |bits|
  {
    if |bits| >= 5 {
      SymbolCount(bits[5..]);
      PaddingAgain(|bits| - 5);
    }
  }

  lemma {:induction false} FilledValue(bits: seq<Digit>, n: nat)
    ensures Value(bits + Zeros(n)) == Value(bits) * Pow2(n)
  {
    ValueConcat(bits, Zeros(n));
    ZeroValue(Zeros(n));
  }

  /** A byte string and its text are one number, of which the text has up to four more
      binary noughts at the end: as many as make up a last letter. */
  lemma {:induction false} TextIsNumber(data: Bytes) returns (vs: seq<nat>)
    ensures |vs| == |Encode(data)|
    ensures forall i :: 0 <= i < |vs| ==> vs[i] < 32 && Encode(data)[i] == ALPHABET[vs[i]]
    ensures 8 * |data| <= 5 * |vs| < 8 * |data| + 5
    ensures Number(vs, 32) == Number(data, 256) * Pow2(5 * |vs| - 8 * |data|)
  {
    var bits := Stream(data);
    vs := Symbols(bits);
    SmallPowers();
    SymbolCount(bits);
    SymbolsFlat(bits);
    FilledValue(bits, Padding(|bits|));
    assert Padding(|bits|) == 5 * |vs| - 8 * |data|;
    FlatNumber(vs, GROUP, 32);
    FlatNumber(data, OCTET, 256);
  }

  /** Text is read up to its first bad character. */
  lemma {:induction false} FirstBad(text: string, i: nat)
    requires i < |text| && CharValue(text[i]).Err? && forall j :: 0 <= j < i ==> CharValue(text[j]).Ok?
    ensures Decode(text) == Err(CharValue(text[i]).error)
  {
    AllGood(text[..i]);
    ValuesNext(text, i, Values(text[..i]).value);
  }

  lemma {:induction false} AllGood(text: string)
    requires forall j :: 0 <= j < |text| ==> CharValue(text[j]).Ok?
    ensures Values(text).Ok?
    ensures forall j :: 0 <= j < |text| ==> CharValue(text[j]) == Ok(Values(text).value[j])
    decreases |text|
  {
    if text != "" {
      AllGood(Init(text));
    }
  }

  /** And if none is bad, as its number less the binary noughts left over at the end,
      which must be noughts. */
  lemma {:induction false} DecodesNumber(text: string) returns (vs: seq<nat>)
    requires forall j :: 0 <= j < |text| ==> CharValue(text[j]).Ok?
    ensures |vs| == |text| && forall j :: 0 <= j < |text| ==> CharValue(text[j]) == Ok(vs[j])
    ensures var rest := Pow2(5 * |text| % 8);
      if Number(vs, 32) % rest != 0 then Decode(text) == Err(NonZeroTail)
      else
        && Decode(text).Ok? && |Decode(text).value| == 5 * |text| / 8
        && Number(Decode(text).value, 256) * rest == Number(vs, 32)
  {
    AllGood(text);
    vs := Values(text).value;
    SmallPowers();
    var bits := Flat(vs, GROUP);
    var data, tail := Octets(bits), Tail(bits);
    FlatNumber(vs, GROUP, 32);
    FlatNumber(data, OCTET, 256);
    FlatOctets(bits);
    ValueConcat(Stream(data), tail);
    RestIs(Number(vs, 32), Number(data, 256), Pow2(|tail|), Value(tail));
  }

  lemma {:induction false} RestIs(x: nat, n: nat, p: nat, rest: nat)
    requires x == n * p + rest && rest < p
    ensures x % p == rest
  {
    Commutes(n, p);
    QuotientIs(x, p, n, rest);
  }

  // --------------------------------------------------------------------- identifiers

  lemma {:induction false} ShowIs(c: Cid)
    ensures Show(c) == "pub:sha2-256:" + Encode(c.digest)
  {
    assert "pub:" + ("sha2-256" + ":" + Encode(c.digest)) == "pub:sha2-256:" + Encode(c.digest);
  }

  /** What text is read as: the first of these that applies. */
  lemma {:induction false} ParseIs(s: string, alg: string, text: string)
    requires s == "pub:" + alg + ":" + text && ':' !in alg
    ensures alg == "" || text == "" ==> Parse(s) == Err(Malformed)
    ensures alg != "" && text != "" && alg != "sha2-256" ==> Parse(s) == Err(UnknownAlgorithm(alg))
    ensures alg == "sha2-256" && text != "" ==>
      match Decode(text)
      case Err(e) => Parse(s) == Err(InvalidDigest(e))
      case Ok(digest) => Parse(s) == if |digest| == 32 then Ok(Cid(digest)) else Err(WrongDigestLength(|digest|))
  {
    assert s == "pub:" + (alg + ":" + text);
    AfterPrefix("pub:", alg + ":" + text);
    SplitFirst(alg, text);
  }

  lemma {:induction false} ParseNot(s: string)
    ensures !("pub:" <= s) ==> Parse(s) == Err(MissingScheme)
    ensures "pub:" <= s && ':' !in s[4..] ==> Parse(s) == Err(Malformed)
  {
    if "pub:" <= s && ':' !in s[4..] {
      NoSplit(s[4..]);
    }
  }

  lemma {:induction false} NoSplit(s: string)
    requires ':' !in s
    ensures SplitColon(s).None?
  {
    if s != "" {
      assert s == [s[0]] + s[1..];
      NoSplit(s[1..]);
    }
  }
}
