/** Byte-wise order on text, the order the sorted collections iterate in. */
module Ordering {
  import opened Hashing

  predicate Less(a: Bytes, b: Bytes) {
    if b == [] then false
    else if a == [] then true
    else if a[0] != b[0] then a[0] < b[0]
    else Less(a[1..], b[1..])
  }

  /** One text is less than another if it is the beginning of it, or has the smaller
      byte where they first differ. */
  lemma {:induction false} LessExactly(a: Bytes, b: Bytes)
    ensures Less(a, b) <==> exists i: nat :: LessFrom(a, b, i)
  {
    if a != [] && b != [] && a[0] == b[0] {
      LessExactly(a[1..], b[1..]);
      if i: nat :| LessFrom(a[1..], b[1..], i) {
        assert a[..i + 1] == [a[0]] + a[1..][..i] && b[..i + 1] == [b[0]] + b[1..][..i];
        assert LessFrom(a, b, i + 1);
      }
      if i: nat :| LessFrom(a, b, i) {
        assert i > 0;
        assert a[1..][..i - 1] == a[..i][1..] && b[1..][..i - 1] == b[..i][1..];
        assert LessFrom(a[1..], b[1..], i - 1);
      }
    } else if Less(a, b) {
      assert LessFrom(a, b, 0);
    } else if i: nat :| LessFrom(a, b, i) {
      if i > 0 {
        BeginAlike(a, b, i);
      }
    }
  }

  lemma {:induction false} BeginAlike(a: Bytes, b: Bytes, i: nat)
    requires LessFrom(a, b, i) && i > 0
    ensures a != [] && b != [] && a[0] == b[0]
  {
    assert a[..i][0] == a[0] && b[..i][0] == b[0];
  }

  ghost predicate LessFrom(a: Bytes, b: Bytes, i: nat) {
    i <= |a| && i < |b| && a[..i] == b[..i] && (i == |a| || a[i] < b[i])
  }

  lemma {:induction false} LessIrreflexive(a: Bytes)
    ensures !Less(a, a)
  {
    if a != [] {
      LessIrreflexive(a[1..]);
    }
  }

  lemma {:induction false} LessTransitive(a: Bytes, b: Bytes, c: Bytes)
    requires Less(a, b) && Less(b, c)
    ensures Less(a, c)
  {
    if a != [] && a[0] == b[0] && b[0] == c[0] {
      LessTransitive(a[1..], b[1..], c[1..]);
    }
  }

  lemma {:induction false} LessTotal(a: Bytes, b: Bytes)
    ensures a == b || Less(a, b) || Less(b, a)
  {
    if a != [] && b != [] && a[0] == b[0] {
      LessTotal(a[1..], b[1..]);
      assert a == [a[0]] + a[1..] && b == [b[0]] + b[1..];
    }
  }

  lemma {:induction false} LessAsymmetric(a: Bytes, b: Bytes)
    requires Less(a, b)
    ensures a != b && !Less(b, a)
  {
    LessIrreflexive(a);
    if Less(b, a) {
      LessTransitive(a, b, a);
    }
  }

  /** Strictly increasing, so without repeats. */
  predicate Increasing(s: seq<Bytes>) {
    forall i, j :: 0 <= i < j < |s| ==> Less(s[i], s[j])
  }

  lemma {:induction false} IncreasingCons(x: Bytes, s: seq<Bytes>)
    requires Increasing(s) && (s != [] ==> Less(x, s[0]))
    ensures Increasing([x] + s)
  {
    forall i, j | 0 <= i < j < |s| + 1 ensures Less(([x] + s)[i], ([x] + s)[j]) {
      if i == 0 && j > 1 {
        LessTransitive(x, s[0], s[j - 1]);
      }
    }
  }

  lemma {:induction false} FirstIsLeast(s: seq<Bytes>, x: Bytes)
    requires Increasing(s) && x in s
    ensures x == s[0] || Less(s[0], x)
  {
  }

  /** A collection has one sorted listing. */
  lemma {:induction false} IncreasingUnique(a: seq<Bytes>, b: seq<Bytes>)
    requires Increasing(a) && Increasing(b) && forall x :: x in a <==> x in b
    ensures a == b
  {
    if b != [] {
      assert b[0] in b;
    }
    if a != [] {
      assert a[0] in a;
      assert a[0] in b && b[0] in a;
      FirstIsLeast(a, b[0]);
      FirstIsLeast(b, a[0]);
      if a[0] != b[0] {
        LessAsymmetric(a[0], b[0]);
      }
      forall x ensures x in a[1..] <==> x in b[1..] {
        TailWithout(a, x);
        TailWithout(b, x);
      }
      IncreasingUnique(a[1..], b[1..]);
      assert a == [a[0]] + a[1..] && b == [b[0]] + b[1..];
    }
  }

  lemma {:induction false} TailWithout(s: seq<Bytes>, x: Bytes)
    requires Increasing(s) && s != []
    ensures x in s[1..] <==> x in s && x != s[0]
  {
    LessIrreflexive(s[0]);
    assert s == [s[0]] + s[1..];
  }

  // ------------------------------------------------------------------- sorting

  predicate NonDecreasing(s: seq<Bytes>) {
    forall i, j :: 0 <= i < j < |s| ==> !Less(s[j], s[i])
  }

  function Insert(x: Bytes, s: seq<Bytes>): seq<Bytes> {
    if s == [] then [x] else if Less(s[0], x) then [s[0]] + Insert(x, s[1..]) else [x] + s
  }

  function Sort(s: seq<Bytes>): seq<Bytes> {
    if s == [] then [] else Insert(s[0], Sort(s[1..]))
  }

  /** Drop each element equal to the one before it. */
  function Dedup(s: seq<Bytes>): seq<Bytes> {
    if |s| < 2 then s
    else if s[0] == s[1] then Dedup(s[1..])
    else [s[0]] + Dedup(s[1..])
  }

  lemma {:induction false} InsertSorts(x: Bytes, s: seq<Bytes>)
    requires NonDecreasing(s)
    ensures NonDecreasing(Insert(x, s))
    ensures forall y :: y in Insert(x, s) <==> y == x || y in s
  {
    if s != [] {
      assert s == [s[0]] + s[1..];
      if Less(s[0], x) {
        InsertSorts(x, s[1..]);
        LessAsymmetric(s[0], x);
        NonDecreasingCons(s[0], Insert(x, s[1..]));
      } else {
        forall y | y in s ensures !Less(y, x) {
          if Less(y, x) {
            NotBelowFirst(s, x, y);
          }
        }
        NonDecreasingCons(x, s);
      }
    }
  }

  lemma {:induction false} NotBelowFirst(s: seq<Bytes>, x: Bytes, y: Bytes)
    requires NonDecreasing(s) && y in s && Less(y, x)
    ensures Less(s[0], x)
  {
    LessTotal(s[0], y);
    if Less(s[0], y) {
      LessTransitive(s[0], y, x);
    }
  }

  lemma {:induction false} NonDecreasingCons(x: Bytes, s: seq<Bytes>)
    requires NonDecreasing(s) && forall y :: y in s ==> !Less(y, x)
    ensures NonDecreasing([x] + s)
  {
  }

  lemma {:induction false} SortSorts(s: seq<Bytes>)
    ensures NonDecreasing(Sort(s))
    ensures forall y :: y in Sort(s) <==> y in s
  {
    if s != [] {
      SortSorts(s[1..]);
      InsertSorts(s[0], Sort(s[1..]));
      assert s == [s[0]] + s[1..];
    }
  }

  lemma {:induction false} DedupDistinct(s: seq<Bytes>)
    requires NonDecreasing(s)
    ensures Increasing(Dedup(s))
    ensures forall y :: y in Dedup(s) <==> y in s
    ensures s != [] ==> Dedup(s) != [] && Dedup(s)[0] == s[0]
  {
    if |s| >= 2 {
      DedupDistinct(s[1..]);
      assert s == [s[0]] + s[1..];
      if s[0] != s[1] {
        LessTotal(s[0], s[1]);
        IncreasingCons(s[0], Dedup(s[1..]));
      }
    }
  }

  // ------------------------------------------------------- sets as listings

  ghost predicate IsLeast(x: Bytes, s: set<Bytes>) {
    x in s && forall y :: y in s ==> y == x || Less(x, y)
  }

  /** The least element of a set of texts. */
  function Least(s: set<Bytes>): (x: Bytes)
    requires s != {}
    ensures IsLeast(x, s)
  {
    LeastExists(s);
    LeastUnique(s);
    var x :| x in s && forall y :: y in s ==> y == x || Less(x, y);
    x
  }

  lemma {:induction false} LeastExists(s: set<Bytes>)
    requires s != {}
    ensures exists x :: IsLeast(x, s)
  {
    var x :| x in s;
    var rest := s - {x};
    assert s <= rest + {x};
    if rest == {} {
      assert IsLeast(x, s);
    } else {
      LeastExists(rest);
      var z :| IsLeast(z, rest);
      LeastOfTwo(s, x, z);
    }
  }

  lemma {:induction false} LeastOfTwo(s: set<Bytes>, x: Bytes, z: Bytes)
    requires x in s && z in s && IsLeast(z, s - {x})
    ensures IsLeast(x, s) || IsLeast(z, s)
  {
    LessTotal(x, z);
    if Less(x, z) {
      forall y | y in s ensures y == x || Less(x, y) {
        if y != x && y != z {
          LessTransitive(x, z, y);
        }
      }
    }
  }

  lemma {:induction false} LeastUnique(s: set<Bytes>)
    ensures forall x, z ::
              ((x in s && forall y :: y in s ==> y == x || Less(x, y))
               && (z in s && forall y :: y in s ==> y == z || Less(z, y))) ==> x == z
  {
    forall x, z | IsLeast(x, s) && IsLeast(z, s) ensures x == z {
      if x != z {
        LessAsymmetric(x, z);
      }
    }
    assert forall x :: (x in s && forall y :: y in s ==> y == x || Less(x, y)) ==> IsLeast(x, s);
  }

  /** A set in the order it iterates. */
  function Listing(s: set<Bytes>): (r: seq<Bytes>)
    ensures Increasing(r)
    ensures forall x :: x in r <==> x in s
  {
    if s == {} then []
    else
      var x := Least(s);
      var rest := Listing(s - {x});
      IncreasingCons(x, rest);
      [x] + rest
  }
}
