/** Positional numerals over an alphabet, most significant symbol first: the
    arithmetic behind ToHex and FromHex (babel/babel.go:146-171) and behind the
    base-29 reading of a padded page in Search (babel/babel.go:134-138). */
module Numeral {
  import opened Babel
  import opened Results

  function Pow(b: nat, k: nat): (r: nat)
    ensures b > 0 ==> r > 0
  {
    if k == 0 then 1 else b * Pow(b, k - 1)
  }

  /** Euclidean division of x * b + k by b recovers x and k. */
  lemma DivModOfSum(x: int, b: nat, k: int)
    requires 0 <= k < b
    ensures (x * b + k) / b == x && (x * b + k) % b == k
  {
    var n := x * b + k;
    var q, m := n / b, n % b;
    assert q * b + m == x * b + k;
    if q > x {
      MulMonotone(x + 1, q, b);
      assert false;
    } else if q < x {
      MulMonotone(q + 1, x, b);
      assert false;
    }
  }

  lemma DivModParts(n: int, b: nat)
    requires b > 0
    ensures n == (n / b) * b + n % b && 0 <= n % b < b
  {
  }

  /** The quotient and remainder of a non-negative n by b >= 2. */
  lemma DivBounds(n: int, b: nat)
    requires n >= 0 && b >= 2
    ensures n == (n / b) * b + n % b && 0 <= n % b < b
    ensures 0 <= n / b && (n > 0 ==> n / b < n) && (n / b == 0 <==> n < b)
  {
    DivModParts(n, b);
    DivNonNegative(n, b);
    if n > 0 {
      DivSmaller(n, b);
    }
    DivZero(n, b);
  }

  lemma DivNonNegative(n: int, b: nat)
    requires n >= 0 && b >= 2
    ensures n / b >= 0
  {
    var q := n / b;
    DivModParts(n, b);
    if q < 0 {
      MulMonotone(q, -1, b);
      assert false;
    }
  }

  lemma DivSmaller(n: int, b: nat)
    requires n > 0 && b >= 2
    ensures n / b < n
  {
    var q := n / b;
    DivModParts(n, b);
    if q >= n {
      MulMonotone(n, q, b);
      MulMonotone(2, b, n);
      assert false;
    }
  }

  lemma DivZero(n: int, b: nat)
    requires n >= 0 && b >= 2
    ensures n / b == 0 <==> n < b
  {
    var q := n / b;
    DivModParts(n, b);
    DivNonNegative(n, b);
    if n < b && q > 0 {
      MulMonotone(1, q, b);
      assert false;
    }
  }

  lemma MulMonotone(x: int, y: int, b: nat)
    requires x <= y
    ensures x * b <= y * b
  {
    assert y * b - x * b == (y - x) * b;
  }

  /** Appending a digit below b to a value below big stays below big * b. */
  lemma DigitStep(x: int, k: int, b: nat, big: nat)
    requires 0 <= x < big && 0 <= k < b
    ensures 0 <= x * b + k < big * b
  {
    MulMonotone(x, big - 1, b);
    MulMonotone(0, x, b);
    assert (big - 1) * b == big * b - b;
  }

  /** The value of s in the positional system of alphabet: Σ index(s[i])·|alphabet|^(|s|-1-i).
      A symbol the alphabet lacks weighs -1, the index Go's indexOf reports for it. */
  function Value(s: seq<char>, alphabet: seq<char>): int
  {
    if s == [] then 0
    else Value(s[..|s| - 1], alphabet) * |alphabet| + IndexOf(alphabet, s[|s| - 1])
  }

  /** A numeral of k symbols over the alphabet has a value in [0, b^k). */
  lemma {:induction false} ValueRange(s: seq<char>, alphabet: seq<char>)
    requires Over(s, alphabet)
    ensures 0 <= Value(s, alphabet) < Pow(|alphabet|, |s|)
  {
    if s != [] {
      var b := |alphabet|;
      var p := s[..|s| - 1];
      var k := IndexOf(alphabet, s[|s| - 1]);
      var x := Value(p, alphabet);
      var big := Pow(b, |p|);
      OverPrefix(s, alphabet);
      ValueRange(p, alphabet);
      assert Value(s, alphabet) == x * b + k;
      DigitStep(x, k, b, big);
      assert Pow(b, |s|) == b * big;
    }
  }

  lemma ValueNonNegative(s: seq<char>, alphabet: seq<char>)
    requires Over(s, alphabet)
    ensures Value(s, alphabet) >= 0
  {
    ValueRange(s, alphabet);
  }

  /** The symbols of n in base |alphabet|, most significant first, with no leading
      zero symbol; empty for every n <= 0. */
  function Encode(n: int, alphabet: seq<char>): (r: seq<char>)
    requires |alphabet| >= 2
    decreases if n > 0 then n else 0
  {
    if n <= 0 then []
    else Encode(n / |alphabet|, alphabet) + [alphabet[n % |alphabet|]]
  }

  /** Every symbol of a numeral is a symbol of its alphabet. */
  lemma {:induction false} EncodeOver(n: int, alphabet: seq<char>)
    requires |alphabet| >= 2
    ensures Over(Encode(n, alphabet), alphabet)
    decreases if n > 0 then n else 0
  {
    if n > 0 {
      var b := |alphabet|;
      EncodeOver(n / b, alphabet);
      OverSnoc(Encode(n / b, alphabet), alphabet[n % b], alphabet);
    }
  }

  /** The position of the first symbol of s outside alphabet. */
  function FirstMissing(s: seq<char>, alphabet: seq<char>): (i: nat)
    requires !Over(s, alphabet)
    ensures i < |s| && s[i] !in alphabet && Over(s[..i], alphabet)
  {
    if s[0] !in alphabet then 0
    else
      var j := FirstMissing(s[1..], alphabet);
      assert s[..j + 1] == [s[0]] + s[1..][..j];
      j + 1
  }

  /** A symbol outside alphabet that follows only symbols of alphabet is the first missing one. */
  lemma FirstMissingUnique(s: seq<char>, alphabet: seq<char>, i: nat)
    requires i < |s| && s[i] !in alphabet && Over(s[..i], alphabet)
    ensures !Over(s, alphabet) && FirstMissing(s, alphabet) == i
  {
  }

  /** Reading s with failure: the value of s when every symbol is in alphabet, and
      otherwise an InvalidSymbol failure naming the first symbol that is not. */
  function Decode(s: seq<char>, alphabet: seq<char>): Result<int> {
    if Over(s, alphabet) then Ok(Value(s, alphabet))
    else Err(InvalidSymbol(s[FirstMissing(s, alphabet)]))
  }

  /** Appending a symbol shifts the value one place and adds the symbol's index. */
  lemma ValueSnoc(s: seq<char>, c: char, alphabet: seq<char>)
    ensures Value(s + [c], alphabet) == Value(s, alphabet) * |alphabet| + IndexOf(alphabet, c)
  {
    assert (s + [c])[..|s|] == s;
  }

  /** One more symbol of the alphabet keeps a text over the alphabet. */
  lemma OverSnoc(s: seq<char>, c: char, alphabet: seq<char>)
    requires Over(s, alphabet) && c in alphabet
    ensures Over(s + [c], alphabet)
  {
  }

  lemma OverPrefix(s: seq<char>, alphabet: seq<char>)
    requires s != [] && Over(s, alphabet)
    ensures Over(s[..|s| - 1], alphabet)
  {
    assert forall i | 0 <= i < |s| - 1 :: s[..|s| - 1][i] == s[i];
  }

  /** Reading back the numeral of n gives n: FromHex(ToHex(n)) == n for every n >= 0. */
  lemma {:induction false} ValueOfEncode(n: int, alphabet: seq<char>)
    requires n >= 0 && |alphabet| >= 2 && Distinct(alphabet)
    ensures Value(Encode(n, alphabet), alphabet) == n
  {
    if n > 0 {
      var b := |alphabet|;
      var q, r := n / b, n % b;
      var s := Encode(q, alphabet);
      ValueOfEncode(q, alphabet);
      IndexOfDistinct(alphabet, r);
      ValueSnoc(s, alphabet[r], alphabet);
      DivModParts(n, b);
    }
  }

  /** The numeral of n is empty exactly when n <= 0 and never starts with the zero symbol. */
  lemma {:induction false} EncodeCanonical(n: int, alphabet: seq<char>)
    requires |alphabet| >= 2 && Distinct(alphabet)
    ensures Encode(n, alphabet) == [] <==> n <= 0
    ensures n > 0 ==> Encode(n, alphabet)[0] != alphabet[0]
    decreases if n > 0 then n else 0
  {
    if n > 0 {
      var b := |alphabet|;
      var q, r := n / b, n % b;
      DivBounds(n, b);
      assert Encode(n, alphabet) == Encode(q, alphabet) + [alphabet[r]];
      if q > 0 {
        EncodeCanonical(q, alphabet);
      } else {
        assert r == n;
        assert alphabet[r] != alphabet[0];
      }
    }
  }

  /** A non-empty numeral without a leading zero symbol has a positive value. */
  lemma {:induction false} ValuePositive(s: seq<char>, alphabet: seq<char>)
    requires |alphabet| >= 2 && Over(s, alphabet) && s != [] && s[0] != alphabet[0]
    ensures Value(s, alphabet) > 0
  {
    var b := |alphabet|;
    var p := s[..|s| - 1];
    var k := IndexOf(alphabet, s[|s| - 1]);
    OverPrefix(s, alphabet);
    assert Value(s, alphabet) == Value(p, alphabet) * b + k;
    if p == [] {
      assert k != 0;
      assert Value(p, alphabet) * b == 0;
    } else {
      ValuePositive(p, alphabet);
      MulMonotone(1, Value(p, alphabet), b);
    }
  }

  /** Writing out the value of a canonical numeral gives the numeral back:
      ToHex(FromHex(s)) == s when s is over the alphabet with no leading zero symbol. */
  lemma {:induction false} EncodeOfValue(s: seq<char>, alphabet: seq<char>)
    requires |alphabet| >= 2 && Distinct(alphabet) && Over(s, alphabet)
    requires s == [] || s[0] != alphabet[0]
    ensures Encode(Value(s, alphabet), alphabet) == s
  {
    if s != [] {
      var b := |alphabet|;
      var p := s[..|s| - 1];
      var c := s[|s| - 1];
      var k := IndexOf(alphabet, c);
      OverPrefix(s, alphabet);
      ValuePositive(s, alphabet);
      DivModOfSum(Value(p, alphabet), b, k);
      if p != [] {
        EncodeOfValue(p, alphabet);
      }
      assert s == p + [c];
    }
  }

  /** Numerals of one length over the alphabet with the same value are the same text. */
  lemma {:induction false} ValueInjective(s: seq<char>, t: seq<char>, alphabet: seq<char>)
    requires |s| == |t| && Over(s, alphabet) && Over(t, alphabet)
    requires Value(s, alphabet) == Value(t, alphabet)
    ensures s == t
  {
    if s != [] {
      var b := |alphabet|;
      var ps, pt := s[..|s| - 1], t[..|t| - 1];
      var cs, ct := s[|s| - 1], t[|t| - 1];
      var ds, dt := IndexOf(alphabet, cs), IndexOf(alphabet, ct);
      var vs, vt := Value(ps, alphabet), Value(pt, alphabet);
      assert cs in alphabet && ct in alphabet;
      assert Value(s, alphabet) == vs * b + ds;
      assert Value(t, alphabet) == vt * b + dt;
      DivModOfSum(vs, b, ds);
      DivModOfSum(vt, b, dt);
      assert vs == vt && ds == dt;
      OverPrefix(s, alphabet);
      OverPrefix(t, alphabet);
      ValueInjective(ps, pt, alphabet);
      assert s == ps + [cs] && t == pt + [ct];
    }
  }

  /** A value below b^k has a numeral of at most k symbols. */
  lemma {:induction false} EncodeLength(n: int, alphabet: seq<char>, k: nat)
    requires |alphabet| >= 2 && 0 <= n < Pow(|alphabet|, k)
    ensures |Encode(n, alphabet)| <= k
  {
    if n > 0 {
      var b := |alphabet|;
      var q, r := n / b, n % b;
      DivBounds(n, b);
      assert k > 0;
      var smaller := Pow(b, k - 1);
      assert Pow(b, k) == b * smaller;
      if q >= smaller {
        MulMonotone(smaller, q, b);
        assert false;
      }
      EncodeLength(q, alphabet, k - 1);
      assert Encode(n, alphabet) == Encode(q, alphabet) + [alphabet[r]];
    }
  }

  lemma {:induction false} PowMonotone(a: nat, b: nat, k: nat)
    requires a <= b
    ensures Pow(a, k) <= Pow(b, k)
  {
    if k > 0 {
      var pa, pb := Pow(a, k - 1), Pow(b, k - 1);
      PowMonotone(a, b, k - 1);
      MulMonotone(a, b, pa);
      MulMonotone(pa, pb, b);
      assert Pow(a, k) == a * pa;
      assert Pow(b, k) == b * pb;
    }
  }

  /** The decimal digits, for fmt's %d verb. */
  const DECIMAL: seq<char> := "0123456789"

  lemma DecimalDistinct()
    ensures |DECIMAL| == 10 && Distinct(DECIMAL) && ':' !in DECIMAL
  {
  }

  /** fmt's %d of a non-negative integer: its decimal numeral, "0" for 0. */
  function Decimal(n: nat): string {
    if n == 0 then "0" else Encode(n, DECIMAL)
  }

  /** The decimal numeral of n is a non-empty string of digits whose value is n. */
  lemma DecimalValue(n: nat)
    ensures Decimal(n) != [] && Over(Decimal(n), DECIMAL)
    ensures Value(Decimal(n), DECIMAL) == n
  {
    DecimalDistinct();
    if n == 0 {
      assert Decimal(n) == [] + ['0'];
      ValueSnoc([], '0', DECIMAL);
    } else {
      EncodeCanonical(n, DECIMAL);
      EncodeOver(n, DECIMAL);
      ValueOfEncode(n, DECIMAL);
    }
  }
}
