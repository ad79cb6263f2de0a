/** The constants and alphabets of the library (babel/babel.go:13-26), the symbol
    lookup `indexOf` (babel/babel.go:194-201) and Go's byte length of a string. */
module Babel {

  const PAGE_LENGTH: nat := 40 * 80
  const WALLS: nat := 4
  const SHELVES: nat := 5
  const VOLUMES: nat := 32
  const PAGES: nat := 410
  const MAX_HEX_LEN: nat := 3260

  /** The page alphabet: space, the 26 lower-case letters, comma and period (29 symbols). */
  const BABEL_SET: seq<char> := [' ', 'a', 'b', 'c', 'd', 'e', 'f', 'g', 'h', 'i', 'j', 'k', 'l', 'm',
    'n', 'o', 'p', 'q', 'r', 's', 't', 'u', 'v', 'w', 'x', 'y', 'z', ',', '.']

  /** The alphabet of the free-form address part: digits and lower-case letters (base 36). */
  const HEX_SET: seq<char> := ['0', '1', '2', '3', '4', '5', '6', '7', '8', '9',
    'a', 'b', 'c', 'd', 'e', 'f', 'g', 'h', 'i', 'j', 'k', 'l', 'm', 'n', 'o', 'p', 'q', 'r', 's', 't',
    'u', 'v', 'w', 'x', 'y', 'z']

  /** No symbol occurs twice, so a symbol's index identifies it. */
  ghost predicate Distinct(s: seq<char>) {
    forall i, j :: 0 <= i < j < |s| ==> s[i] != s[j]
  }

  /** Every symbol of s occurs in alphabet. */
  predicate Over(s: seq<char>, alphabet: seq<char>) {
    forall i :: 0 <= i < |s| ==> s[i] in alphabet
  }

  /** A multiset-preserving rearrangement stays over the same alphabet. */
  lemma OverPermutation(s: seq<char>, t: seq<char>, alphabet: seq<char>)
    requires multiset(s) == multiset(t) && Over(s, alphabet)
    ensures Over(t, alphabet)
  {
    forall i | 0 <= i < |t|
      ensures t[i] in alphabet
    {
      assert t[i] in multiset(t);
      assert t[i] in s;
    }
  }

  /** strings.Repeat(" ", n). */
  function Spaces(n: nat): (s: string)
    ensures |s| == n && forall i :: 0 <= i < n ==> s[i] == ' '
  {
    if n == 0 then "" else " " + Spaces(n - 1)
  }

  predicate IsAscii(c: char) {
    c as int < 0x80
  }

  /** The symbols of s strictly increase from index lo to index hi - 1. */
  ghost predicate IncreasingOn(s: seq<char>, lo: nat, hi: nat) {
    hi <= |s| && forall i :: lo < i < hi ==> s[i - 1] < s[i]
  }

  lemma {:induction false} IncreasingBetween(s: seq<char>, lo: nat, hi: nat, i: nat, j: nat)
    requires IncreasingOn(s, lo, hi) && lo <= i < j < hi
    ensures s[i] < s[j]
    decreases j - i
  {
    if i + 1 < j {
      IncreasingBetween(s, lo, hi, i, j - 1);
    }
  }

  /** A strictly increasing sequence has no symbol twice. */
  lemma IncreasingDistinct(s: seq<char>)
    requires IncreasingOn(s, 0, |s|)
    ensures Distinct(s)
  {
    forall i, j | 0 <= i < j < |s|
      ensures s[i] != s[j]
    {
      IncreasingBetween(s, 0, |s|, i, j);
    }
  }

  /** The digits and the letters are in increasing order. */
  lemma HexSetDistinct()
    ensures |HEX_SET| == 36 && Distinct(HEX_SET) && HEX_SET[0] == '0'
  {
    assert IncreasingOn(HEX_SET, 0, 36);
    IncreasingDistinct(HEX_SET);
  }

  /** Space and the letters are increasing; comma and period sit below the letters. */
  lemma BabelSetDistinct()
    ensures |BABEL_SET| == 29 && Distinct(BABEL_SET)
  {
    assert IncreasingOn(BABEL_SET, 0, 27);
    SpaceLettersPunctuation(BABEL_SET);
  }

  /** The shape of BABEL_SET: space, 26 increasing symbols from 'a', then ',' and '.'. */
  lemma SpaceLettersPunctuation(s: seq<char>)
    requires |s| == 29 && IncreasingOn(s, 0, 27)
    requires s[0] == ' ' && s[1] == 'a' && s[27] == ',' && s[28] == '.'
    ensures Distinct(s)
  {
    forall i, j | 0 <= i < j < 29
      ensures s[i] != s[j]
    {
      if j < 27 {
        IncreasingBetween(s, 0, 27, i, j);
      } else if 1 < i < 27 {
        IncreasingBetween(s, 0, 27, 1, i);
      }
    }
  }

  lemma BabelSetAscii()
    ensures forall i :: 0 <= i < |BABEL_SET| ==> IsAscii(BABEL_SET[i])
  {
  }

  lemma HexSetAscii()
    ensures forall i :: 0 <= i < |HEX_SET| ==> IsAscii(HEX_SET[i])
  {
  }

  /** A text over an ASCII alphabet takes one byte per symbol. */
  lemma OverAscii(s: seq<char>, alphabet: seq<char>)
    requires Over(s, alphabet) && forall i :: 0 <= i < |alphabet| ==> IsAscii(alphabet[i])
    ensures ByteLen(s) == |s|
  {
    forall i | 0 <= i < |s|
      ensures IsAscii(s[i])
    {
      var k := IndexOf(alphabet, s[i]);
      assert alphabet[k] == s[i];
    }
  }

  /** The position of the first occurrence of target in runes, or -1 when there is none. */
  function IndexOf(runes: seq<char>, target: char): (i: int)
    ensures -1 <= i < |runes|
    ensures i == -1 <==> target !in runes
    ensures 0 <= i ==> runes[i] == target
  {
    if runes == [] then -1
    else if runes[0] == target then 0
    else
      var j := IndexOf(runes[1..], target);
      if j == -1 then -1 else j + 1
  }

  /** The index IndexOf reports is the first occurrence: target is nowhere before it. */
  lemma {:induction false} IndexOfFirst(runes: seq<char>, target: char)
    requires target in runes
    ensures target !in runes[..IndexOf(runes, target)]
  {
    if runes[0] != target {
      var j := IndexOf(runes[1..], target);
      IndexOfFirst(runes[1..], target);
      assert runes[..j + 1] == [runes[0]] + runes[1..][..j];
    }
  }

  /** The first occurrence of target after a prefix that lacks it is just past the prefix. */
  lemma {:induction false} IndexOfAfter(u: seq<char>, target: char, v: seq<char>)
    requires target !in u
    ensures IndexOf(u + [target] + v, target) == |u|
  {
    if u != [] {
      assert (u + [target] + v)[1..] == u[1..] + [target] + v;
      IndexOfAfter(u[1..], target, v);
    }
  }

  /** In a distinct alphabet the index of the symbol at k is k. */
  lemma IndexOfDistinct(alphabet: seq<char>, k: nat)
    requires Distinct(alphabet) && k < |alphabet|
    ensures IndexOf(alphabet, alphabet[k]) == k
  {
  }

  /** The number of bytes of c in UTF-8, the encoding Go strings use. */
  function RuneLen(c: char): nat {
    if c as int < 0x80 then 1
    else if c as int < 0x800 then 2
    else if c as int < 0x1_0000 then 3
    else 4
  }

  /** Go's len of a string: its length in bytes, not in runes. */
  function ByteLen(s: string): (n: nat)
    ensures n >= |s|
    ensures n == |s| <==> forall i :: 0 <= i < |s| ==> IsAscii(s[i])
  {
    if s == [] then 0 else RuneLen(s[0]) + ByteLen(s[1..])
  }
}
