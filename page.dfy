/** Page generation: GeneratePage (babel/babel.go:42-80), RotateBigInt
    (babel/babel.go:174-180) and shuffleRunes (babel/babel.go:182-191).
    SHA-256 over big.Int.Bytes and the math/rand generator are parameters. */
module Pages {
  import opened Babel
  import opened Results
  import opened BigInts
  import opened Addresses

  const TWO_63: int := 0x8000_0000_0000_0000
  const TWO_64: int := 0x1_0000_0000_0000_0000
  const TWO_256: nat := 0x1_0000_0000_0000_0000_0000_0000_0000_0000_0000_0000_0000_0000_0000_0000_0000_0000

  /** A SHA-256 digest read as a big-endian unsigned integer (big.Int.SetBytes). */
  type Digest = d: nat | d < TWO_256

  /** sha256.Sum256 of the minimal big-endian bytes of a non-negative integer; distinct
      integers have distinct bytes, so a function of the integer stands for it. */
  type Hash = nat -> Digest

  /** The digest of the address integer n: sha256.Sum256(n.Bytes()) read back by SetBytes. */
  function Sum256(sha: Hash, n: nat): Digest {
    sha(n)
  }

  /** rand.New(rand.NewSource(seed)).Intn: each call of shuffleRunes passes a different
      bound, so a function of seed and bound stands for any stream of draws. */
  type Draw = (int, nat) -> nat

  /** The draw r.Intn(n) of the generator seeded with seed. */
  function Intn(intn: Draw, seed: int, n: nat): nat {
    intn(seed, n)
  }

  /** Intn(n) lies in [0, n) for every positive n. */
  ghost predicate ValidDraw(intn: Draw) {
    forall seed: int, n: nat :: 0 < n ==> Intn(intn, seed, n) < n
  }

  /** big.Int.Int64: the low 64 bits read as a two's-complement int64. */
  function Int64(x: int): (s: int)
    ensures -TWO_63 <= s < TWO_63
    ensures (x - s) % TWO_64 == 0
  {
    var low := x % TWO_64;
    if low >= TWO_63 then low - TWO_64 else low
  }

  /** The value RotateBigInt returns. Its first statement reduces bi modulo bitLen in
      place, so the shifts and the Or act on that residue r, not on the original:
      (r << r) | (r >> (bitLen - r)). The modulus is Euclidean, as big.Int.Mod is; a
      negative bitLen - r becomes a uint of at least 2^63, a shift that leaves nothing. */
  function Rotated(v: int, bitLen: int): (rotated: nat)
    requires bitLen != 0
    ensures Lsh(v % bitLen, v % bitLen) <= rotated
    ensures rotated == 0 <==> v % bitLen == 0
  {
    var r: nat := v % bitLen;
    var shift := bitLen - r;
    Or(Lsh(r, r), if shift >= 0 then Rsh(r, shift) else 0)
  }

  /** RotateBigInt(bi, bitLen): bi is left holding bi mod bitLen and a fresh big.Int holds
      the rotation; a zero bitLen panics in big.Int.Mod, which is a failure here. */
  method RotateBigInt(bi: BigInt, bitLen: int) returns (rotated: Result<BigInt>)
    modifies bi
    ensures rotated.Err? <==> bitLen == 0
    ensures rotated.Err? ==> rotated.error == DivisionByZero && bi.value == old(bi.value)
    ensures rotated.Ok? ==> bi.value == old(bi.value) % bitLen && fresh(rotated.value)
    ensures rotated.Ok? ==> rotated.value.value == Rotated(old(bi.value), bitLen)
  {
    if bitLen == 0 {
      return Err(DivisionByZero);
    }
    ghost var v := bi.value;
    bi.value := bi.value % bitLen;
    var rotationAmount: nat := bi.value;
    var shifted := Lsh(bi.value, rotationAmount);
    var msb := if bitLen - rotationAmount >= 0 then Rsh(bi.value, bitLen - rotationAmount) else 0;
    var result := new BigInt(Or(shifted, msb));
    assert result.value == Rotated(v, bitLen);
    return Ok(result);
  }

  /** A rotation depends on its argument only through the residue modulo bitLen. */
  lemma RotatedOfResidue(v: int, w: int, bitLen: int)
    requires bitLen != 0 && v % bitLen == w % bitLen
    ensures Rotated(v, bitLen) == Rotated(w, bitLen)
  {
  }

  /** The value of bi in GeneratePage after k rotations of the digest d. */
  function Stream(d: nat, bitLen: int, k: nat): (v: nat)
    requires bitLen != 0 || k == 0
  {
    if k == 0 then d else Rotated(Stream(d, bitLen, k - 1), bitLen)
  }

  /** The first n symbols GeneratePage appends: symbol k is the k-th stream value modulo
      29, the length of BABEL_SET. */
  function Letters(d: nat, bitLen: int, n: nat): (page: seq<char>)
    requires bitLen != 0 || n <= 1
    ensures |page| == n
  {
    if n == 0 then []
    else Letters(d, bitLen, n - 1) + [BABEL_SET[Stream(d, bitLen, n - 1) % 29]]
  }

  /** Symbol k of the letters is the k-th stream value modulo 29, read in BABEL_SET. */
  lemma {:induction false} LettersAt(d: nat, bitLen: int, n: nat, k: nat)
    requires bitLen != 0 || n <= 1
    requires k < n
    ensures Letters(d, bitLen, n)[k] == BABEL_SET[Stream(d, bitLen, k) % 29]
  {
    var prefix := Letters(d, bitLen, n - 1);
    var last := BABEL_SET[Stream(d, bitLen, n - 1) % 29];
    assert Letters(d, bitLen, n) == prefix + [last];
    if k < n - 1 {
      LettersAt(d, bitLen, n - 1, k);
      assert (prefix + [last])[k] == prefix[k];
    }
  }

  /** Every symbol GeneratePage appends is in BABEL_SET. */
  lemma LettersOver(d: nat, bitLen: int, n: nat)
    requires bitLen != 0 || n <= 1
    ensures Over(Letters(d, bitLen, n), BABEL_SET)
  {
    var page := Letters(d, bitLen, n);
    forall k | 0 <= k < n
      ensures page[k] in BABEL_SET
    {
      var idx := Stream(d, bitLen, k) % 29;
      LettersAt(d, bitLen, n, k);
      assert page[k] == BABEL_SET[idx];
    }
  }

  /** s with the symbols at i and j exchanged. */
  function Swap(s: seq<char>, i: nat, j: nat): (r: seq<char>)
    requires i < |s| && j < |s|
    ensures |r| == |s| && r[i] == s[j] && r[j] == s[i]
    ensures forall k :: 0 <= k < |s| && k != i && k != j ==> r[k] == s[k]
  {
    s[i := s[j]][j := s[i]]
  }

  /** An exchange keeps the multiset of symbols. */
  lemma SwapPermutes(s: seq<char>, i: nat, j: nat)
    requires i < |s| && j < |s|
    ensures multiset(Swap(s, i, j)) == multiset(s)
  {
    var t := s[i := s[j]];
    assert multiset(t) == multiset(s) - multiset{s[i]} + multiset{s[j]};
    assert multiset(t[j := s[i]]) == multiset(t) - multiset{t[j]} + multiset{s[i]};
  }

  /** The Fisher-Yates passes of shuffleRunes for the indices i down to 1, the draw at
      index i being Intn(i + 1); the result is a permutation of s. */
  function FisherYates(s: seq<char>, i: int, seed: int, intn: Draw): (r: seq<char>)
    requires i < |s| && ValidDraw(intn)
    ensures |r| == |s|
    decreases i
  {
    if i <= 0 then s
    else FisherYates(Swap(s, i, Intn(intn, seed, i + 1)), i - 1, seed, intn)
  }

  /** The shuffle is a permutation of its input. */
  lemma {:induction false} FisherYatesPermutes(s: seq<char>, i: int, seed: int, intn: Draw)
    requires i < |s| && ValidDraw(intn)
    ensures multiset(FisherYates(s, i, seed, intn)) == multiset(s)
    decreases i
  {
    if i > 0 {
      var j := Intn(intn, seed, i + 1);
      SwapPermutes(s, i, j);
      FisherYatesPermutes(Swap(s, i, j), i - 1, seed, intn);
    }
  }

  /** One pass of the shuffle: index i is exchanged with the draw Intn(i + 1). */
  lemma FisherYatesStep(s: seq<char>, i: int, seed: int, intn: Draw)
    requires 0 < i < |s| && ValidDraw(intn)
    ensures Intn(intn, seed, i + 1) <= i
    ensures FisherYates(s, i, seed, intn) == FisherYates(Swap(s, i, Intn(intn, seed, i + 1)), i - 1, seed, intn)
  {
  }

  /** shuffleRunes: the Fisher-Yates shuffle in place, seeded with bi.Int64(). */
  method ShuffleRunes(runes: array<char>, bi: BigInt, intn: Draw)
    requires ValidDraw(intn)
    modifies runes
    ensures runes[..] == FisherYates(old(runes[..]), runes.Length - 1, Int64(bi.value), intn)
  {
    var seed := Int64(bi.value);
    ghost var shuffled := FisherYates(runes[..], runes.Length - 1, seed, intn);
    var i := runes.Length - 1;
    while i > 0
      invariant -1 <= i < runes.Length
      invariant FisherYates(runes[..], i, seed, intn) == shuffled
      decreases i
    {
      var j := Intn(intn, seed, i + 1);
      assert j <= i;
      ghost var before := runes[..];
      FisherYatesStep(before, i, seed, intn);
      runes[i], runes[j] := runes[j], runes[i];
      assert runes[..] == Swap(before, i, j);
      i := i - 1;
    }
  }

  /** The []rune slice holding the runes of s, in a fresh backing array. */
  method RuneSlice(s: seq<char>) returns (runes: array<char>)
    ensures fresh(runes) && runes[..] == s
  {
    runes := new char[|s|](k requires 0 <= k < |s| => s[k]);
  }

  /** The page of a non-zero digest d: PAGE_LENGTH letters of the rotation stream, shuffled
      with the seed taken from the value left after the last rotation. */
  function PageOf(d: nat, intn: Draw): (page: seq<char>)
    requires d > 0 && ValidDraw(intn)
  {
    var bitLen := BitLen(d);
    FisherYates(Letters(d, bitLen, PAGE_LENGTH), PAGE_LENGTH - 1, Int64(Stream(d, bitLen, PAGE_LENGTH)), intn)
  }

  /** What GeneratePage returns: the five range checks in source order, then the panic of
      FromHex on a rune outside HEX_SET, then the panic of RotateBigInt on a zero digest. */
  function GeneratedPage(addr: Address, sha: Hash, intn: Draw): Result<seq<char>>
    requires ValidDraw(intn)
  {
    if addr.wall >= WALLS then Err(WallOutOfRange)
    else if addr.shelf >= SHELVES then Err(ShelfOutOfRange)
    else if addr.volume >= VOLUMES then Err(VolumeOutOfRange)
    else if addr.page >= PAGES then Err(PageOutOfRange)
    else if ByteLen(addr.hex) > MAX_HEX_LEN then Err(HexTooLong)
    else
      var n := AddressToBigInt(addr);
      if n.Err? then Err(n.error)
      else if Sum256(sha, n.value) == 0 then Err(DivisionByZero)
      else Ok(PageOf(Sum256(sha, n.value), intn))
  }

  /** The extraction loop of GeneratePage (babel/babel.go:64-73): bitLen is the bit
      length of the digest, and PAGE_LENGTH times the symbol of bi mod 29 is appended
      and bi replaced by RotateBigInt(bi, bitLen); with a zero digest the first
      rotation panics. bi is the big.Int left after the last rotation. */
  method ExtractLetters(digest: nat) returns (letters: Result<seq<char>>, bi: BigInt)
    ensures letters.Err? <==> digest == 0
    ensures letters.Err? ==> letters.error == DivisionByZero
    ensures letters.Ok? ==> letters.value == Letters(digest, BitLen(digest), PAGE_LENGTH)
    ensures letters.Ok? ==> bi.value == Stream(digest, BitLen(digest), PAGE_LENGTH)
    ensures fresh(bi)
  {
    bi := new BigInt(digest);
    var bitLen := BitLen(digest);
    var page: seq<char> := [];
    var base := 29;
    for i := 0 to PAGE_LENGTH
      invariant bitLen == 0 ==> i == 0
      invariant page == Letters(digest, bitLen, i)
      invariant bi.value == Stream(digest, bitLen, i)
      invariant fresh(bi)
    {
      var letterIdx := bi.value % base;
      page := page + [BABEL_SET[letterIdx]];
      var rotated := RotateBigInt(bi, bitLen);
      if rotated.Err? {
        return Err(rotated.error), bi;
      }
      bi := rotated.value;
    }
    return Ok(page), bi;
  }

  /** GeneratePage: validate, hash, extract PAGE_LENGTH symbols with a rotation after
      each, then shuffle. */
  method GeneratePage(addr: Address, sha: Hash, intn: Draw) returns (result: Result<seq<char>>)
    requires ValidDraw(intn)
    ensures result == GeneratedPage(addr, sha, intn)
  {
    if addr.wall >= WALLS {
      return Err(WallOutOfRange);
    }
    if addr.shelf >= SHELVES {
      return Err(ShelfOutOfRange);
    }
    if addr.volume >= VOLUMES {
      return Err(VolumeOutOfRange);
    }
    if addr.page >= PAGES {
      return Err(PageOutOfRange);
    }
    if ByteLen(addr.hex) > MAX_HEX_LEN {
      return Err(HexTooLong);
    }
    var n := AddressToBigInt(addr);
    if n.Err? {
      return Err(n.error);
    }
    var digest := Sum256(sha, n.value);
    var letters, bi := ExtractLetters(digest);
    if letters.Err? {
      return Err(letters.error);
    }
    var runes := RuneSlice(letters.value);
    ShuffleRunes(runes, bi, intn);
    return Ok(runes[..]);
  }

  /** The outcome of GeneratePage: exactly one check fails first, in the order of the
      source, and a page comes out exactly when every check passes. */
  lemma GeneratePageErrors(addr: Address, sha: Hash, intn: Draw)
    requires ValidDraw(intn)
    ensures var r := GeneratedPage(addr, sha, intn);
      (r.Err? && r.error.WallOutOfRange? <==> addr.wall >= WALLS) &&
      (r.Err? && r.error.ShelfOutOfRange? <==> addr.wall < WALLS && addr.shelf >= SHELVES) &&
      (r.Err? && r.error.VolumeOutOfRange? <==>
         addr.wall < WALLS && addr.shelf < SHELVES && addr.volume >= VOLUMES) &&
      (r.Err? && r.error.PageOutOfRange? <==>
         addr.wall < WALLS && addr.shelf < SHELVES && addr.volume < VOLUMES && addr.page >= PAGES) &&
      (r.Err? && r.error.HexTooLong? <==> InRange(addr) && ByteLen(addr.hex) > MAX_HEX_LEN) &&
      (r.Err? && r.error.InvalidSymbol? <==>
         InRange(addr) && ByteLen(addr.hex) <= MAX_HEX_LEN && !Over(addr.hex, HEX_SET)) &&
      (r.Err? && r.error.DivisionByZero? <==>
         InRange(addr) && ByteLen(addr.hex) <= MAX_HEX_LEN && AddressToBigInt(addr).Ok? &&
         Sum256(sha, AddressToBigInt(addr).value) == 0) &&
      (r.Err? ==> !r.error.EmptyOffsetRange?)
  {
  }

  /** A page is PAGE_LENGTH symbols of BABEL_SET, a permutation of the letters the
      rotation stream produced. */
  lemma PageShape(d: nat, intn: Draw)
    requires d > 0 && ValidDraw(intn)
    ensures |PageOf(d, intn)| == PAGE_LENGTH
    ensures multiset(PageOf(d, intn)) == multiset(Letters(d, BitLen(d), PAGE_LENGTH))
    ensures Over(PageOf(d, intn), BABEL_SET)
  {
    var bitLen := BitLen(d);
    var letters := Letters(d, bitLen, PAGE_LENGTH);
    FisherYatesPermutes(letters, PAGE_LENGTH - 1, Int64(Stream(d, bitLen, PAGE_LENGTH)), intn);
    LettersOver(d, bitLen, PAGE_LENGTH);
    OverPermutation(letters, PageOf(d, intn), BABEL_SET);
  }

  /** A successful GeneratePage returns the page of the digest of AddressToBigInt. */
  lemma GeneratedPageShape(addr: Address, sha: Hash, intn: Draw)
    requires ValidDraw(intn)
    ensures var r := GeneratedPage(addr, sha, intn);
      r.Ok? ==> AddressToBigInt(addr).Ok? && Sum256(sha, AddressToBigInt(addr).value) > 0 &&
                r.value == PageOf(Sum256(sha, AddressToBigInt(addr).value), intn) &&
                |r.value| == PAGE_LENGTH && Over(r.value, BABEL_SET)
  {
    var r := GeneratedPage(addr, sha, intn);
    if r.Ok? {
      PageShape(Sum256(sha, AddressToBigInt(addr).value), intn);
    }
  }

  /** After the first rotation the stream depends on the digest only through its residue
      modulo bitLen, because RotateBigInt rotates the residue. */
  lemma {:induction false} StreamOfResidue(d: nat, e: nat, bitLen: int, k: nat)
    requires bitLen != 0 && d % bitLen == e % bitLen && k >= 1
    ensures Stream(d, bitLen, k) == Stream(e, bitLen, k)
  {
    if k == 1 {
      RotatedOfResidue(d, e, bitLen);
    } else {
      StreamOfResidue(d, e, bitLen, k - 1);
    }
  }

  /** The letters depend on the digest only through its residues modulo 29 and bitLen. */
  lemma {:induction false} LettersOfResidues(d: nat, e: nat, bitLen: int, n: nat)
    requires bitLen != 0 && d % bitLen == e % bitLen && d % 29 == e % 29
    ensures Letters(d, bitLen, n) == Letters(e, bitLen, n)
  {
    if n > 0 {
      LettersOfResidues(d, e, bitLen, n - 1);
      BabelSetDistinct();
      if n > 1 {
        StreamOfResidue(d, e, bitLen, n - 1);
      }
    }
  }

  /** Two digests of the same bit length with the same residues modulo 29 and modulo that
      bit length give the same page: for each bit length there are at most 29 times as
      many pages as bits. */
  lemma PageDeterminedByResidues(d: nat, e: nat, intn: Draw)
    requires d > 0 && e > 0 && ValidDraw(intn)
    requires BitLen(d) == BitLen(e) && d % BitLen(d) == e % BitLen(e) && d % 29 == e % 29
    ensures PageOf(d, intn) == PageOf(e, intn)
  {
    var bitLen := BitLen(d);
    LettersOfResidues(d, e, bitLen, PAGE_LENGTH);
    StreamOfResidue(d, e, bitLen, PAGE_LENGTH);
  }

  /** A residue of 0 is a fixed point of the rotation. */
  lemma {:induction false} StreamAbsorbed(d: nat, bitLen: int, k: nat)
    requires bitLen != 0 && d % bitLen == 0 && k >= 1
    ensures Stream(d, bitLen, k) == 0
  {
    var prev := Stream(d, bitLen, k - 1);
    if k > 1 {
      StreamAbsorbed(d, bitLen, k - 1);
      assert prev % bitLen == 0;
    }
    assert Stream(d, bitLen, k) == Rotated(prev, bitLen);
  }

  /** Symbol k of the letters of a digest divisible by its bit length. */
  lemma DivisibleDigestLetterAt(d: nat, bitLen: int, n: nat, k: nat)
    requires bitLen != 0 && d % bitLen == 0 && k < n
    ensures Letters(d, bitLen, n)[k] == if k == 0 then BABEL_SET[d % 29] else ' '
  {
    LettersAt(d, bitLen, n, k);
    if k > 0 {
      StreamAbsorbed(d, bitLen, k);
    }
  }

  /** A digest divisible by its bit length yields one letter followed by spaces only. */
  lemma DivisibleDigestLetters(d: nat, n: nat)
    requires d > 0 && d % BitLen(d) == 0 && n >= 1
    ensures Letters(d, BitLen(d), n) == [BABEL_SET[d % 29]] + Spaces(n - 1)
  {
    var bitLen := BitLen(d);
    var page := Letters(d, bitLen, n);
    var expected := [BABEL_SET[d % 29]] + Spaces(n - 1);
    forall k | 0 <= k < n
      ensures page[k] == expected[k]
    {
      DivisibleDigestLetterAt(d, bitLen, n, k);
    }
  }
}
