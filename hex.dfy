/** The base-36 codec of the free-form address part: ToHex and FromHex
    (babel/babel.go:146-171). */
module Hex {
  import opened Babel
  import opened Results
  import opened Numeral
  import opened BigInts

  /** One division step of ToHex: the last symbol of the numeral of a positive v is
      its remainder modulo 36 (len(HEX_SET)). */
  lemma HexEncodeStep(v: int)
    requires v > 0
    ensures Encode(v, HEX_SET) == Encode(v / 36, HEX_SET) + [HEX_SET[v % 36]]
  {
    HexSetDistinct();
  }

  /** One step of FromHex: a symbol of HEX_SET appended to a base-36 numeral. */
  lemma HexValueStep(r: seq<char>, i: nat)
    requires i < |r| && Over(r[..i], HEX_SET) && r[i] in HEX_SET
    ensures Over(r[..i + 1], HEX_SET)
    ensures Value(r[..i + 1], HEX_SET) == Value(r[..i], HEX_SET) * 36 + IndexOf(HEX_SET, r[i])
  {
    assert r[..i + 1] == r[..i] + [r[i]];
    OverSnoc(r[..i], r[i], HEX_SET);
    ValueSnoc(r[..i], r[i], HEX_SET);
    HexSetDistinct();
  }

  /** ToHex divides its argument by 36 in place until it is no longer positive,
      prepending one symbol per step; the caller's big.Int ends at 0. */
  method ToHex(bi: BigInt) returns (res: seq<char>)
    modifies bi
    ensures res == Encode(old(bi.value), HEX_SET)
    ensures bi.value == if old(bi.value) > 0 then 0 else old(bi.value)
  {
    var base := 36;
    res := [];
    while bi.value > 0
      invariant Encode(bi.value, HEX_SET) + res == Encode(old(bi.value), HEX_SET)
      invariant old(bi.value) > 0 ==> bi.value >= 0
      invariant old(bi.value) <= 0 ==> bi.value == old(bi.value)
      decreases bi.value
    {
      var v := bi.value;
      var mod := v % base;
      bi.value := v / base;
      HexEncodeStep(v);
      res := [HEX_SET[mod]] + res;
    }
  }

  /** FromHex reads r as a base-36 numeral; a rune outside HEX_SET, where Go panics,
      is an InvalidSymbol failure naming the first such rune. */
  method FromHex(r: seq<char>) returns (result: Result<int>)
    ensures result == Decode(r, HEX_SET)
  {
    var base := 36;
    var bi := 0;
    for i := 0 to |r|
      invariant Over(r[..i], HEX_SET) && bi == Value(r[..i], HEX_SET)
    {
      var index := IndexOf(HEX_SET, r[i]);
      if index == -1 {
        FirstMissingUnique(r, HEX_SET, i);
        return Err(InvalidSymbol(r[i]));
      }
      HexValueStep(r, i);
      bi := bi * base + index;
    }
    assert r[..|r|] == r;
    return Ok(bi);
  }
}
