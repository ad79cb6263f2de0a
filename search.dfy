/** Reverse addressing: Search (babel/babel.go:119-143). The offset that crypto/rand
    draws is a parameter. */
module ReverseSearch {
  import opened Babel
  import opened Results
  import opened Numeral
  import opened BigInts
  import opened Addresses

  /** The offsets crand.Int may return for max = PAGE_LENGTH - len(content): [0, max). */
  predicate Admissible(content: string, offset: nat) {
    ByteLen(content) < PAGE_LENGTH && offset < PAGE_LENGTH - ByteLen(content)
  }

  /** The content between padBeforeLen = offset spaces and
      padAfterLen = PAGE_LENGTH - offset - len(content) spaces. */
  function Padded(content: string, offset: nat): string
    requires Admissible(content, offset)
  {
    Spaces(offset) + content + Spaces(PAGE_LENGTH - offset - ByteLen(content))
  }

  /** Search(content) with the random offset given: a content of PAGE_LENGTH bytes or more
      makes crand.Int panic (its bound is not positive), which is a failure here. */
  method Search(content: string, offset: nat) returns (result: Result<Address>)
    requires ByteLen(content) < PAGE_LENGTH ==> Admissible(content, offset)
    ensures ByteLen(content) >= PAGE_LENGTH ==> result.Err? && result.error.EmptyOffsetRange?
    ensures ByteLen(content) < PAGE_LENGTH ==>
      result.Ok? && result.value == AddressOfInt(Value(Padded(content, offset), BABEL_SET))
  {
    var max := PAGE_LENGTH - ByteLen(content);
    if max <= 0 {
      return Err(EmptyOffsetRange);
    }
    var padBeforeLen := offset;
    var paddedContent := Padded(content, padBeforeLen);
    var bi := new BigInt(0);
    var base := 29;
    for i := 0 to |paddedContent|
      invariant bi.value == Value(paddedContent[..i], BABEL_SET)
      modifies bi
    {
      var c := paddedContent[i];
      BabelValueStep(paddedContent, i);
      bi.value := bi.value * base + IndexOf(BABEL_SET, c);
    }
    assert paddedContent[..|paddedContent|] == paddedContent;
    var addr := BigIntToAddress(bi);
    return Ok(addr);
  }

  /** One step of the base-29 reading of s. */
  lemma BabelValueStep(s: string, i: nat)
    requires i < |s|
    ensures Value(s[..i + 1], BABEL_SET) == Value(s[..i], BABEL_SET) * 29 + IndexOf(BABEL_SET, s[i])
  {
    assert s[..i + 1] == s[..i] + [s[i]];
    ValueSnoc(s[..i], s[i], BABEL_SET);
    BabelSetDistinct();
  }

  /** The padded text holds the content at the offset and spaces everywhere else; for
      content in BABEL_SET it is exactly PAGE_LENGTH symbols. */
  lemma PaddedText(content: string, offset: nat)
    requires Admissible(content, offset)
    ensures var p := Padded(content, offset);
      |p| == PAGE_LENGTH - ByteLen(content) + |content| &&
      p[offset..offset + |content|] == content &&
      (forall i :: 0 <= i < offset ==> p[i] == ' ') &&
      (forall i :: offset + |content| <= i < |p| ==> p[i] == ' ')
    ensures Over(content, BABEL_SET) ==> |Padded(content, offset)| == PAGE_LENGTH
  {
    var p := Padded(content, offset);
    assert p[offset..offset + |content|] == content;
    if Over(content, BABEL_SET) {
      BabelSetAscii();
      OverAscii(content, BABEL_SET);
    }
  }

  /** Padding a text over BABEL_SET keeps it over BABEL_SET. */
  lemma PaddedOver(content: string, offset: nat)
    requires Admissible(content, offset) && Over(content, BABEL_SET)
    ensures Over(Padded(content, offset), BABEL_SET)
  {
    var p := Padded(content, offset);
    PaddedText(content, offset);
    forall i | 0 <= i < |p|
      ensures p[i] in BABEL_SET
    {
      if offset <= i < offset + |content| {
        assert p[i] == content[i - offset];
      } else {
        assert p[i] == BABEL_SET[0];
      }
    }
  }

  /** The address Search finds for a text over BABEL_SET passes every check of
      GeneratePage on the address: fields in range, a base-36 part of at most
      PAGE_LENGTH symbols (so never longer than MAX_HEX_LEN), all in HEX_SET. */
  lemma SearchAddressAccepted(content: string, offset: nat)
    requires Admissible(content, offset) && Over(content, BABEL_SET)
    ensures var a := AddressOfInt(Value(Padded(content, offset), BABEL_SET));
      InRange(a) && CanonicalHex(a.hex) && ByteLen(a.hex) <= PAGE_LENGTH <= MAX_HEX_LEN
  {
    var p := Padded(content, offset);
    var n := |p|;
    PaddedText(content, offset);
    PaddedOver(content, offset);
    var v := Value(p, BABEL_SET);
    BabelSetDistinct();
    HexSetDistinct();
    ValueRange(p, BABEL_SET);
    PowMonotone(29, 36, n);
    var a := AddressOfInt(v);
    var q := v / PAGES / VOLUMES / SHELVES / WALLS;
    assert a.hex == Encode(q, HEX_SET);
    assert 0 <= q <= v;
    EncodeLength(q, HEX_SET, n);
    HexSetAscii();
    OverAscii(a.hex, HEX_SET);
  }

  /** For texts over BABEL_SET the address Search finds encodes the whole padded page:
      reading it back with AddressToBigInt gives the page's base-29 value, and two
      searches that find the same address padded to the same page. */
  lemma SearchEncodesText(c1: string, o1: nat, c2: string, o2: nat)
    requires Admissible(c1, o1) && Over(c1, BABEL_SET)
    requires Admissible(c2, o2) && Over(c2, BABEL_SET)
    ensures var a1 := AddressOfInt(Value(Padded(c1, o1), BABEL_SET));
      AddressToBigInt(a1).Ok? && AddressToBigInt(a1).value == Value(Padded(c1, o1), BABEL_SET)
    ensures AddressOfInt(Value(Padded(c1, o1), BABEL_SET)) == AddressOfInt(Value(Padded(c2, o2), BABEL_SET))
      ==> Padded(c1, o1) == Padded(c2, o2)
  {
    var p1, p2 := Padded(c1, o1), Padded(c2, o2);
    var v1, v2 := Value(p1, BABEL_SET), Value(p2, BABEL_SET);
    PaddedText(c1, o1);
    PaddedText(c2, o2);
    PaddedOver(c1, o1);
    PaddedOver(c2, o2);
    ValueNonNegative(p1, BABEL_SET);
    ValueNonNegative(p2, BABEL_SET);
    IntToAddressToInt(v1);
    IntToAddressToInt(v2);
    if AddressOfInt(v1) == AddressOfInt(v2) {
      ValueInjective(p1, p2, BABEL_SET);
    }
  }
}
