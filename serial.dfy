/** The text form of an address, "wall:shelf:volume:page:hex" (babel/babel.go:37-39), and
    a reader for it that shows the form loses nothing. */
module Serial {
  import opened Babel
  import opened Results
  import opened Numeral
  import opened Addresses

  /** A leading decimal field of s ended by ':', and the text after the colon. */
  function SplitField(s: string): (r: Option<(nat, string)>)
    ensures r.Some? ==> |r.value.1| < |s|
  {
    var i := IndexOf(s, ':');
    if i <= 0 || !Over(s[..i], DECIMAL) then None
    else
      ValueNonNegative(s[..i], DECIMAL);
      Some((Value(s[..i], DECIMAL), s[i + 1..]))
  }

  /** A decimal field that fits in a uint32. */
  function SplitU32(s: string): (r: Option<(U32, string)>)
  {
    match SplitField(s)
    case None => None
    case Some((n, rest)) => if n < TWO_32 then Some((n as U32, rest)) else None
  }

  /** Four uint32 fields, each followed by ':', then the base-36 part taken as it is. */
  function ParseAddress(s: string): (r: Option<Address>)
  {
    match SplitU32(s)
    case None => None
    case Some((wall, s1)) =>
      match SplitU32(s1)
      case None => None
      case Some((shelf, s2)) =>
        match SplitU32(s2)
        case None => None
        case Some((volume, s3)) =>
          match SplitU32(s3)
          case None => None
          case Some((page, hex)) => Some(Address(hex, wall, shelf, volume, page))
  }

  /** The field written by Field(n, rest) reads back as n followed by rest: the decimal
      numeral has no colon, so the first colon is the one Sprintf put after it. */
  lemma FieldSplit(n: nat, rest: string)
    ensures SplitField(Field(n, rest)).Some?
    ensures SplitField(Field(n, rest)).value.0 == n && SplitField(Field(n, rest)).value.1 == rest
  {
    var digits := Decimal(n);
    var s := Field(n, rest);
    DecimalValue(n);
    DecimalDistinct();
    assert s == digits + [':'] + rest;
    assert ':' !in digits;
    IndexOfAfter(digits, ':', rest);
    var i := IndexOf(s, ':');
    assert s[..i] == digits && s[i + 1..] == rest;
    assert SplitField(s) == Some((Value(digits, DECIMAL), rest));
  }

  /** The same for a field that fits in a uint32. */
  lemma FieldSplitU32(n: U32, rest: string)
    ensures SplitU32(Field(n, rest)).Some?
    ensures SplitU32(Field(n, rest)).value.0 == n && SplitU32(Field(n, rest)).value.1 == rest
  {
    FieldSplit(n, rest);
  }

  /** Reading the text of an address gives the address back. */
  lemma ParseString(a: Address)
    ensures ParseAddress(a.String()).Some? && ParseAddress(a.String()).value == a
  {
    var s3 := Field(a.page, a.hex);
    var s2 := Field(a.volume, s3);
    var s1 := Field(a.shelf, s2);
    FieldSplitU32(a.wall, s1);
    FieldSplitU32(a.shelf, s2);
    FieldSplitU32(a.volume, s3);
    FieldSplitU32(a.page, a.hex);
  }

  /** Distinct addresses have distinct texts. */
  lemma StringInjective(a: Address, b: Address)
    requires a.String() == b.String()
    ensures a == b
  {
    ParseString(a);
    ParseString(b);
  }
}
