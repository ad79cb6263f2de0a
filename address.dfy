/** The library coordinate and its mixed-radix integer form: Address and
    Address.String (babel/babel.go:29-39), AddressToBigInt (babel/babel.go:83-89)
    and BigIntToAddress (babel/babel.go:92-117). */
module Addresses {
  import opened Babel
  import opened Results
  import opened Numeral
  import opened BigInts
  import opened Hex

  /** Go's uint32. */
  type U32 = x: int | 0 <= x < 0x1_0000_0000

  const TWO_32: nat := 0x1_0000_0000

  /** The weights of the mixed-radix digits (the products of the constants; Go evaluates
      them as uint32 multiplications from the left, see LowPartStepwise):
      a wall holds SHELVES·VOLUMES·PAGES pages, a shelf VOLUMES·PAGES, a volume PAGES;
      a room (one value of the base-36 part) holds WALLS·SHELVES·VOLUMES·PAGES. */
  const WALL_SPAN: nat := 65600
  const SHELF_SPAN: nat := 13120
  const ROOM: nat := 262400

  lemma Spans()
    ensures WALL_SPAN == SHELVES * VOLUMES * PAGES && SHELF_SPAN == VOLUMES * PAGES
    ensures ROOM == WALLS * SHELVES * VOLUMES * PAGES
  {
  }

  datatype Address = Address(hex: string, wall: U32, shelf: U32, volume: U32, page: U32) {

    /** fmt.Sprintf("%d:%d:%d:%d:%s", Wall, Shelf, Volume, Page, Hex). */
    function String(): string {
      Field(wall, Field(shelf, Field(volume, Field(page, hex))))
    }
  }

  /** One decimal field followed by a colon and the rest of the text. */
  function Field(n: nat, rest: string): string {
    Decimal(n) + ":" + rest
  }

  /** The four bounded fields are below their moduli. */
  predicate InRange(a: Address) {
    a.wall < WALLS && a.shelf < SHELVES && a.volume < VOLUMES && a.page < PAGES
  }

  /** hex is a base-36 numeral with no leading '0', the form ToHex produces. */
  predicate CanonicalHex(hex: string) {
    Over(hex, HEX_SET) && (hex == [] || hex[0] != '0')
  }

  /** The uint32 expression Wall·SHELVES·VOLUMES·PAGES + Shelf·VOLUMES·PAGES + Volume·PAGES + Page,
      which wraps around modulo 2^32; within range it is exact and below ROOM. */
  function LowPart(a: Address): (low: U32)
    ensures InRange(a) ==> low < ROOM
    ensures InRange(a) ==> low == a.wall * WALL_SPAN + a.shelf * SHELF_SPAN + a.volume * PAGES + a.page
  {
    (a.wall * WALL_SPAN + a.shelf * SHELF_SPAN + a.volume * PAGES + a.page) % TWO_32
  }

  /** Go's uint32 multiplication and addition: the exact result modulo 2^32. */
  function Mul32(x: U32, y: U32): U32 {
    (x * y) % TWO_32
  }

  function Add32(x: U32, y: U32): U32 {
    (x + y) % TWO_32
  }

  /** The low part as Go evaluates it: each product from the left, every step wrapping. */
  function LowPartStepwise(a: Address): U32 {
    var w := Mul32(Mul32(Mul32(a.wall, SHELVES), VOLUMES), PAGES);
    var s := Mul32(Mul32(a.shelf, VOLUMES), PAGES);
    var v := Mul32(a.volume, PAGES);
    Add32(Add32(Add32(w, s), v), a.page)
  }

  /** Adding a multiple of m leaves the residue modulo m unchanged. */
  lemma ModShift(x: int, q: int, m: nat)
    requires m > 0
    ensures (x + q * m) % m == x % m
  {
    DivModParts(x, m);
    assert x + q * m == (x / m + q) * m + x % m;
    DivModOfSum(x / m + q, m, x % m);
  }

  /** Reducing an operand of a sum modulo m first does not change the sum's residue. */
  lemma ModAdd(x: int, y: int, m: nat)
    requires m > 0
    ensures (x % m + y) % m == (x + y) % m
    ensures (x % m + y % m) % m == (x + y) % m
  {
    DivModParts(x, m);
    DivModParts(y, m);
    ModShift(x % m + y, x / m, m);
    ModShift(x % m + y % m, y / m, m);
  }

  /** Reducing a factor modulo m first does not change the product's residue. */
  lemma ModMul(x: int, y: int, m: nat)
    requires m > 0
    ensures ((x % m) * y) % m == (x * y) % m
  {
    var q, r := x / m, x % m;
    DivModParts(x, m);
    assert x * y == (q * m + r) * y;
    assert (q * m + r) * y == r * y + (q * y) * m;
    ModShift(r * y, q * y, m);
  }

  /** The wrap-at-every-step arithmetic of line 87 over any modulus m. */
  lemma WrapChain(wall: int, shelf: int, volume: int, page: int, m: nat)
    requires m > 0
    ensures var w := ((((wall * 5) % m) * 32) % m * 410) % m;
            var s := (((shelf * 32) % m) * 410) % m;
            var v := (volume * 410) % m;
            (((w + s) % m + v) % m + page) % m == (wall * 65600 + shelf * 13120 + volume * 410 + page) % m
  {
    var x, y, z := wall * 65600, shelf * 13120, volume * 410;
    var w1 := (((wall * 5) % m) * 32) % m;
    ModMul(wall * 5, 32, m);
    assert w1 == (wall * 160) % m;
    ModMul(wall * 160, 410, m);
    assert (w1 * 410) % m == x % m;
    ModMul(shelf * 32, 410, m);
    assert ((((shelf * 32) % m) * 410) % m) == y % m;
    ModAdd(x, y, m);
    ModAdd(x + y, z, m);
    ModAdd(x + y + z, page, m);
  }

  /** Wrapping at every step of line 87 gives the same uint32 as wrapping the exact sum once. */
  lemma LowPartWraps(a: Address)
    ensures LowPartStepwise(a) == LowPart(a)
  {
    WrapChain(a.wall, a.shelf, a.volume, a.page, TWO_32);
  }

  /** FromHex(Hex)·ROOM + LowPart; FromHex's panic on a rune outside HEX_SET is a failure. */
  function AddressToBigInt(a: Address): (r: Result<int>)
    ensures r.Ok? <==> Over(a.hex, HEX_SET)
    ensures r.Ok? ==> r.value >= 0
    ensures r.Err? ==> r.error.InvalidSymbol? && r.error.symbol !in HEX_SET
  {
    match Decode(a.hex, HEX_SET)
    case Err(e) => Err(e)
    case Ok(s) =>
      ValueNonNegative(a.hex, HEX_SET);
      Ok(s * ROOM + LowPart(a))
  }

  /** The integer of an address whose base-36 part is well formed. */
  lemma AddressValue(a: Address)
    requires Over(a.hex, HEX_SET)
    ensures AddressToBigInt(a).Ok? && AddressToBigInt(a).value == Value(a.hex, HEX_SET) * ROOM + LowPart(a)
  {
  }

  /** The address BigIntToAddress computes: page, volume, shelf and wall are peeled off
      by Euclidean mod and div, in that order, and the rest is written in base 36. */
  function AddressOfInt(v: int): (a: Address)
    ensures InRange(a) && CanonicalHex(a.hex)
  {
    var page := v % PAGES;
    var v1 := v / PAGES;
    var volume := v1 % VOLUMES;
    var v2 := v1 / VOLUMES;
    var shelf := v2 % SHELVES;
    var v3 := v2 / SHELVES;
    var wall := v3 % WALLS;
    var v4 := v3 / WALLS;
    HexSetDistinct();
    EncodeCanonical(v4, HEX_SET);
    EncodeOver(v4, HEX_SET);
    Address(Encode(v4, HEX_SET), wall, shelf, volume, page)
  }

  /** BigIntToAddress divides the caller's big.Int in place and then hands it to
      ToHex, so a non-negative argument is left at 0. */
  method BigIntToAddress(bi: BigInt) returns (a: Address)
    modifies bi
    ensures a == AddressOfInt(old(bi.value))
    ensures old(bi.value) >= 0 ==> bi.value == 0
    ensures old(bi.value) < 0 ==> bi.value == old(bi.value) / PAGES / VOLUMES / SHELVES / WALLS
  {
    var page := bi.value % PAGES;
    bi.value := bi.value / PAGES;

    var volume := bi.value % VOLUMES;
    bi.value := bi.value / VOLUMES;

    var shelf := bi.value % SHELVES;
    bi.value := bi.value / SHELVES;

    var wall := bi.value % WALLS;
    bi.value := bi.value / WALLS;

    var hex := ToHex(bi);
    a := Address(hex, wall, shelf, volume, page);
  }

  /** Peeling page, volume, shelf and wall off v and recombining them gives v back. */
  lemma MixedRadixSplit(v: int)
    ensures var x1 := v / 410; var x2 := x1 / 32; var x3 := x2 / 5;
            v == (x3 / 4) * 262400 + (x3 % 4) * 65600 + (x2 % 5) * 13120 + (x1 % 32) * 410 + v % 410
  {
    var x1 := v / 410;
    var x2 := x1 / 32;
    var x3 := x2 / 5;
    DivModParts(v, 410);
    DivModParts(x1, 32);
    DivModParts(x2, 5);
    DivModParts(x3, 4);
  }

  /** Combining in-range digits and peeling them off again gives the same digits. */
  lemma MixedRadixJoin(v: int, q: int, w: int, s: int, vol: int, p: int)
    requires 0 <= w < 4 && 0 <= s < 5 && 0 <= vol < 32 && 0 <= p < 410
    requires v == q * 262400 + w * 65600 + s * 13120 + vol * 410 + p
    ensures var x1 := v / PAGES; var x2 := x1 / VOLUMES; var x3 := x2 / SHELVES;
            v % PAGES == p && x1 % VOLUMES == vol && x2 % SHELVES == s && x3 % WALLS == w && x3 / WALLS == q
  {
    var x3 := q * 4 + w;
    var x2 := x3 * 5 + s;
    var x1 := x2 * 32 + vol;
    assert v == x1 * 410 + p;
    DivModOfSum(x1, 410, p);
    DivModOfSum(x2, 32, vol);
    DivModOfSum(x3, 5, s);
    DivModOfSum(q, 4, w);
  }

  /** For every v >= 0, AddressToBigInt(BigIntToAddress(v)) == v. */
  lemma IntToAddressToInt(v: int)
    requires v >= 0
    ensures AddressToBigInt(AddressOfInt(v)).Ok? && AddressToBigInt(AddressOfInt(v)).value == v
  {
    var a := AddressOfInt(v);
    var x1 := v / PAGES;
    var x2 := x1 / VOLUMES;
    var x3 := x2 / SHELVES;
    var q := x3 / WALLS;
    assert a == Address(Encode(q, HEX_SET), x3 % WALLS, x2 % SHELVES, x1 % VOLUMES, v % PAGES);
    MixedRadixSplit(v);
    assert v == q * ROOM + LowPart(a);
    HexSetDistinct();
    ValueOfEncode(q, HEX_SET);
    AddressValue(a);
  }

  /** The address of a value assembled from in-range digits has exactly those digits. */
  lemma AddressOfDigits(v: int, q: int, w: U32, s: U32, vol: U32, p: U32)
    requires w < 4 && s < 5 && vol < 32 && p < 410
    requires v == q * 262400 + w * 65600 + s * 13120 + vol * 410 + p
    ensures AddressOfInt(v) == Address(Encode(q, HEX_SET), w, s, vol, p)
  {
    MixedRadixJoin(v, q, w, s, vol, p);
  }

  /** BigIntToAddress(AddressToBigInt(a)) == a for an address with in-range fields
      and a canonical base-36 part. */
  lemma AddressToIntToAddress(a: Address)
    requires InRange(a) && CanonicalHex(a.hex)
    ensures AddressToBigInt(a).Ok? && AddressOfInt(AddressToBigInt(a).value) == a
  {
    var q := Value(a.hex, HEX_SET);
    AddressValue(a);
    var v := AddressToBigInt(a).value;
    assert v == q * 262400 + a.wall * 65600 + a.shelf * 13120 + a.volume * 410 + a.page;
    AddressOfDigits(v, q, a.wall, a.shelf, a.volume, a.page);
    HexSetDistinct();
    EncodeOfValue(a.hex, HEX_SET);
  }
}
