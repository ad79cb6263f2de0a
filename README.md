# LOBFS babel: a Dafny model of the Library-of-Babel codec

The `babel` package of LOBFS maps a library coordinate to a page of text and back.
A coordinate is an `Address`: four bounded `uint32` fields (wall, shelf, volume, page) and
a free-form base-36 part `Hex`. The package has two directions:

- **GeneratePage** checks the address, turns it into one big integer, hashes that integer
  with SHA-256 and, starting from the digest, extracts `PAGE_LENGTH` = 3200 symbols of
  the 29-symbol page alphabet. After each symbol it replaces the value by `RotateBigInt`
  of it, a rotation of its residue modulo the bit length. At the end it shuffles the page
  in place with a Fisher-Yates shuffle, seeded from the last value.
- **Search** goes the other way. It pads a text with spaces at a random offset, reads
  the padded page as a base-29 numeral and spreads that integer over the address fields
  by mixed-radix division.
- **ToHex/FromHex** are the base-36 codec of the free-form part.
- **indexOf** is the symbol lookup both directions use.
- **Address.String** is the text form `wall:shelf:volume:page:hex`.

## How the model is built

- **Modules and files.** The model follows the one Go file, split into concerns:
  - `Babel` (babel.dfy): constants, alphabets, `IndexOf`, UTF-8 byte length;
  - `Results` (results.dfy): the error kinds;
  - `Numeral` (numeral.dfy): positional numerals;
  - `BigInts` (bigint.dfy): `*big.Int` and its bit operations;
  - `Hex` (hex.dfy): `ToHex` and `FromHex`;
  - `Addresses` (address.dfy): `Address`, `AddressToBigInt`, `BigIntToAddress`;
  - `Pages` (page.dfy): `GeneratePage`, `RotateBigInt`, `shuffleRunes`;
  - `ReverseSearch` (search.dfy): `Search`;
  - `Serial` (serial.dfy): the address text and a reader for it.
- **Mutated `*big.Int`.** When Go changes a caller's `*big.Int` in place (`ToHex`,
  `BigIntToAddress`, `RotateBigInt`) or updates one across a loop (the accumulator of
  `Search` and the value of the page loop), the value lives in a `BigInt` object with a
  mutable `value: int`, and the methods say exactly how they leave it. The big.Int that
  `FromHex` creates and returns is never seen by a caller while it changes, so its
  accumulator is a local `int`.
- **Division and modulus.** `big.Int`'s `Div` and `Mod` are Euclidean, like Dafny's `/`
  and `%`, so `BigIntToAddress` is modelled for negative integers too. `Search` can produce
  negative integers for text with symbols outside the page alphabet, because `indexOf`
  gives those symbols -1 (whether it does depends on the text: a -1 digit after a larger
  one still gives a positive value).
- **Panics become failures.** Each panic of the Go code is an explicit `Err` of a
  `Result`:
  - `FromHex` on a rune outside `HEX_SET`: `InvalidSymbol`, carrying the first such rune;
  - `big.Int.Mod` by a zero bit length, which happens when the digest is 0:
    `DivisionByZero`;
  - `crypto/rand.Int` with a bound that is not positive: `EmptyOffsetRange`.

  The five validation errors of `GeneratePage` are the other kinds.
- **`len` counts bytes.** Go's `len` of a string counts UTF-8 bytes, so the hex length
  check and the padding arithmetic of `Search` use `ByteLen`, not the rune count.
- **uint32 wrap-around.** `AddressToBigInt` computes its low part in `uint32`
  (babel/babel.go:87): each product is evaluated from left to right and each
  multiplication and addition wraps modulo 2^32. `LowPart` wraps the exact sum once, `LowPartStepwise` wraps step
  by step, and `LowPartWraps` proves that they agree. For in-range fields the low part is
  exact and below 262400.
- **Oracles for the hash and the generator.** SHA-256 and the `math/rand` generator
  are parameters:
  - `Hash` stands for `sha256.Sum256(n.Bytes())` read back as an integer. Distinct
    non-negative integers have distinct minimal byte strings, so a function of the
    integer stands for the hash. `Sum256` applies it.
  - `Draw` stands for `Intn` of the generator seeded with a given seed, as a function
    of the seed and the bound. `shuffleRunes` passes a different bound on every call,
    so such a function can stand for any stream of draws. `Intn` applies it;
    `ValidDraw` demands only that a draw is in `[0, n)`.
  - `Search`'s random offset is a parameter as well, constrained to the range
    `crand.Int` can return.
- **Rotation acts on the residue.** `RotateBigInt` (babel/babel.go:175) reduces its
  argument modulo `bitLen` *in place*. `Lsh`, `Rsh` and `Or` then see that residue
  `r`, not the original value, so the rotation computes `(r << r) | (r >> (bitLen - r))`.
  `RotateBigInt`'s name suggests rotating the value; the code rotates the residue, and
  the model follows the code. The consequences are proved:
  - after the first step, the stream of values depends on the digest only through the
    digest's residue modulo its bit length (`StreamOfResidue`);
  - the page depends only on the bit length and the residues modulo 29 and modulo the
    bit length (`PageDeterminedByResidues`);
  - a digest divisible by its bit length yields one letter followed by 3199 spaces
    before the shuffle (`DivisibleDigestLetters`), because a residue of 0 rotates to 0.
- **The page loop.** `GeneratePage` is split into a few methods. Its extraction loop
  (babel/babel.go:67-74) is the method `ExtractLetters`. The `[]rune` slice it builds is
  put into an array by `RuneSlice` and shuffled in place by `ShuffleRunes`.
  `GeneratePage` is proved equal to the function `GeneratedPage`, and the properties
  are proved about that function.

## Model

| member | source | states |
|---|---|---|
| Babel.BabelSetDistinct | babel/babel.go:22-23 | BABEL_SET has 29 symbols and none occurs twice, so a symbol's index identifies it |
| Babel.HexSetDistinct | babel/babel.go:25-26 | HEX_SET has 36 symbols, none twice, and its zero symbol is '0' |
| Babel.BabelSetAscii | babel/babel.go:22-23 | every symbol of BABEL_SET is ASCII, so its byte length is its rune count |
| Babel.HexSetAscii | babel/babel.go:25-26 | every symbol of HEX_SET is ASCII |
| Babel.OverAscii | babel/babel.go:55 | a text over an ASCII alphabet has as many bytes as runes |
| Babel.IndexOf | babel/babel.go:194-201 | the result is -1 exactly when the target is absent; otherwise it is an index holding the target |
| Babel.IndexOfFirst | babel/babel.go:194-201 | the index found is the first occurrence: the target does not occur before it |
| Babel.IndexOfAfter | babel/babel.go:194-201 | the lookup for a target not in a prefix, placed right after it, finds the index just past the prefix |
| Babel.IndexOfDistinct | babel/babel.go:194-201 | in an alphabet without repeats, the symbol at k has index k |
| Babel.ByteLen | babel/babel.go:55 | Go's len of a string is at least its rune count, with equality exactly for ASCII text |
| Babel.Spaces | babel/babel.go:131 | strings.Repeat(" ", n) is n spaces |
| Babel.OverPermutation | babel/babel.go:182-191 | a rearrangement with the same multiset stays over the same alphabet |
| Hex.ToHex | babel/babel.go:146-156 | the result is the base-36 numeral of the argument, and the caller's big.Int is left at 0 (or unchanged when not positive) |
| Hex.FromHex | babel/babel.go:158-171 | the result is the base-36 value of the runes, or InvalidSymbol naming the first rune outside HEX_SET |
| Hex.HexEncodeStep | babel/babel.go:150-154 | helper for the ToHex loop: one DivMod step of ToHex emits the last symbol of the numeral |
| Hex.HexValueStep | babel/babel.go:161-169 | helper for the FromHex loop: one step of FromHex shifts the value one base-36 place and adds the rune's index |
| Numeral.ValueOfEncode | babel/babel.go:146-171 | FromHex(ToHex(n)) == n for every n >= 0 |
| Numeral.EncodeOfValue | babel/babel.go:146-171 | ToHex(FromHex(s)) == s for every canonical numeral s |
| Numeral.Value | babel/babel.go:134-138 | definition: the base-b value of a numeral, most significant symbol first, a symbol outside the alphabet weighing -1 as its indexOf does (the value both FromHex and the Search loop accumulate) |
| Numeral.Encode | babel/babel.go:146-156 | definition: the symbols of n in base b, most significant first, none for n <= 0; that it emits only alphabet symbols is Numeral.EncodeOver |
| Numeral.Decode | babel/babel.go:158-171 | definition: the value of a numeral when every symbol is in the alphabet, otherwise InvalidSymbol naming the first that is not (the rune FromHex panics on) |
| Numeral.Decimal | babel/babel.go:38 | definition: the %d numeral of a non-negative integer, "0" for 0 |
| Numeral.EncodeCanonical | babel/babel.go:146-156 | ToHex gives the empty text exactly for n <= 0, and never starts with the zero symbol |
| Numeral.EncodeOver | babel/babel.go:146-156 | ToHex emits only symbols of the alphabet |
| Numeral.ValueRange | babel/babel.go:134-138 | a numeral of k symbols over the alphabet has a value in [0, b^k) |
| Numeral.ValueInjective | babel/babel.go:134-138 | two numerals of one length over the alphabet with the same value are the same text |
| Numeral.EncodeLength | babel/babel.go:146-156 | a value below b^k has a numeral of at most k symbols |
| Numeral.FirstMissing | babel/babel.go:161-165 | locates the rune FromHex panics on: the first one outside the alphabet |
| Numeral.FirstMissingUnique | babel/babel.go:161-165 | a rune outside the alphabet that follows only valid runes is the first missing one |
| Numeral.DecimalValue | babel/babel.go:38 | the %d numeral is non-empty digits whose value is the number |
| Addresses.LowPart | babel/babel.go:87 | the uint32 low part wraps modulo 2^32; for in-range fields it is the exact mixed-radix sum, below 262400 |
| Addresses.LowPartStepwise | babel/babel.go:87 | definition: the uint32 low part evaluated as Go does, each product from the left and every multiplication and addition wrapping modulo 2^32 |
| Addresses.LowPartWraps | babel/babel.go:87 | the step-by-step uint32 evaluation equals the exact sum wrapped once, so LowPart is what line 87 computes |
| Addresses.Address.String | babel/babel.go:37-39 | definition: the text wall:shelf:volume:page:hex, each number in %d; its properties are Serial.ParseString and Serial.StringInjective |
| Addresses.Field | babel/babel.go:38 | definition: one %d field followed by ':' and the rest of the text |
| Addresses.AddressToBigInt | babel/babel.go:83-89 | succeeds exactly when Hex is over HEX_SET, with a non-negative result; otherwise InvalidSymbol with a rune outside HEX_SET |
| Addresses.AddressValue | babel/babel.go:83-89 | helper, the Ok branch of AddressToBigInt spelled out: the integer is FromHex(Hex) * 262400 + the low part |
| Addresses.Spans | babel/babel.go:85-87 | helper on constants: the literal constants are the products WALLS*SHELVES*VOLUMES*PAGES, SHELVES*VOLUMES*PAGES and VOLUMES*PAGES |
| Addresses.AddressOfInt | babel/babel.go:92-117 | every address BigIntToAddress produces has in-range fields and a canonical base-36 part |
| Addresses.BigIntToAddress | babel/babel.go:92-117 | the address is the mixed-radix split of the argument, which is left divided by 262400 and then, when non-negative, zeroed by ToHex (a negative remainder is left as it is) |
| Addresses.MixedRadixSplit | babel/babel.go:92-111 | peeling off page, volume, shelf and wall and recombining them gives the integer back |
| Addresses.MixedRadixJoin | babel/babel.go:92-111 | combining in-range digits and peeling them off again gives the same digits |
| Addresses.AddressOfDigits | babel/babel.go:92-117 | the address of an integer built from in-range digits has exactly those digits |
| Addresses.IntToAddressToInt | babel/babel.go:83-117 | AddressToBigInt(BigIntToAddress(v)) == v for every v >= 0 |
| Addresses.AddressToIntToAddress | babel/babel.go:83-117 | BigIntToAddress(AddressToBigInt(a)) == a for every in-range address with a canonical base-36 part |
| Serial.ParseString | babel/babel.go:37-39 | reading back the text of an address gives the address |
| Serial.StringInjective | babel/babel.go:37-39 | distinct addresses have distinct texts |
| Serial.FieldSplit | babel/babel.go:38 | a %d field followed by ':' reads back as its number and the rest of the text |
| Serial.FieldSplitU32 | babel/babel.go:38 | the same for a uint32 field |
| Serial.SplitField | babel/babel.go:38 | helper of the reader written for the model (not Go code), which reads back the field line 38 writes: a field that is read consumes at least one rune |
| BigInts.BitLen | babel/babel.go:67 | the bit length is 0 exactly for 0, and 2^(r-1) <= n < 2^r otherwise |
| BigInts.Lsh | babel/babel.go:176 | a left shift never decreases a value and is 0 exactly for 0 |
| BigInts.Rsh | babel/babel.go:177 | a right shift never increases a value |
| BigInts.LshIsMul | babel/babel.go:176 | x << k == x * 2^k |
| BigInts.RshIsDiv | babel/babel.go:177 | x >> k == x / 2^k |
| BigInts.HalveThenDivide | babel/babel.go:177 | one more shift bit halves the divisor's place: x / 2 / p == x / (2p) |
| BigInts.Or | babel/babel.go:178 | a bitwise or is at least each operand and at most their sum |
| Pages.Int64 | babel/babel.go:183 | the seed is a two's-complement int64 congruent to the value modulo 2^64 |
| Pages.Rotated | babel/babel.go:174-180 | the rotation is at least the residue shifted by itself, and 0 exactly when the residue is 0 |
| Pages.Stream | babel/babel.go:64-73 | definition: the value of bi after k iterations of the page loop, the digest followed by k rotations |
| Pages.Sum256 | babel/babel.go:63-64 | definition: the digest of the address integer, sha256.Sum256 of its bytes read back by SetBytes, supplied as a parameter |
| Pages.Intn | babel/babel.go:183-187 | definition: the draw r.Intn(n) of the generator seeded with seed, supplied as a parameter |
| Pages.PageOf | babel/babel.go:64-77 | definition: the page of a non-zero digest, the letters of its rotation stream shuffled with the seed of the last value |
| Pages.GeneratedPage | babel/babel.go:42-80 | definition: the five checks in source order, then the FromHex failure, then the zero-digest failure, else the page of the digest; proved equal to the method by Pages.GeneratePage |
| Pages.RotateBigInt | babel/babel.go:174-180 | fails exactly for a zero bit length; otherwise leaves the argument at its residue and returns the rotation of that residue |
| Pages.RotatedOfResidue | babel/babel.go:175-178 | a rotation depends on its argument only through the residue modulo bitLen |
| Pages.Letters | babel/babel.go:68-74 | the extraction appends exactly one symbol per iteration |
| Pages.LettersAt | babel/babel.go:71-72 | symbol k of the page is BABEL_SET at the k-th stream value modulo 29 |
| Pages.LettersOver | babel/babel.go:71-72 | every extracted symbol is in BABEL_SET |
| Pages.ExtractLetters | babel/babel.go:67-74 | fails exactly for a zero digest, with DivisionByZero; otherwise yields the letters of the rotation stream and leaves bi at the stream's last value |
| Pages.StreamOfResidue | babel/babel.go:73-73 | after one rotation the stream depends on the digest only through its residue modulo the bit length |
| Pages.LettersOfResidues | babel/babel.go:67-74 | the letters depend on the digest only through its residues modulo 29 and the bit length |
| Pages.PageDeterminedByResidues | babel/babel.go:64-77 | two digests of one bit length with the same two residues give the same page |
| Pages.StreamAbsorbed | babel/babel.go:175-178 | a residue of 0 is a fixed point of the rotation |
| Pages.DivisibleDigestLetterAt | babel/babel.go:70-74 | for a digest divisible by its bit length, symbol 0 is the digest's letter and every later symbol is a space |
| Pages.DivisibleDigestLetters | babel/babel.go:70-74 | a digest divisible by its bit length extracts one letter followed by spaces only |
| Pages.Swap | babel/babel.go:188 | the exchange puts each of the two symbols in the other's place and leaves the rest |
| Pages.SwapPermutes | babel/babel.go:188 | an exchange keeps the multiset of symbols |
| Pages.FisherYates | babel/babel.go:186-189 | the shuffle keeps the length |
| Pages.FisherYatesStep | babel/babel.go:186-189 | helper for the shuffle loop: the draw Intn(i + 1) is at most i, and one pass exchanges index i with it |
| Pages.FisherYatesPermutes | babel/babel.go:186-189 | the shuffle is a permutation of its input |
| Pages.ShuffleRunes | babel/babel.go:182-191 | the array ends as the Fisher-Yates shuffle of its old contents, seeded with bi.Int64() |
| Pages.RuneSlice | babel/babel.go:77 | the slice holds exactly the extracted runes |
| Pages.GeneratePage | babel/babel.go:42-80 | the method returns exactly GeneratedPage: the checks in source order, then the hash, extraction and shuffle |
| Pages.GeneratePageErrors | babel/babel.go:42-60 | each error arises exactly when every earlier check passes and its own fails; a page comes out only when all pass |
| Pages.PageShape | babel/babel.go:64-77 | a page is PAGE_LENGTH symbols of BABEL_SET, a permutation of the extracted letters |
| Pages.GeneratedPageShape | babel/babel.go:42-80 | a successful GeneratePage returns the page of the digest of AddressToBigInt: 3200 symbols over BABEL_SET |
| ReverseSearch.Search | babel/babel.go:119-143 | fails with EmptyOffsetRange when the content has no room; otherwise returns the address of the base-29 value of the padded page |
| ReverseSearch.Admissible | babel/babel.go:121 | definition: the offsets crand.Int can return, [0, PAGE_LENGTH - len(content)) |
| ReverseSearch.Padded | babel/babel.go:127-131 | definition: offset spaces, the content, then PAGE_LENGTH - offset - len(content) spaces |
| ReverseSearch.BabelValueStep | babel/babel.go:135-138 | helper for the Search loop: one step of the Search loop shifts the value one base-29 place and adds the rune's index |
| ReverseSearch.PaddedText | babel/babel.go:127-131 | the padded text holds the content at the offset and spaces elsewhere; it is 3200 runes for content over BABEL_SET |
| ReverseSearch.PaddedOver | babel/babel.go:131 | padding a text over BABEL_SET keeps it over BABEL_SET |
| ReverseSearch.SearchAddressAccepted | babel/babel.go:119-143 | the address found for text over BABEL_SET passes every check of GeneratePage |
| ReverseSearch.SearchEncodesText | babel/babel.go:119-143 | AddressToBigInt of the address found is the page's base-29 value, and equal addresses come from equal padded pages |

## Left out

- SHA-256 and `big.Int.Bytes`/`SetBytes` are not modelled bit by bit. The hash is a parameter function from the integer to a 256-bit digest, as described above.
- The `math/rand` generator and its seeding algorithm are not modelled. Its draws are a parameter function, and all that is assumed of it is that `Intn(n)` lies in `[0, n)`.
- The entropy of `crypto/rand` is not modelled. The padding offset is a parameter, limited to the range `crand.Int` returns; its read error (babel/babel.go:122-124) is not modelled.
- Statistical claims are not stated: avalanche, independence of neighbouring pages and uniformity of the shuffle. They depend on SHA-256 and the generator, and also on this code: because `RotateBigInt` rotates the residue, `PageDeterminedByResidues` shows that for a fixed generator a page is fixed by the digest's bit length b and its residues modulo 29 and modulo b, so there are at most 29·b distinct pages per bit length.
- main.go, the FUSE file-system glue, is not part of this model.
- Pages.Int64: `big.Int.Int64` is documented as undefined when the value does not fit in an int64. The model takes the low 64 bits as two's complement, which is what the implementation returns for a non-negative value.
- Invalid UTF-8 in a Go string, which `range` decodes to U+FFFD, is not modelled: strings are sequences of code points.
- The panics of `FromHex`, `big.Int.Mod` and `crand.Int` are failures (`Err`) in the model. The Go code aborts instead.
- Search: the comment at babel/babel.go:120 describes a position between 0 and the number of remaining positions, but content of exactly `PAGE_LENGTH` bytes gives `crand.Int` a zero bound, which panics. The model follows the code: content of `PAGE_LENGTH` bytes or more fails with `EmptyOffsetRange`.
- `Serial.ParseAddress` and its helpers are not in the Go code. They are a reader written for the model, used to prove that `Address.String` loses nothing.
