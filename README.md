# php-object-id in Dafny

A model of the BSON ObjectId library `slime-systems/php-object-id`. It
covers the 12-byte identifier value (`SlimeSystems\ObjectId`) and the
generator that mints new identifiers (`SlimeSystems\ObjectIdInternal\Generator`).
The layout follows the ObjectId section of the BSON specification:

| offset | length | field | encoding |
|---|---|---|---|
| 0 | 4 | time | low 32 bits of the timestamp, big-endian |
| 4 | 5 | process id | random bytes, fixed per generator |
| 9 | 3 | counter | low 24 bits of the counter, big-endian |

Files and modules:

- `Bytes.dfy` (`Bytes`): PHP byte strings as `seq<Byte>`. It has the big-endian
  packing of `pack('N', …)` and `unpack('N', …)` (`Pack`, `PackN`, `Unpack`).
  It also has the byte-wise order of PHP's `<=>` on strings (`Compare`).
  Lemmas prove the pack/unpack round trips and that `Compare` is a
  lexicographic total order.
- `Hex.dfy` (`Hex`): `bin2hex` and `hex2bin` (`Bin2Hex`, `Hex2Bin`), which are
  Base16 as in section 8 of RFC 4648. Output is lowercase and input may be
  either case. Lemmas prove both round trips, injectivity, and that comparing
  hex strings orders them like the bytes they encode.
- `Generator.dfy` (`ObjectIdInternal`): the pure layout function `Generate` and
  the class `Generator`.
  - The class has the fields `processId` and `counter`, and a `Valid()`
    invariant: `|processId| == 5` and `0 <= counter <= 0xFFFFFF`.
  - `NextObjectId` is a method that `modifies this`.
  - Lemmas prove that up to 2^24 consecutive ids with the same time are
    pairwise distinct.
- `ObjectId.dfy` (`SlimeSystems`): the value type `ObjectId`. It is a datatype
  whose `rawData` field has the subset type `RawData` (exactly 12 bytes), so an
  id with any other length cannot exist.
  - `FromData`, `FromString` and `Legal` are pure functions. The fallible ones
    return `Result`, and the source's `Invalid` exception becomes `Err`.
  - `ToString`, `Equals`, `CompareTo`, `GetGenerationTime` and `Inspect` are
    members of the datatype.
  - The constructor (`Construct`) and `FromTime` take a `Generator` explicitly
    and may modify it.

The lazy static generator of `ObjectId` becomes this explicit `Generator`
argument. The wall clock becomes a parameter (`now`, `time`). The random
draws made when a generator is created become constructor arguments.

## Model

| member | source | states |
|---|---|---|
| `Bytes.Pack` | src/_internal/Generator.php:70-71 | `pack` of `v` into `n` bytes, most significant first, has exactly `n` bytes. Its meaning follows from `UnpackPack` and `PackUnpack`. |
| `Bytes.PackN` | src/ObjectId.php:96 | `pack('N', v)` has exactly four bytes. |
| `Bytes.Unpack` | src/ObjectId.php:170 | The unsigned big-endian value of `b` (`unpack('N', …)` for four bytes) is below `256^|b|`. |
| `Bytes.UnpackPack` | src/_internal/Generator.php:70 | Unpacking `pack` of `v` into `n` bytes gives `v mod 256^n`, so `pack('N', t)` keeps exactly the low 32 bits of `t`. |
| `Bytes.PackUnpack` | src/ObjectId.php:168-170 | Packing the big-endian value of a byte string rebuilds that string, so the 4 time bytes and their decoded value determine each other. |
| `Bytes.PackInjective` | src/_internal/Generator.php:70-71 | Two in-range values with the same packing are equal. |
| `Bytes.PackDropTop` | src/_internal/Generator.php:71 | `substr(pack('N', c), 1, 3)` is the 3-byte big-endian packing of `c`. |
| `Bytes.Compare` | src/ObjectId.php:156 | `<=>` on two byte strings returns -1, 0 or 1. `CompareIsLexicographic`, `CompareZeroIffEqual`, `CompareAntisymmetric` and `CompareTransitive` state which one. |
| `Bytes.CompareZeroIffEqual` | src/ObjectId.php:153-157 | The byte comparison gives 0 iff the two strings are equal. |
| `Bytes.CompareAntisymmetric` | src/ObjectId.php:153-157 | Swapping the operands negates the result. |
| `Bytes.CompareTransitive` | src/ObjectId.php:153-157 | If a < b and b < c then a < c. |
| `Bytes.CompareIsLexicographic` | src/ObjectId.php:155-156 | The result is -1 iff at the first position where the strings differ, `a` has the smaller unsigned byte or has already ended. |
| `Hex.Bin2Hex` | src/ObjectId.php:118-121 | `bin2hex` gives two characters per byte: character `2i` is the lowercase digit of the high nibble of byte `i`, and character `2i+1` is the digit of its low nibble. |
| `Hex.Bin2HexIsLowerHex` | src/ObjectId.php:118-121 | Every character `bin2hex` produces is in `[0-9a-f]`. |
| `Hex.Hex2Bin` | src/ObjectId.php:78 | `hex2bin` of an even-length hex string has half as many bytes. `Hex2BinBin2Hex` and `Bin2HexHex2Bin` state what they are. |
| `Hex.Hex2BinBin2Hex` | src/ObjectId.php:73-79 | `hex2bin(bin2hex(b)) == b` for every byte string. |
| `Hex.Bin2HexHex2Bin` | src/ObjectId.php:73-79 | For an even-length string of hex digits in either case, `bin2hex(hex2bin(s))` is `s` lowercased. |
| `Hex.Bin2HexInjective` | src/ObjectId.php:118-121 | Different byte strings have different hex forms. |
| `Hex.CompareBin2Hex` | src/ObjectId.php:153-157 | Comparing two hex forms as strings gives the same answer as comparing the bytes. |
| `ObjectIdInternal.Step` | src/_internal/Generator.php:48 | `counter + 1 & 0xFFFFFF` stays in `0..0xFFFFFF` and wraps to 0 exactly after `0xFFFFFF`. |
| `ObjectIdInternal.Generate` | src/_internal/Generator.php:60-76 | The result has length 4 + \|processId\| + 3. Bytes 0..4 are `pack('N', time)` and decode to `time mod 2^32`. The next bytes are `processId` unchanged. The last 3 bytes decode to `counter mod 2^24`, which is `counter` itself when it is in range. |
| `ObjectIdInternal.Generator.constructor` | src/_internal/Generator.php:33-37 | A new generator holds the given 5-byte process id and in-range counter, and is valid. |
| `ObjectIdInternal.Generator.NextObjectId` | src/_internal/Generator.php:45-51 | The counter becomes `(old counter + 1) mod 2^24`, `processId` is unchanged and the invariant is kept. The result is `Generate(time, processId, new counter)`: 12 bytes with `time mod 2^32` in bytes 0..4, the process id in bytes 4..9 and the new counter in bytes 9..12. |
| `ObjectIdInternal.StepNIsAddition` | src/_internal/Generator.php:48 | After `k` calls the counter is `(initial + k) mod 2^24`. |
| `ObjectIdInternal.StepNDistinct` | src/_internal/Generator.php:48 | Counter values fewer than 2^24 calls apart are different. |
| `ObjectIdInternal.GenerateCounterInjective` | src/_internal/Generator.php:60-76 | With the same time and process id, different in-range counters give different ids. |
| `ObjectIdInternal.ConsecutiveIdsDistinct` | src/_internal/Generator.php:45-51 | In a run of `n <= 2^24` consecutive calls with one time, calls `i < j` give different ids. |
| `ObjectIdInternal.TwoCallsDiffer` | src/_internal/Generator.php:45-51 | Two `NextObjectId` calls in a row with the same time leave the counter two steps on and keep the process id. They return the layouts for the counter after one step and after two steps, and these differ. |
| `SlimeSystems.FromData` | src/ObjectId.php:61-64 | Succeeds iff the input has exactly 12 bytes, and then keeps them as the raw data. Any other length gives the raw-data-length `Invalid`. |
| `SlimeSystems.FromDataKeepsRawData` | src/ObjectId.php:44-48 | `FromData(b)` is `Ok(ObjectId(b))` for 12 bytes, and lengths 10 and 14 fail. |
| `SlimeSystems.Legal` | src/ObjectId.php:108-111 | True iff the string has exactly 24 characters, each of which, lowercased, is in `[0-9a-f]`. This is the case-insensitive pattern `/^[0-9a-f]{24}$/i`. |
| `SlimeSystems.FromString` | src/ObjectId.php:73-79 | Succeeds iff `Legal(s)` holds, that is exactly 24 characters from `[0-9a-fA-F]`. The resulting id prints as `s` lowercased. Otherwise the error is `IllegalString(s)`. |
| `SlimeSystems.FromStringRejectsNonHex` | src/ObjectId.php:108-111 | A string with any character that is not a hex digit, such as a non-ASCII one, is refused. |
| `SlimeSystems.FromStringCaseInsensitive` | src/ObjectId.php:108-111 | A legal string and its lowercase form are both legal and parse to the same id. |
| `SlimeSystems.FromStringToString` | src/ObjectId.php:73-79 | `FromString(id.ToString()) == Ok(id)` for every id. |
| `SlimeSystems.FromStringBin2Hex` | src/ObjectId.php:73-79 | `FromString(bin2hex(b))` has raw data `b` for every 12-byte `b`. The hex of 10 or 14 bytes is refused. |
| `SlimeSystems.ObjectId.ToString` | src/ObjectId.php:118-121 | The result is 24 lowercase hex characters, two per raw byte, high nibble first. |
| `SlimeSystems.ToStringIsLegal` | src/ObjectId.php:118-121 | The hex form of any id is legal and already lowercase. |
| `SlimeSystems.ToStringOfFromString` | src/ObjectId.php:118-121 | A legal string prints back as itself iff it has no uppercase digit. |
| `SlimeSystems.ObjectId.Equals` | src/ObjectId.php:139-145 | True iff the argument is an ObjectId with this id's raw data. |
| `SlimeSystems.EqualsLaws` | src/ObjectId.php:139-145 | `equals` is reflexive and symmetric, agrees with `compareTo(..) == 0`, and is false for a value that is not an ObjectId. |
| `SlimeSystems.EqualsIffSameString` | src/ObjectId.php:139-145 | Two ids are equal iff their hex forms are equal. |
| `SlimeSystems.ObjectId.CompareTo` | src/ObjectId.php:153-157 | The result is in {-1, 0, 1}. It is 0 iff the ids are equal, -1 iff some position shows this id's raw data below the other's in the byte-wise lexicographic order, and 1 in the mirrored case. |
| `SlimeSystems.CompareToLaws` | src/ObjectId.php:153-157 | `compareTo` is antisymmetric and transitive, both for `<= 0` and for `== -1`. |
| `SlimeSystems.CompareToMatchesHexOrder` | src/ObjectId.php:155-156 | Comparing ids gives the same result as comparing their 24-character hex forms as strings. |
| `SlimeSystems.CompareToExample` | tests/Unit/ObjectIdTest.php:110-120 | `"1000…0"` compared with `"2000…0"` gives -1, and the reverse gives 1. |
| `SlimeSystems.ObjectId.GetGenerationTime` | src/ObjectId.php:165-174 | The result is below 2^32 and packs back to the first four raw bytes, so it is their unsigned big-endian value. |
| `SlimeSystems.TimeFromPackedPrefix` | src/ObjectId.php:165-174 | An id whose first four bytes are `pack('N', t)` has generation time `t mod 2^32`, which is `t` itself when `0 <= t < 2^32`. |
| `SlimeSystems.GeneratedTime` | src/ObjectId.php:165-174 | A generated id has generation time `time mod 2^32`, which is exactly `time` when it fits in 32 bits. |
| `SlimeSystems.ZeroFilled` | src/ObjectId.php:96 | The non-unique raw data is `pack('N', time)` followed by eight zero bytes. |
| `SlimeSystems.ZeroFilledTime` | src/ObjectId.php:96 | The zero-filled id has generation time `time mod 2^32`, which is `time` when in range. |
| `SlimeSystems.ZeroFilledHex` | src/ObjectId.php:96 | The hex form of the zero-filled id ends in sixteen `'0'` characters. |
| `SlimeSystems.Construct` | src/ObjectId.php:42-52 | With raw data, the result is `FromData(rawData)` and the generator is unchanged. Without raw data, it always succeeds, steps the counter once, and lays out the id with the clock reading and the generator's new counter. |
| `SlimeSystems.FromTime` | src/ObjectId.php:89-100 | Never fails. `unique` defaults to true. When `unique`, the counter steps once and the id is `Generate(time, processId, counter)`. Otherwise the generator is untouched and the id is the zero-filled one. In both cases the generation time is `time mod 2^32`. |
| `SlimeSystems.FromTimeTwice` | tests/Unit/ObjectIdTest.php:52-58 | Two `fromTime` calls with one timestamp and the default `unique` leave the counter two steps on. Their ids are the layouts for the counter after one and after two steps. The ids have different hex forms and the same generation time. |
| `SlimeSystems.ObjectId.Inspect` | src/ObjectId.php:181-184 | The label is exactly the prefix `SlimeSystems\ObjectId('`, then the 24-character hex form, then the suffix `')`. |
| `SlimeSystems.InspectShowsHex` | src/ObjectId.php:181-184 | The label contains the hex form and is longer than it. |

## Left out

- `random_bytes` and `random_int` in the generator constructor are entropy sources outside the model. The constructor takes their results as arguments, which must be in range.
- `time()` in `nextObjectId` is a wall-clock read. Callers pass the reading: `Construct` takes `now`, and `NextObjectId` always takes its time.
- Carbon and `DateTime` are library time objects. `GetGenerationTime` returns the integer seconds value, and `fromTime`'s `DateTime` argument is not modelled; its integer timestamp is what `fromTime` receives.
- The `(int)` cast in `fromTime` is the identity on an integer and is not written out. PHP integers are 64 bits wide; `pack('N', …)` keeps only the low 32 bits, which `Pack` computes the same way for any integer.
- The PCRE engine behind `legal`: `Legal` is a length-and-character predicate. PCRE's `$` also matches before a final newline. That 25-character string is then refused when decoded, so this quirk is not modelled.
- `fromString` takes PHP byte strings. The model takes Dafny strings of characters, and every non-ASCII character is refused as a non-hex character. So counting bytes or characters makes no difference to the outcome.
- `compareTo` uses PHP's `<=>`. When both raw strings happen to be numeric strings, `<=>` compares them as numbers. `CompareTo` models the byte-wise order that the comment at src/ObjectId.php:155 promises, not PHP's type juggling.
- The lazy static generator (src/ObjectId.php:26-34) and any concurrency or atomicity of the counter. The PHP code is single-threaded and has no synchronisation. The generator is passed explicitly.
- `generate`'s default argument `counter = 0` is never used by the library; the model always passes the counter.
- `__toString` is the same function as `toString` and has no separate member.
- `Step` writes `counter + 1 & 0xFFFFFF` as `(counter + 1) % 2^24`. The two are equal because the operand is non-negative.
- Exception messages: the single `Invalid` exception class becomes the datatype `Invalid`, with one constructor for each message. The text of the messages is not modelled.
- The test at tests/Unit/ObjectIdTest.php:122-126 relies on the wall clock not going backwards, which is outside the model.

## Notes

The source throws one exception class, `Invalid`, with two messages. The model keeps the two reasons as `RawDataLength` and `IllegalString`.

`rawData` is a private field in the source. The model exposes it as the datatype's `rawData` field.

The doc comment of `inspect` (src/ObjectId.php:179) gives the form as `BSON\ObjectId('id')`. The code at line 183 writes `SlimeSystems\ObjectId('id')`, and the model follows the code.

The unit tests call `toTime()`, `fromBinary()` and `toBinary()`, none of which src/ObjectId.php defines (tests/Unit/ObjectIdTest.php:11, 17, 19, 24, 35, 55). The model reads them as `getGenerationTime`, `fromData` and the `rawData` field. `FromDataKeepsRawData` and `FromStringBin2Hex` state the tests' raw-data assertions in those terms.
