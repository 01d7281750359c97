/** The BSON ObjectId value (section "ObjectId" of the BSON specification):
    exactly 12 raw bytes, built from raw data, from a hex string, from a
    time, or freshly by a generator. */
module SlimeSystems {
  import opened Bytes
  import opened Hex
  import opened ObjectIdInternal

  const RAW_LENGTH := 12
  const HEX_LENGTH := 24

  /** A byte string of exactly the ObjectId's length. */
  type RawData = s: seq<Byte> | |s| == RAW_LENGTH witness [0, 0, 0, 0, 0, 0, 0, 0, 0, 0, 0, 0]

  /** The reasons the source throws its `Invalid` exception. */
  datatype Invalid =
    | RawDataLength                 // "Raw data must be 12 bytes for ObjectId."
    | IllegalString(given: string)  // "'<given>' is an invalid ObjectId."

  datatype Result<T> = Ok(value: T) | Err(error: Invalid)

  datatype Option<T> = None | Some(value: T)

  /** The prefix and suffix `inspect` puts around the hex form. */
  const INSPECT_PREFIX := "SlimeSystems\\ObjectId('"
  const INSPECT_SUFFIX := "')"

  datatype ObjectId = ObjectId(rawData: RawData)
  {
    /** `toString` / `__toString`: the lowercase hex form. */
    function ToString(): (s: string)
      ensures |s| == HEX_LENGTH
      ensures forall i :: 0 <= i < RAW_LENGTH ==>
                s[2 * i] == Digit(rawData[i] / 16) && s[2 * i + 1] == Digit(rawData[i] % 16)
      ensures forall i :: 0 <= i < |s| ==> IsLowerHexChar(s[i])
    {
      Bin2HexIsLowerHex(rawData);
      Bin2Hex(rawData)
    }

    /** `equals`: true only for an ObjectId with identical raw bytes. */
    function Equals(other: Value): (r: bool)
      ensures r <==> other == AnObjectId(this)
    {
      other.AnObjectId? && other.id.rawData == rawData
    }

    /** `compareTo`: unsigned byte-wise lexicographic order on the raw bytes. */
    function CompareTo(other: ObjectId): (r: int)
      ensures r == -1 || r == 0 || r == 1
      ensures r == 0 <==> this == other
      ensures r == -1 <==> exists k :: LessAt(rawData, other.rawData, k)
      ensures r == 1 <==> exists k :: LessAt(other.rawData, rawData, k)
    {
      CompareZeroIffEqual(rawData, other.rawData);
      CompareIsLexicographic(rawData, other.rawData);
      CompareIsLexicographic(other.rawData, rawData);
      CompareAntisymmetric(rawData, other.rawData);
      Compare(rawData, other.rawData)
    }

    /** `getGenerationTime`: the first four bytes as unsigned big-endian
        seconds since the Unix epoch. */
    function GetGenerationTime(): (t: nat)
      ensures t < 0x1_0000_0000
      ensures PackN(t) == rawData[..4]
    {
      Pow256Widths();
      PackUnpack(rawData[..4]);
      Unpack(rawData[..4])
    }

    /** `inspect`: the hex form wrapped in a label. */
    function Inspect(): (s: string)
      ensures |s| == |INSPECT_PREFIX| + HEX_LENGTH + |INSPECT_SUFFIX|
      ensures s[..|INSPECT_PREFIX|] == INSPECT_PREFIX
      ensures s[|INSPECT_PREFIX|..|INSPECT_PREFIX| + HEX_LENGTH] == ToString()
      ensures s[|INSPECT_PREFIX| + HEX_LENGTH..] == INSPECT_SUFFIX
    {
      var s := INSPECT_PREFIX + ToString() + INSPECT_SUFFIX;
      assert s[|INSPECT_PREFIX|..|INSPECT_PREFIX| + HEX_LENGTH] == ToString();
      s
    }
  }

  /** The argument of `equals`, which may be any PHP value. */
  datatype Value = AnObjectId(id: ObjectId) | OtherValue

  /** `fromData` (and the constructor given raw data): exactly 12 bytes. */
  function FromData(data: seq<Byte>): (r: Result<ObjectId>)
    ensures r.Ok? <==> |data| == RAW_LENGTH
    ensures r.Ok? ==> r.value.rawData == data
    ensures r.Err? ==> r.error == RawDataLength
  {
    if |data| != RAW_LENGTH then Err(RawDataLength) else Ok(ObjectId(data))
  }

  /** `legal`: the pattern `/^[0-9a-f]{24}$/i`, exactly 24 characters each of
      which, lowercased, is a digit or one of `a`..`f`. */
  function Legal(s: string): (r: bool)
    ensures r <==> |s| == HEX_LENGTH && forall i :: 0 <= i < |s| ==> IsLowerHexChar(LowerHex(s[i]))
  {
    |s| == HEX_LENGTH && AllHex(s)
  }

  /** `fromString`: a legal string, decoded two digits per byte. */
  function FromString(s: string): (r: Result<ObjectId>)
    ensures r.Ok? <==> Legal(s)
    ensures r.Ok? ==> r.value.ToString() == LowerHexString(s)
    ensures r.Err? ==> r.error == IllegalString(s)
  {
    if !Legal(s) then Err(IllegalString(s))
    else
      Bin2HexHex2Bin(s);
      FromData(Hex2Bin(s))
  }

  /** The raw data `fromTime` builds when it is not asked for a unique id:
      `pack('N', time)` followed by eight zero bytes. */
  function ZeroFilled(timestamp: int): (d: RawData)
    ensures d[..4] == PackN(timestamp)
    ensures forall i :: 4 <= i < RAW_LENGTH ==> d[i] == 0
  {
    var d := PackN(timestamp) + [0, 0, 0, 0, 0, 0, 0, 0];
    assert d[..4] == PackN(timestamp);
    d
  }

  /** The constructor: given raw data, it validates it; given none, it takes
      the next id from the generator, stamped with the clock reading `now`. */
  method Construct(g: Generator, rawData: Option<seq<Byte>>, now: int) returns (r: Result<ObjectId>)
    requires g.Valid()
    modifies g
    ensures g.Valid() && g.processId == old(g.processId)
    ensures rawData.Some? ==> r == FromData(rawData.value) && g.counter == old(g.counter)
    ensures rawData.None? ==> g.counter == Step(old(g.counter))
    ensures rawData.None? ==> r.Ok? && r.value.rawData == Generate(now, g.processId, g.counter)
  {
    if rawData.Some? {
      r := FromData(rawData.value);
    } else {
      var data := g.NextObjectId(now);
      r := Ok(ObjectId(data));
    }
  }

  /** `fromTime` with an integer timestamp: a fresh id from the generator when
      `unique`, otherwise the zero-filled one; neither can fail. */
  method FromTime(g: Generator, time: int, unique: bool := true) returns (id: ObjectId)
    requires g.Valid()
    modifies g
    ensures g.Valid() && g.processId == old(g.processId)
    ensures unique ==> g.counter == Step(old(g.counter)) && id.rawData == Generate(time, g.processId, g.counter)
    ensures !unique ==> g.counter == old(g.counter) && id.rawData == ZeroFilled(time)
    ensures id.GetGenerationTime() == time % 0x1_0000_0000
  {
    var data: seq<Byte>;
    if unique {
      data := g.NextObjectId(time);
    } else {
      data := ZeroFilled(time);
    }
    var r := FromData(data);
    id := r.value;
    TimeFromPackedPrefix(id, time);
  }

  /* ---- Properties ---- */

  /** Raw data of the right length is kept exactly; lengths 10 and 14 fail. */
  lemma FromDataKeepsRawData(b: seq<Byte>)
    ensures |b| == RAW_LENGTH ==> FromData(b) == Ok(ObjectId(b))
    ensures |b| == 10 || |b| == 14 ==> FromData(b) == Err(RawDataLength)
  {
  }

  /** The hex form parses back to the same id. */
  lemma FromStringToString(id: ObjectId)
    ensures FromString(id.ToString()) == Ok(id)
  {
    Hex2BinBin2Hex(id.rawData);
  }

  /** `fromString(bin2hex(b))` has raw data `b` for any 12 bytes `b`; the hex
      of 10 or 14 bytes is refused. */
  lemma FromStringBin2Hex(b: seq<Byte>)
    ensures |b| == RAW_LENGTH ==> FromString(Bin2Hex(b)) == Ok(ObjectId(b))
    ensures |b| == 10 || |b| == 14 ==> FromString(Bin2Hex(b)).Err?
  {
    if |b| == RAW_LENGTH {
      FromStringToString(ObjectId(b));
    }
  }

  /** A string holding any character outside the hex digits, such as a
      non-ASCII one, is refused. */
  lemma FromStringRejectsNonHex(s: string, i: nat)
    requires i < |s| && !IsHexChar(s[i])
    ensures FromString(s) == Err(IllegalString(s))
  {
  }

  /** Parsing ignores case: a legal string and its lowercase form give the
      same id, and that id prints as the lowercase form. */
  lemma FromStringCaseInsensitive(s: string)
    requires Legal(s)
    ensures Legal(LowerHexString(s))
    ensures FromString(LowerHexString(s)) == FromString(s)
  {
    var t := LowerHexString(s);
    assert AllHex(t);
    var id := FromString(s).value;
    assert id.ToString() == t;
    FromStringToString(id);
  }

  /** The hex form is always legal and already lowercase. */
  lemma ToStringIsLegal(id: ObjectId)
    ensures Legal(id.ToString())
    ensures LowerHexString(id.ToString()) == id.ToString()
  {
  }

  /** A legal string prints back as itself exactly when it has no uppercase
      digit. */
  lemma ToStringOfFromString(s: string)
    requires Legal(s)
    ensures FromString(s).value.ToString() == s <==> forall i :: 0 <= i < |s| ==> IsLowerHexChar(s[i])
  {
    var t := FromString(s).value.ToString();
    if t != s {
      var i :| 0 <= i < |s| && t[i] != s[i];
      assert !IsLowerHexChar(s[i]);
    }
  }

  /** Two ids are equal exactly when their hex forms are. */
  lemma EqualsIffSameString(a: ObjectId, b: ObjectId)
    ensures a.Equals(AnObjectId(b)) <==> a.ToString() == b.ToString()
  {
    if a.ToString() == b.ToString() {
      Bin2HexInjective(a.rawData, b.rawData);
    }
  }

  /** `equals` is reflexive and symmetric, agrees with `compareTo`, and is
      false for anything that is not an ObjectId. */
  lemma EqualsLaws(a: ObjectId, b: ObjectId)
    ensures a.Equals(AnObjectId(a))
    ensures a.Equals(AnObjectId(b)) == b.Equals(AnObjectId(a))
    ensures a.Equals(AnObjectId(b)) <==> a.CompareTo(b) == 0
    ensures !a.Equals(OtherValue)
  {
  }

  /** `compareTo` is antisymmetric and transitive, so it is a total order. */
  lemma CompareToLaws(a: ObjectId, b: ObjectId, c: ObjectId)
    ensures b.CompareTo(a) == -a.CompareTo(b)
    ensures a.CompareTo(b) <= 0 && b.CompareTo(c) <= 0 ==> a.CompareTo(c) <= 0
    ensures a.CompareTo(b) == -1 && b.CompareTo(c) == -1 ==> a.CompareTo(c) == -1
  {
    CompareAntisymmetric(a.rawData, b.rawData);
    CompareZeroIffEqual(a.rawData, b.rawData);
    CompareZeroIffEqual(b.rawData, c.rawData);
    if a.CompareTo(b) == -1 && b.CompareTo(c) == -1 {
      CompareTransitive(a.rawData, b.rawData, c.rawData);
    }
  }

  /** Ordering ids is ordering their hex forms as strings. */
  lemma CompareToMatchesHexOrder(a: ObjectId, b: ObjectId)
    ensures a.CompareTo(b) == CompareStrings(a.ToString(), b.ToString())
  {
    CompareBin2Hex(a.rawData, b.rawData);
  }

  /** `"1000…"` sorts before `"2000…"`. */
  lemma CompareToExample()
    ensures FromString("100000000000000000000000").Ok?
    ensures FromString("200000000000000000000000").Ok?
    ensures FromString("100000000000000000000000").value.CompareTo(FromString("200000000000000000000000").value) == -1
    ensures FromString("200000000000000000000000").value.CompareTo(FromString("100000000000000000000000").value) == 1
  {
    var s1, s2 := "100000000000000000000000", "200000000000000000000000";
    assert Legal(s1) && Legal(s2);
    var a, b := FromString(s1).value, FromString(s2).value;
    assert a.ToString()[0] == LowerHex(s1[0]) == '1';
    assert b.ToString()[0] == LowerHex(s2[0]) == '2';
    assert a.rawData[0] / 16 == 1 by { DigitValueOfDigit(a.rawData[0] / 16); }
    assert b.rawData[0] / 16 == 2 by { DigitValueOfDigit(b.rawData[0] / 16); }
    assert LessAt(a.rawData, b.rawData, 0);
    assert LessAt(b.rawData, a.rawData, 0) == false;
  }

  /** The zero-filled id recovers its time. */
  lemma ZeroFilledTime(timestamp: int)
    ensures ObjectId(ZeroFilled(timestamp)).GetGenerationTime() == timestamp % 0x1_0000_0000
    ensures 0 <= timestamp < 0x1_0000_0000 ==> ObjectId(ZeroFilled(timestamp)).GetGenerationTime() == timestamp
  {
    TimeFromPackedPrefix(ObjectId(ZeroFilled(timestamp)), timestamp);
  }

  /** The hex form of the zero-filled id ends in sixteen `'0'` characters. */
  lemma ZeroFilledHex(timestamp: int)
    ensures ObjectId(ZeroFilled(timestamp)).ToString()[8..] == "0000000000000000"
  {
    var id := ObjectId(ZeroFilled(timestamp));
    var s := id.ToString();
    forall k | 8 <= k < HEX_LENGTH
      ensures s[k] == '0'
    {
      var i := k / 2;
      assert id.rawData[i] == 0;
      assert s[2 * i] == Digit(0) && s[2 * i + 1] == Digit(0);
      assert k == 2 * i || k == 2 * i + 1;
    }
  }

  /** A generated id recovers its time: for a timestamp that fits in 32
      bits, exactly that timestamp. */
  lemma GeneratedTime(time: int, processId: seq<Byte>, counter: int)
    requires |processId| == PID_LENGTH
    ensures ObjectId(Generate(time, processId, counter)).GetGenerationTime() == time % 0x1_0000_0000
    ensures 0 <= time < 0x1_0000_0000 ==> ObjectId(Generate(time, processId, counter)).GetGenerationTime() == time
  {
    TimeFromPackedPrefix(ObjectId(Generate(time, processId, counter)), time);
  }

  /** An id that starts with `pack('N', time)` was generated at `time`
      modulo 2^32. */
  lemma TimeFromPackedPrefix(id: ObjectId, time: int)
    requires id.rawData[..4] == PackN(time)
    ensures id.GetGenerationTime() == time % 0x1_0000_0000
    ensures 0 <= time < 0x1_0000_0000 ==> id.GetGenerationTime() == time
  {
    UnpackPack(time, 4);
    Pow256Widths();
    SmallMod(time, 0x1_0000_0000);
  }

  /** Two unique `fromTime` calls with one timestamp give ids whose hex forms
      differ but whose generation times agree. */
  method FromTimeTwice(g: Generator, time: int) returns (a: ObjectId, b: ObjectId)
    requires g.Valid()
    modifies g
    ensures g.Valid() && g.processId == old(g.processId)
    ensures g.counter == StepN(old(g.counter), 2)
    ensures a.rawData == Generate(time, g.processId, StepN(old(g.counter), 1))
    ensures b.rawData == Generate(time, g.processId, g.counter)
    ensures a.ToString() != b.ToString()
    ensures a.GetGenerationTime() == b.GetGenerationTime() == time % 0x1_0000_0000
  {
    ghost var c0 := g.counter;
    a := FromTime(g, time);
    ghost var c1 := g.counter;
    assert c1 == StepN(c0, 1);
    b := FromTime(g, time);
    assert g.counter == Step(c1) == StepN(c0, 2);
    ConsecutiveIdsDistinct(time, g.processId, c0, 2, 1, 2);
    EqualsIffSameString(a, b);
  }

  /** `inspect` shows the hex form and is longer than it. */
  lemma InspectShowsHex(id: ObjectId)
    ensures |id.Inspect()| > |id.ToString()|
    ensures exists k :: OccursAt(id.ToString(), id.Inspect(), k)
  {
    assert OccursAt(id.ToString(), id.Inspect(), |INSPECT_PREFIX|);
  }

  /** `part` stands in `whole` starting at position `k`. */
  ghost predicate OccursAt(part: string, whole: string, k: nat)
  {
    k + |part| <= |whole| && whole[k..k + |part|] == part
  }
}
