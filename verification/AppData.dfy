/** Application-tagged primitive values (ANSI/ASHRAE Standard 135, sections 20.2.2 to 20.2.14), for the
    datatypes this build enables: all the primitive ones except DOUBLE. */
module AppData {
  import opened Wrappers
  import opened Octets
  import opened Transmit
  import opened Tags

  const MAX_STRING_BYTES := 1470
  const CHARACTER_STRING_CAPACITY := 1469
  const MAX_BITSTRING_BYTES := 15
  const PRIORITY_ARRAY_SLOTS := 16

  /** A REAL is its four IEEE 754 octets, most significant first. A bit string is its number of used
      bits and the octets that hold them, bit 0 being the low bit of the first octet. A character
      string's text is as long as `characterstring_length` says, which never exceeds the capacity. */
  datatype AppValue =
    | Null
    | Boolean(b: bool)
    | Unsigned(u: nat)
    | Signed(i: int)
    | Real(octets: Bytes)
    | OctetString(bytes: Bytes)
    | CharacterString(encoding: Octet, text: Bytes)
    | BitString(used: nat, bitOctets: Bytes)
    | Enumerated(e: nat)
    | Date(year: nat, month: Octet, day: Octet, wday: Octet)
    | Time(hour: Octet, min: Octet, sec: Octet, hundredths: Octet)
    | ObjectId(objectType: nat, instance: nat)

  /** What the C union can hold. */
  predicate Representable(v: AppValue) {
    match v
    case Null => true
    case Boolean(_) => true
    case Unsigned(u) => u < 0x1_0000_0000_0000_0000
    case Signed(i) => -0x8000_0000 <= i < 0x8000_0000
    case Real(octets) => |octets| == 4
    case OctetString(bytes) => |bytes| <= MAX_STRING_BYTES
    case CharacterString(_, text) => |text| <= CHARACTER_STRING_CAPACITY
    case BitString(used, octets) => |octets| <= MAX_BITSTRING_BYTES && |octets| == (used + 7) / 8
    case Enumerated(e) => e < 0x1_0000_0000
    case Date(year, _, _, _) => year < 0x1_0000
    case Time(_, _, _, _) => true
    case ObjectId(objectType, instance) => objectType < 0x1_0000_0000 && instance < 0x1_0000_0000
  }

  /** What the standard's encodings can carry. */
  predicate InRange(v: AppValue) {
    && Representable(v)
    && (v.Date? ==> 1900 <= v.year <= 2155)
    && (v.ObjectId? ==> v.objectType <= 0x3FF && v.instance <= 0x3F_FFFF)
  }

  /** A value the standard's encodings can carry. */
  type Primitive = v: AppValue | InRange(v) witness Null

  function TagNumber(v: AppValue): Octet {
    match v
    case Null => 0
    case Boolean(_) => 1
    case Unsigned(_) => 2
    case Signed(_) => 3
    case Real(_) => 4
    case OctetString(_) => 6
    case CharacterString(_, _) => 7
    case BitString(_, _) => 8
    case Enumerated(_) => 9
    case Date(_, _, _, _) => 10
    case Time(_, _, _, _) => 11
    case ObjectId(_, _) => 12
  }

  function YearOctet(year: nat): Octet {
    if year >= 1900 then (year - 1900) % 256 else if year < 256 then year else 255
  }

  function ObjectIdNumber(objectType: nat, instance: nat): (n: nat)
    ensures n < 0x1_0000_0000
  {
    objectType % 0x400 * 0x40_0000 + instance % 0x40_0000
  }

  /** The octets after the tag. */
  function Content(v: AppValue): Bytes
    requires Representable(v)
  {
    match v
    case Null => []
    case Boolean(_) => []
    case Unsigned(u) => BigEndian(UnsignedLength(u), u)
    case Signed(i) => SignedBytes(i)
    case Real(octets) => octets
    case OctetString(bytes) => bytes
    case CharacterString(encoding, text) => [encoding] + text
    case BitString(used, octets) => [8 * |octets| - used] + ReverseEach(octets)
    case Enumerated(e) => BigEndian(UnsignedLength(e), e)
    case Date(year, month, day, wday) => [YearOctet(year), month, day, wday]
    case Time(hour, min, sec, hundredths) => [hour, min, sec, hundredths]
    case ObjectId(objectType, instance) => BigEndian(4, ObjectIdNumber(objectType, instance))
  }

  /** A boolean is carried in the tag itself. */
  function LenValue(v: AppValue): (n: nat)
    requires Representable(v)
    ensures n <= MAX_STRING_BYTES + 1
  {
    if v.Boolean? then if v.b then 1 else 0 else |Content(v)|
  }

  function Encode(v: AppValue): (s: Bytes)
    requires Representable(v)
    ensures s != []
  {
    EncodeTag(TagNumber(v), false, LenValue(v)) + Content(v)
  }

  function DecodeUnsigned(s: Bytes, len: nat): Option<nat> {
    if 1 <= len <= 8 && len <= |s| then Some(FromBigEndian(s[..len])) else None
  }

  /** `bacapp_data_decode`: the content of a value whose tag said `number` and `lenValue`; None when the
      tag field of the value would be set to MAX_BACNET_APPLICATION_TAG or the length is negative. An
      object identifier whose length is not 4 takes four octets but leaves the zeroed value alone. */
  function DecodeContent(number: Octet, lenValue: nat, s: Bytes): (r: Option<Parsed<AppValue>>)
    ensures r.Some? ==> r.value.consumed <= |s|
  {
    match number
    case 0 => Some(Parsed(Null, 0))
    case 1 => Some(Parsed(Boolean(lenValue != 0), 0))
    case 2 =>
      (match DecodeUnsigned(s, lenValue)
       case None => None
       case Some(u) => Some(Parsed(Unsigned(u), lenValue)))
    case 3 =>
      if 1 <= lenValue <= 4 && lenValue <= |s|
      then Some(Parsed(Signed(SignExtend(lenValue, FromBigEndian(s[..lenValue]))), lenValue)) else None
    case 4 => if lenValue == 4 && 4 <= |s| then Some(Parsed(Real(s[..4]), 4)) else None
    case 6 =>
      if lenValue <= |s| && lenValue <= MAX_STRING_BYTES
      then Some(Parsed(OctetString(s[..lenValue]), lenValue)) else None
    case 7 =>
      if 0 < lenValue <= |s| && lenValue - 1 <= CHARACTER_STRING_CAPACITY
      then Some(Parsed(CharacterString(s[0], s[1..lenValue]), lenValue)) else None
    case 8 =>
      if 0 < lenValue <= |s| && lenValue - 1 <= MAX_BITSTRING_BYTES
      then Some(Parsed(BitString(if lenValue == 1 then 0 else 8 * (lenValue - 1) - s[0] % 8,
                                 ReverseEach(s[1..lenValue])), lenValue)) else None
    case 9 =>
      (match DecodeUnsigned(s, lenValue)
       case None => None
       case Some(e) => Some(Parsed(Enumerated(e % 0x1_0000_0000), lenValue)))
    case 10 =>
      if lenValue == 4 && 4 <= |s| then Some(Parsed(Date(1900 + (s[0] as int), s[1], s[2], s[3]), 4)) else None
    case 11 => if lenValue == 4 && 4 <= |s| then Some(Parsed(Time(s[0], s[1], s[2], s[3]), 4)) else None
    case 12 =>
      if 4 <= |s| then
        var n := FromBigEndian(s[..4]);
        Some(Parsed(if lenValue == 4 then ObjectId(n / 0x40_0000 % 0x400, n % 0x40_0000) else ObjectId(0, 0), 4))
      else None
    case _ => None
  }

  /** The three outcomes of `bacapp_decode_application_data`: a positive count, BACNET_STATUS_ERROR, and
      zero for an empty buffer. */
  datatype Decoding = Decoded(item: Parsed<AppValue>) | Malformed | NothingThere

  function Decode(s: Bytes): (r: Decoding)
    ensures r.Decoded? ==> 1 <= r.item.consumed <= |s|
  {
    if s == [] then NothingThere else
    match DecodeTag(s)
    case None => Malformed
    case Some(Parsed(tag, n)) =>
      if tag.class_ != Application then Malformed else
      match DecodeContent(tag.number, tag.lenValue, s[n..])
      case None => Malformed
      case Some(Parsed(v, m)) => Decoded(Parsed(v, n + m))
  }

  /** What survives the wire: the value itself, apart from the masks and the year octet. */
  function Carried(v: AppValue): AppValue
    requires Representable(v)
  {
    match v
    case Date(year, month, day, wday) => Date(1900 + (YearOctet(year) as int), month, day, wday)
    case ObjectId(objectType, instance) => ObjectId(objectType % 0x400, instance % 0x40_0000)
    case _ => v
  }

  ghost predicate ContentSurvives(v: AppValue, rest: Bytes)
    requires Representable(v)
  {
    DecodeContent(TagNumber(v), LenValue(v), Content(v) + rest) ==
    Some(Parsed(Carried(v), |Content(v)|))
  }

  lemma UnsignedSurvives(v: AppValue, rest: Bytes)
    requires (v.Unsigned? || v.Enumerated?) && Representable(v)
    ensures ContentSurvives(v, rest)
  {
    hide Pow256, BigEndian, FromBigEndian;
    PowerValues();
    var u := if v.Unsigned? then v.u else v.e;
    BigEndianRoundTrip(UnsignedLength(u), u);
    assert (Content(v) + rest)[..|Content(v)|] == Content(v);
  }

  lemma SignedSurvives(v: AppValue, rest: Bytes)
    requires v.Signed? && Representable(v)
    ensures ContentSurvives(v, rest)
  {
    hide SignedBytes, FromBigEndian, SignExtend;
    SignedRoundTrip(v.i);
    assert (Content(v) + rest)[..|Content(v)|] == Content(v);
  }

  lemma StringSurvives(v: AppValue, rest: Bytes)
    requires (v.OctetString? || v.CharacterString?) && Representable(v)
    ensures ContentSurvives(v, rest)
  {
    var s, len := Content(v) + rest, |Content(v)|;
    if v.OctetString? {
      assert s[..len] == v.bytes;
    } else {
      assert s[1..len] == v.text;
    }
  }

  lemma BitStringSurvives(v: AppValue, rest: Bytes)
    requires v.BitString? && Representable(v)
    ensures ContentSurvives(v, rest)
  {
    hide ReverseEach;
    var s, len := Content(v) + rest, |Content(v)|;
    assert s[1..len] == ReverseEach(v.bitOctets);
    ReverseEachTwice(v.bitOctets);
  }

  lemma ObjectIdFields(t: nat, i: nat)
    requires t < 0x400 && i < 0x40_0000
    ensures var n := t * 0x40_0000 + i; n / 0x40_0000 % 0x400 == t && n % 0x40_0000 == i
  {
  }

  lemma ObjectIdSurvives(v: AppValue, rest: Bytes)
    requires v.ObjectId? && Representable(v)
    ensures ContentSurvives(v, rest)
  {
    hide Pow256, BigEndian, FromBigEndian;
    PowerValues();
    var n := ObjectIdNumber(v.objectType, v.instance);
    ObjectIdFields(v.objectType % 0x400, v.instance % 0x40_0000);
    BigEndianRoundTrip(4, n);
    assert (Content(v) + rest)[..4] == BigEndian(4, n);
  }

  lemma FixedSurvives(v: AppValue, rest: Bytes)
    requires (v.Null? || v.Boolean? || v.Real? || v.Date? || v.Time?) && Representable(v)
    ensures ContentSurvives(v, rest)
  {
    assert (Content(v) + rest)[..|Content(v)|] == Content(v);
  }

  lemma ContentRoundTrip(v: AppValue, rest: Bytes)
    requires Representable(v)
    ensures ContentSurvives(v, rest)
  {
    hide *;
    match v
    case Unsigned(_) => UnsignedSurvives(v, rest);
    case Enumerated(_) => UnsignedSurvives(v, rest);
    case Signed(_) => SignedSurvives(v, rest);
    case OctetString(_) => StringSurvives(v, rest);
    case CharacterString(_, _) => StringSurvives(v, rest);
    case BitString(_, _) => BitStringSurvives(v, rest);
    case ObjectId(_, _) => ObjectIdSurvives(v, rest);
    case _ => FixedSurvives(v, rest);
  }

  /** What decoding makes of an encoded value, for everything the C union can hold. */
  lemma DecodeOfEncode(v: AppValue, rest: Bytes)
    requires Representable(v)
    ensures Decode(Encode(v) + rest) == Decoded(Parsed(Carried(v), |Encode(v)|))
  {
    hide EncodeTag, DecodeTag, DecodeContent, Content, LenValue, TagNumber, Carried, Representable;
    var tag := EncodeTag(TagNumber(v), false, LenValue(v));
    Regroup(tag, Content(v), rest);
    TagRoundTrip(TagNumber(v), false, LenValue(v), Content(v) + rest);
    ContentRoundTrip(v, rest);
    assert (Encode(v) + rest)[|tag|..] == Content(v) + rest;
  }

  lemma CarriedUnchanged(v: AppValue)
    requires Representable(v)
    ensures InRange(v) <==> Carried(v) == v
  {
  }

  /** Decoding an encoded value restores it and consumes exactly its octets, whatever follows, if and only
      if the value is one the standard's encodings can carry. */
  lemma AppDataRoundTrip(v: AppValue, rest: Bytes)
    requires Representable(v)
    ensures Decode(Encode(v) + rest) == Decoded(Parsed(v, |Encode(v)|)) <==> InRange(v)
  {
    hide *;
    DecodeOfEncode(v, rest);
    CarriedUnchanged(v);
  }

  /** The fixed forms on the wire, octet by octet. */
  lemma FixedForms(b: bool, octets: Bytes, year: nat, month: Octet, day: Octet, wday: Octet,
                   hour: Octet, min: Octet, sec: Octet, hundredths: Octet)
    requires |octets| == 4 && 1900 <= year <= 2155
    ensures Encode(Null) == [0x00]
    ensures Encode(Boolean(b)) == [if b then 0x11 else 0x10]
    ensures Encode(Real(octets)) == [0x44] + octets
    ensures Encode(Date(year, month, day, wday)) == [0xA4, year - 1900, month, day, wday]
    ensures Encode(Time(hour, min, sec, hundredths)) == [0xB4, hour, min, sec, hundredths]
  {
  }

  /** The others: a tag with the type's number and the length, and the content. */
  lemma NumberForms(u: nat, i: int, e: nat, objectType: nat, instance: nat)
    requires u < 0x1_0000_0000_0000_0000 && -0x8000_0000 <= i < 0x8000_0000 && e < 0x1_0000_0000
    requires objectType <= 0x3FF && instance <= 0x3F_FFFF
    ensures Encode(Unsigned(u)) == EncodeTag(2, false, UnsignedLength(u)) + BigEndian(UnsignedLength(u), u)
    ensures Encode(Signed(i)) == EncodeTag(3, false, |SignedBytes(i)|) + SignedBytes(i)
    ensures Encode(Enumerated(e)) == EncodeTag(9, false, UnsignedLength(e)) + BigEndian(UnsignedLength(e), e)
    ensures Encode(ObjectId(objectType, instance)) == [0xC4] + BigEndian(4, objectType * 0x40_0000 + instance)
  {
    hide Encode, BigEndian, SignedBytes, UnsignedLength;
    UnsignedForm(u);
    SignedForm(i);
    EnumeratedForm(e);
    ObjectIdForm(objectType, instance);
  }

  lemma UnsignedForm(u: nat)
    requires u < 0x1_0000_0000_0000_0000
    ensures Encode(Unsigned(u)) == EncodeTag(2, false, UnsignedLength(u)) + BigEndian(UnsignedLength(u), u)
  {
    hide BigEndian, UnsignedLength, EncodeTag;
  }

  lemma SignedForm(i: int)
    requires -0x8000_0000 <= i < 0x8000_0000
    ensures Encode(Signed(i)) == EncodeTag(3, false, |SignedBytes(i)|) + SignedBytes(i)
  {
    hide SignedBytes, EncodeTag;
  }

  lemma EnumeratedForm(e: nat)
    requires e < 0x1_0000_0000
    ensures Encode(Enumerated(e)) == EncodeTag(9, false, UnsignedLength(e)) + BigEndian(UnsignedLength(e), e)
  {
    hide BigEndian, UnsignedLength, EncodeTag;
  }

  lemma ObjectIdForm(objectType: nat, instance: nat)
    requires objectType <= 0x3FF && instance <= 0x3F_FFFF
    ensures Encode(ObjectId(objectType, instance)) == [0xC4] + BigEndian(4, objectType * 0x40_0000 + instance)
  {
    hide BigEndian, EncodeTag;
    TagOctets(12, false, 4);
  }

  lemma StringForms(bytes: Bytes, encoding: Octet, text: Bytes, used: nat, bits: Bytes)
    requires |bytes| <= MAX_STRING_BYTES && |text| <= CHARACTER_STRING_CAPACITY
    requires |bits| <= MAX_BITSTRING_BYTES && |bits| == (used + 7) / 8
    ensures Encode(OctetString(bytes)) == EncodeTag(6, false, |bytes|) + bytes
    ensures Encode(CharacterString(encoding, text)) == EncodeTag(7, false, 1 + |text|) + ([encoding] + text)
    ensures Encode(BitString(used, bits)) ==
            EncodeTag(8, false, 1 + |bits|) + ([8 * |bits| - used] + ReverseEach(bits))
  {
    hide Encode;
    OctetStringForm(bytes);
    CharacterStringForm(encoding, text);
    BitStringForm(used, bits);
  }

  lemma OctetStringForm(bytes: Bytes)
    requires |bytes| <= MAX_STRING_BYTES
    ensures Encode(OctetString(bytes)) == EncodeTag(6, false, |bytes|) + bytes
  {
    hide EncodeTag;
  }

  lemma CharacterStringForm(encoding: Octet, text: Bytes)
    requires |text| <= CHARACTER_STRING_CAPACITY
    ensures Encode(CharacterString(encoding, text)) == EncodeTag(7, false, 1 + |text|) + ([encoding] + text)
  {
    hide EncodeTag;
  }

  lemma BitStringForm(used: nat, bits: Bytes)
    requires |bits| <= MAX_BITSTRING_BYTES && |bits| == (used + 7) / 8
    ensures Encode(BitString(used, bits)) ==
            EncodeTag(8, false, 1 + |bits|) + ([8 * |bits| - used] + ReverseEach(bits))
  {
    hide EncodeTag, ReverseEach;
  }

  /** What the decoder refuses: the wrong class, and for each type the lengths it cannot have. */
  lemma WrongLengthIsMalformed(number: Octet, contextSpecific: bool, len: nat, content: Bytes)
    requires len < 0x1_0000_0000
    requires
      || contextSpecific
      || (number in {2, 9} && (len == 0 || len > 8))
      || (number == 3 && (len == 0 || len > 4))
      || (number in {4, 10, 11} && len != 4)
      || (number in {7, 8} && len == 0)
      || (number in {2, 3, 6, 7, 8, 9} && len > |content|)
      || (number in {4, 10, 11, 12} && |content| < 4)
      || (number == 6 && len > 1470) || (number == 7 && len > 1470) || (number == 8 && len > 16)
      || number == 5 || number > 12
    ensures Decode(EncodeTag(number, contextSpecific, len) + content) == Malformed
  {
    hide EncodeTag, DecodeTag;
    TagRoundTrip(number, contextSpecific, len, content);
    var tag := EncodeTag(number, contextSpecific, len);
    assert (tag + content)[|tag|..] == content;
  }

  /** Of the octet that counts a bit string's unused bits only the low three bits count, and a bit string of nothing
      else is empty. */
  lemma UnusedBitsAreCut(unused: Octet, bits: Bytes, rest: Bytes)
    requires |bits| <= 15
    ensures Decode(EncodeTag(8, false, 1 + |bits|) + ([unused] + bits + rest))
         == Decoded(Parsed(BitString(if bits == [] then 0 else 8 * |bits| - unused % 8, ReverseEach(bits)),
                           |EncodeTag(8, false, 1 + |bits|)| + 1 + |bits|))
  {
    hide EncodeTag, DecodeTag, ReverseEach;
    var tag, content := EncodeTag(8, false, 1 + |bits|), [unused] + bits + rest;
    TagRoundTrip(8, false, 1 + |bits|, content);
    assert (tag + content)[|tag|..] == content;
    assert content[1..1 + |bits|] == bits;
  }

  /** An enumerated of more than 32 bits is cut to 32. */
  lemma WideEnumeratedIsCut(e: nat, rest: Bytes)
    requires e < 0x1_0000_0000_0000_0000
    ensures Decode(EncodeTag(9, false, 8) + (BigEndian(8, e) + rest))
         == Decoded(Parsed(Enumerated(e % 0x1_0000_0000), |EncodeTag(9, false, 8)| + 8))
  {
    hide EncodeTag, DecodeTag, BigEndian, FromBigEndian, Pow256;
    PowerValues();
    var tag, content := EncodeTag(9, false, 8), BigEndian(8, e) + rest;
    TagRoundTrip(9, false, 8, content);
    assert (tag + content)[|tag|..] == content;
    assert content[..8] == BigEndian(8, e);
    BigEndianRoundTrip(8, e);
  }

  /** An object identifier whose length is not 4 is taken with four octets, but not its value. */
  lemma WrongObjectIdLength(len: nat, content: Bytes)
    requires len != 4 && len < 0x1_0000_0000 && 4 <= |content|
    ensures Decode(EncodeTag(12, false, len) + content)
         == Decoded(Parsed(ObjectId(0, 0), |EncodeTag(12, false, len)| + 4))
  {
    hide EncodeTag, DecodeTag;
    TagRoundTrip(12, false, len, content);
    var tag := EncodeTag(12, false, len);
    assert (tag + content)[|tag|..] == content;
  }

  /** A value cut short is refused wherever the cut is. */
  lemma TruncatedIsMalformed(v: Primitive, n: nat)
    requires 0 < n < |Encode(v)|
    ensures Decode(Encode(v)[..n]) == Malformed
  {
    hide EncodeTag, DecodeTag, DecodeContent, Content, Representable;
    var tag, content := EncodeTag(TagNumber(v), false, LenValue(v)), Content(v);
    if n < |tag| {
      assert Encode(v)[..n] == tag[..n];
      ShortTag(TagNumber(v), LenValue(v), n);
    } else {
      var front := content[..n - |tag|];
      assert Encode(v)[..n] == tag + front;
      TagRoundTrip(TagNumber(v), false, LenValue(v), front);
      assert (tag + front)[|tag|..] == front;
      ShortContent(v, front);
    }
  }

  lemma ShortTag(number: Octet, len: nat, n: nat)
    requires number <= 12 && len <= 65535 && 0 < n < |EncodeTag(number, false, len)|
    ensures DecodeTag(EncodeTag(number, false, len)[..n]) == None
  {
    hide BigEndian, FromBigEndian;
    TagOctets(number, false, len);
  }

  lemma ShortContent(v: Primitive, front: Bytes)
    requires |front| < |Content(v)|
    ensures DecodeContent(TagNumber(v), LenValue(v), front) == None
  {
    hide BigEndian, FromBigEndian, SignedBytes, ReverseEach;
    if v.Signed? {
      SignedRoundTrip(v.i);
    }
  }

  /** A date before 1900 comes back 1900 years later. */
  lemma EarlyDateChanges(rest: Bytes)
    ensures var v := Date(91, 1, 24, 5);
      Decode(Encode(v) + rest) == Decoded(Parsed(Date(1991, 1, 24, 5), |Encode(v)|))
  {
    hide Encode, Decode;
    DecodeOfEncode(Date(91, 1, 24, 5), rest);
  }

  /** An instance above 22 bits comes back as another object's. */
  lemma WideInstanceChanges(rest: Bytes)
    ensures var v := ObjectId(8, 0x40_0001);
      Decode(Encode(v) + rest) == Decoded(Parsed(ObjectId(8, 1), |Encode(v)|))
  {
    hide Encode, Decode;
    DecodeOfEncode(ObjectId(8, 0x40_0001), rest);
  }

  lemma PrimitiveRoundTrip(v: Primitive, rest: Bytes)
    ensures Decode(Encode(v) + rest) == Decoded(Parsed(v, |Encode(v)|))
  {
    hide Encode, Decode, Representable;
    AppDataRoundTrip(v, rest);
  }

  /** Examples of the standard, sections 20.2.4, 20.2.5 and 20.2.11. */
  lemma IntegerExamples()
    ensures Encode(Unsigned(72)) == [0x21, 0x48]
    ensures Encode(Signed(72)) == [0x31, 0x48]
    ensures Encode(Enumerated(0)) == [0x91, 0x00]
  {
    hide Pow256;
    PowerValues();
    assert BigEndian(0, 0) == [];
    assert BigEndian(1, 72) == [72] && BigEndian(1, 0) == [0];
  }

  /** Section 20.2.14: the type stands in the high ten bits, the instance in the low 22. */
  lemma ObjectIdExample()
    ensures Encode(ObjectId(3, 15)) == [0xC4, 0x00, 0xC0, 0x00, 0x0F]
  {
    hide BigEndian, EncodeTag;
    ObjectIdOctets();
    assert ObjectIdNumber(3, 15) == 0xC0_000F;
    assert EncodeTag(12, false, 4) == [0xC4] by {
      FourOctetTag();
    }
  }

  lemma FourOctetTag()
    ensures EncodeTag(12, false, 4) == [0xC4]
  {
  }

  lemma ObjectIdOctets()
    ensures BigEndian(4, 0xC0_000F) == [0x00, 0xC0, 0x00, 0x0F]
  {
    assert BigEndian(0, 0) == [];
    assert BigEndian(1, 0) == [0x00];
    assert BigEndian(2, 0xC0) == [0x00, 0xC0];
    assert BigEndian(3, 0xC000) == [0x00, 0xC0, 0x00];
  }

  /** Sections 20.2.8, 20.2.12 and 20.2.13. */
  lemma OtherExamples()
    ensures Encode(OctetString([0x12, 0x34, 0xFF])) == [0x63, 0x12, 0x34, 0xFF]
    ensures Encode(Date(1991, 1, 24, 5)) == [0xA4, 0x5B, 0x01, 0x18, 0x05]
    ensures Encode(Time(17, 35, 45, 17)) == [0xB4, 0x11, 0x23, 0x2D, 0x11]
  {
  }

  function EncodeAll(vs: seq<Primitive>): Bytes {
    if vs == [] then [] else Encode(vs[0]) + EncodeAll(vs[1..])
  }

  /** Decoding value after value until the octets or the slots run out or a value is malformed. */
  function DecodeUpTo(s: Bytes, slots: nat): seq<AppValue> {
    if s == [] || slots == 0 then [] else
    match Decode(s)
    case Decoded(Parsed(v, n)) => [v] + DecodeUpTo(s[n..], slots - 1)
    case _ => []
  }

  lemma DecodeNext(v: Primitive, rest: Bytes, slots: nat)
    requires slots > 0
    ensures DecodeUpTo(Encode(v) + rest, slots) == [v] + DecodeUpTo(rest, slots - 1)
  {
    hide Encode, Decode, Representable;
    PrimitiveRoundTrip(v, rest);
    assert (Encode(v) + rest)[|Encode(v)|..] == rest;
  }

  /** The loop recovers exactly the values that were encoded, in order, up to the number of slots. */
  lemma {:induction false} DecodeUpToRoundTrip(vs: seq<Primitive>, slots: nat)
    ensures DecodeUpTo(EncodeAll(vs), slots) == vs[..Min(|vs|, slots)]
  {
    hide Encode, Decode, Representable;
    if vs == [] || slots == 0 {
    } else {
      AllButFirst(vs);
      DecodeNext(vs[0], EncodeAll(vs[1..]), slots);
      DecodeUpToRoundTrip(vs[1..], slots - 1);
      TakeFirst(vs, slots);
    }
  }

  lemma AllButFirst(vs: seq<Primitive>)
    requires vs != []
    ensures EncodeAll(vs) == Encode(vs[0]) + EncodeAll(vs[1..])
  {
  }

  lemma TakeFirst(vs: seq<Primitive>, n: nat)
    requires vs != [] && n > 0
    ensures vs[..Min(|vs|, n)] == [vs[0]] + vs[1..][..Min(|vs| - 1, n - 1)]
  {
  }

  /** Where the output of `explorer_read` stands before its `n`-th value's text: behind `start` characters, the
      earlier texts and the commas. */
  function TextAt(lengths: seq<nat>, start: nat, n: nat): nat
    requires n <= |lengths|
  {
    if n == 0 then start else TextAt(lengths, start, n - 1) + lengths[n - 1] + 1
  }

  /** Three texts, two commas. */
  lemma ThirdTextPosition(a: nat, b: nat, c: nat, start: nat)
    ensures TextAt([a, b, c], start, 2) == start + a + 1 + b + 1
  {
    assert TextAt([a, b, c], start, 1) == TextAt([a, b, c], start, 0) + a + 1;
  }

  lemma {:induction false} TextsAdvance(lengths: seq<nat>, start: nat, i: nat, n: nat)
    requires i <= n <= |lengths|
    ensures TextAt(lengths, start, i) <= TextAt(lengths, start, n)
    decreases n
  {
    if i == n {
    } else {
      TextsAdvance(lengths, start, i, n - 1);
    }
  }

  /** Of the values `all`, `shown` are the first ones whose texts begin before `limit`. */
  ghost predicate CutOff(all: seq<AppValue>, shown: seq<AppValue>, lengths: seq<nat>, start: nat, limit: int)
    requires |all| <= |lengths|
  {
    && shown <= all
    && (forall n :: 0 <= n < |shown| ==> TextAt(lengths, start, n) < limit)
    && (|shown| < |all| ==> limit <= TextAt(lengths, start, |shown|))
  }

  lemma {:induction false} AtMostSlots(s: Bytes, slots: nat)
    ensures |DecodeUpTo(s, slots)| <= slots
    decreases slots
  {
    hide Decode;
    if slots == 0 {
    } else if s != [] && Decode(s).Decoded? {
      AtMostSlots(s[Decode(s).item.consumed..], slots - 1);
    }
  }

  /** The priority-array loop of `explorer_read`. `lengths` are the lengths of the texts that `append_value_json`
      prints for the values, and no text begins once `limit` characters are out. What is shown is what decoding
      finds, up to that cutoff. */
  method DecodePriorityArray(raw: Bytes, lengths: seq<nat>, start: nat, limit: int) returns (shown: seq<AppValue>)
    requires |lengths| == PRIORITY_ARRAY_SLOTS
    ensures |DecodeUpTo(raw, PRIORITY_ARRAY_SLOTS)| <= PRIORITY_ARRAY_SLOTS
    ensures CutOff(DecodeUpTo(raw, PRIORITY_ARRAY_SLOTS), shown, lengths, start, limit)
  {
    hide Decode, DecodeUpTo, Progress, CutOff, TextAt;
    ghost var all := DecodeUpTo(raw, PRIORITY_ARRAY_SLOTS);
    AtMostSlots(raw, PRIORITY_ARRAY_SLOTS);
    NoProgress(all, lengths, start, limit);
    shown := [];
    var offset, slot := 0, 0;
    var pos: nat := start;
    while offset < |raw| && slot < PRIORITY_ARRAY_SLOTS && pos < limit
      invariant offset <= |raw| && slot <= |all| && slot <= PRIORITY_ARRAY_SLOTS
      invariant all[slot..] == DecodeUpTo(raw[offset..], PRIORITY_ARRAY_SLOTS - slot)
      invariant Progress(all, shown, slot, pos, lengths, start, limit)
    {
      DecodeUnfold(raw[offset..], PRIORITY_ARRAY_SLOTS - slot);
      var d := Decode(raw[offset..]);
      if !d.Decoded? {
        break;
      }
      assert raw[offset..][d.item.consumed..] == raw[offset + d.item.consumed..];
      offset := offset + d.item.consumed;
      assert all[slot] == all[slot..][0] == d.item.value;
      assert all[slot + 1..] == all[slot..][1..];
      ProgressStep(all, shown, slot, pos, lengths, start, limit);
      if slot > 0 {
        pos := pos + 1;
      }
      if pos < limit {
        pos := pos + lengths[slot];
        shown := shown + [d.item.value];
      }
      slot := slot + 1;
    }
    DecodeEnd(raw[offset..], PRIORITY_ARRAY_SLOTS - slot);
    ProgressEnd(all, shown, slot, pos, lengths, start, limit);
  }

  /** After `slot` values: what is shown, and where the output stands. */
  ghost predicate Progress(
    all: seq<AppValue>, shown: seq<AppValue>, slot: nat, pos: nat, lengths: seq<nat>, start: nat, limit: int)
  {
    && |shown| <= slot <= |all| <= |lengths|
    && shown == all[..|shown|]
    && (forall n :: 0 <= n < |shown| ==> TextAt(lengths, start, n) < limit)
    && if |shown| == slot then pos == TextAt(lengths, start, slot) - Min(slot, 1)
       else limit <= pos && limit <= TextAt(lengths, start, |shown|)
  }

  lemma NoProgress(all: seq<AppValue>, lengths: seq<nat>, start: nat, limit: int)
    requires |all| <= |lengths|
    ensures Progress(all, [], 0, start, lengths, start, limit)
  {
  }

  lemma ProgressStep(
    all: seq<AppValue>, shown: seq<AppValue>, slot: nat, pos: nat, lengths: seq<nat>, start: nat, limit: int)
    requires Progress(all, shown, slot, pos, lengths, start, limit) && slot < |all| && pos < limit
    ensures slot < |lengths|
    ensures var behind := if slot > 0 then pos + 1 else pos;
      if behind < limit then
        Progress(all, shown + [all[slot]], slot + 1, behind + lengths[slot], lengths, start, limit)
      else Progress(all, shown, slot + 1, behind, lengths, start, limit)
  {
  }

  lemma ProgressEnd(
    all: seq<AppValue>, shown: seq<AppValue>, slot: nat, pos: nat, lengths: seq<nat>, start: nat, limit: int)
    requires Progress(all, shown, slot, pos, lengths, start, limit)
    requires slot == |all| || limit <= pos
    ensures |all| <= |lengths| && CutOff(all, shown, lengths, start, limit)
  {
  }

  lemma DecodeUnfold(s: Bytes, slots: nat)
    requires s != [] && slots > 0
    ensures DecodeUpTo(s, slots) ==
            if Decode(s).Decoded? then [Decode(s).item.value] + DecodeUpTo(s[Decode(s).item.consumed..], slots - 1)
            else []
  {
    hide Decode;
  }

  lemma DecodeEnd(s: Bytes, slots: nat)
    ensures s == [] || slots == 0 || !Decode(s).Decoded? ==> DecodeUpTo(s, slots) == []
  {
    hide Decode;
  }

  /** So the values of any encoding of at most 16 of them are all shown if and only if the last one's text begins
      below the limit. */
  lemma AllShownExactly(vs: seq<Primitive>, shown: seq<AppValue>, lengths: seq<nat>, start: nat, limit: int)
    requires |vs| <= PRIORITY_ARRAY_SLOTS == |lengths|
    ensures DecodeUpTo(EncodeAll(vs), PRIORITY_ARRAY_SLOTS) == vs
    ensures CutOff(vs, shown, lengths, start, limit) ==>
              (shown == vs <==> vs == [] || TextAt(lengths, start, |vs| - 1) < limit)
  {
    hide EncodeAll, DecodeUpTo, Representable;
    DecodeUpToRoundTrip(vs, PRIORITY_ARRAY_SLOTS);
    assert vs[..|vs|] == vs;
    if vs != [] && |shown| < |vs| {
      TextsAdvance(lengths, start, |shown|, |vs| - 1);
    }
  }

  /** `bacapp_encode_application_data` */
  method WriteApplicationData(apdu: array?<Octet>, at: nat, v: AppValue) returns (len: nat)
    requires Representable(v)
    requires apdu != null ==> at + |Encode(v)| <= apdu.Length
    modifies apdu
    ensures len == |Encode(v)|
    ensures apdu != null ==> Wrote(old(apdu[..]), apdu[..], at, Encode(v))
  {
    hide TagNumber, LenValue, Content, EncodeTag;
    var tagLen := WriteTag(apdu, at, TagNumber(v), false, LenValue(v));
    ghost var between := if apdu != null then apdu[..] else [];
    len := PutOctets(apdu, at + tagLen, Content(v));
    len := tagLen + len;
    if apdu != null {
      WroteBoth(old(apdu[..]), between, apdu[..], at, EncodeTag(TagNumber(v), false, LenValue(v)), Content(v));
    }
  }
}
