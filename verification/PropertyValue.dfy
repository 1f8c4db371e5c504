/** BACnetPropertyValue (ANSI/ASHRAE Standard 135, clause 21) with a list of primitive values: the encoder, the
    decoder, and exactly when they undo each other. */
module PropertyValues {
  import opened Wrappers
  import opened Octets
  import opened Transmit
  import opened Tags
  import opened AppData

  const UINT32_MAX := 0xFFFF_FFFF
  const ARRAY_ALL := UINT32_MAX
  const NO_PRIORITY := 0

  /** `values` is the chain of values; an element tagged as an empty list encodes to nothing and does not count. */
  datatype PropertyValue =
    PropertyValue(property: nat, arrayIndex: nat, values: seq<Primitive>, priority: Octet)

  /** The widths of the C fields. */
  predicate WellSized(pv: PropertyValue) {
    pv.property <= UINT32_MAX && pv.arrayIndex <= UINT32_MAX
  }

  /** `encode_context_unsigned` and `encode_context_enumerated` */
  function ContextUnsigned(number: Octet, u: nat): Bytes {
    EncodeTag(number, true, UnsignedLength(u)) + BigEndian(UnsignedLength(u), u)
  }

  function EncodeIndex(pv: PropertyValue): Bytes {
    if pv.arrayIndex != ARRAY_ALL then ContextUnsigned(1, pv.arrayIndex) else []
  }

  function EncodeEnclosed(pv: PropertyValue): Bytes {
    EncodeOpeningTag(2) + EncodeAll(pv.values) + EncodeClosingTag(2)
  }

  function EncodePriority(pv: PropertyValue): Bytes {
    if pv.priority != NO_PRIORITY then ContextUnsigned(3, pv.priority) else []
  }

  function EncodeFromValue(pv: PropertyValue): Bytes {
    EncodeEnclosed(pv) + EncodePriority(pv)
  }

  function EncodeFromIndex(pv: PropertyValue): Bytes {
    EncodeIndex(pv) + EncodeFromValue(pv)
  }

  function EncodePropertyValue(pv: PropertyValue): Bytes {
    ContextUnsigned(0, pv.property) + EncodeFromIndex(pv)
  }

  /** A field that may be missing, present, or present and wrong. */
  datatype Field<+T> = Absent | Wrong | Present(item: Parsed<T>)

  /** A context-tagged unsigned with the given number, at most `max`. */
  function DecodeField(s: Bytes, number: Octet, max: nat): (r: Field<nat>)
    ensures r.Present? ==> r.item.value <= max && 1 <= r.item.consumed <= |s|
  {
    match DecodeTag(s)
    case None => Absent
    case Some(Parsed(tag, n)) =>
      if tag.class_ != Context || tag.number != number then Absent else
      match DecodeUnsigned(s[n..], tag.lenValue)
      case None => Wrong
      case Some(u) => if u > max then Wrong else Present(Parsed(u, n + tag.lenValue))
  }

  /** `bacnet_is_opening_tag_number` and `bacnet_is_closing_tag_number`: the tag's length, or None. */
  function DecodeBracket(s: Bytes, cls: Class, number: Octet): (r: Option<nat>)
    ensures r.Some? ==> 1 <= r.value <= |s|
  {
    match DecodeTag(s)
    case None => None
    case Some(Parsed(tag, n)) => if tag.class_ == cls && tag.number == number then Some(n) else None
  }

  /** Opening tag 2, one application value, closing tag 2: every decoded value ends the chain, so the loop never
      comes to a second one. */
  function DecodeEnclosed(s: Bytes): (r: Option<Parsed<AppValue>>)
    ensures r.Some? ==> r.value.consumed <= |s|
  {
    match DecodeBracket(s, Opening, 2)
    case None => None
    case Some(open) =>
      match Decode(s[open..])
      case Decoded(Parsed(v, n)) =>
        (match DecodeBracket(s[open + n..], Closing, 2)
         case None => None
         case Some(close) => Some(Parsed(v, open + n + close)))
      case _ => None
  }

  datatype DecodedPropertyValue =
    DecodedPropertyValue(property: nat, arrayIndex: nat, value: AppValue, priority: nat)

  /** The largest property identifier is not checked but cut to 32 bits. */
  function DecodePropertyId(s: Bytes): (r: Option<Parsed<nat>>)
    ensures r.Some? ==> r.value.consumed <= |s|
  {
    match DecodeField(s, 0, 0xFFFF_FFFF_FFFF_FFFF)
    case Present(Parsed(e, n)) => Some(Parsed(e % 0x1_0000_0000, n))
    case _ => None
  }

  function DecodeFromValue(property: nat, arrayIndex: nat, used: nat, s: Bytes): Option<Parsed<DecodedPropertyValue>> {
    match DecodeEnclosed(s)
    case None => None
    case Some(Parsed(v, n)) =>
      match DecodeField(s[n..], 3, 255)
      case Wrong => None
      case Absent => Some(Parsed(DecodedPropertyValue(property, arrayIndex, v, NO_PRIORITY), used + n))
      case Present(Parsed(p, m)) => Some(Parsed(DecodedPropertyValue(property, arrayIndex, v, p), used + n + m))
  }

  function DecodeFromIndex(property: nat, used: nat, s: Bytes): Option<Parsed<DecodedPropertyValue>> {
    match DecodeField(s, 1, UINT32_MAX)
    case Wrong => None
    case Absent => DecodeFromValue(property, ARRAY_ALL, used, s)
    case Present(Parsed(i, n)) => DecodeFromValue(property, i, used + n, s[n..])
  }

  function DecodePropertyValue(s: Bytes): Option<Parsed<DecodedPropertyValue>> {
    match DecodePropertyId(s)
    case None => None
    case Some(Parsed(property, n)) => DecodeFromIndex(property, n, s[n..])
  }

  /** `bacapp_property_value_decode`; None is BACNET_STATUS_ERROR. */
  method ReadPropertyValue(apdu: Bytes) returns (r: Option<Parsed<DecodedPropertyValue>>)
    ensures r == DecodePropertyValue(apdu)
  {
    hide DecodePropertyId, DecodeField, DecodeEnclosed;
    var id := DecodePropertyId(apdu);
    if id.None? {
      return None;
    }
    var len := id.value.consumed;
    var arrayIndex := ARRAY_ALL;
    var index := DecodeField(apdu[len..], 1, UINT32_MAX);
    if index.Wrong? {
      return None;
    }
    if index.Present? {
      assert apdu[len..][index.item.consumed..] == apdu[len + index.item.consumed..];
      len := len + index.item.consumed;
      arrayIndex := index.item.value;
    }
    var enclosed := DecodeEnclosed(apdu[len..]);
    if enclosed.None? {
      return None;
    }
    assert apdu[len..][enclosed.value.consumed..] == apdu[len + enclosed.value.consumed..];
    len := len + enclosed.value.consumed;
    var priority := DecodeField(apdu[len..], 3, 255);
    match priority {
      case Wrong => return None;
      case Absent =>
        return Some(Parsed(DecodedPropertyValue(id.value.value, arrayIndex, enclosed.value.value, NO_PRIORITY), len));
      case Present(p) =>
        return Some(Parsed(DecodedPropertyValue(id.value.value, arrayIndex, enclosed.value.value, p.value),
                           len + p.consumed));
    }
  }

  lemma FieldRoundTrip(number: Octet, u: nat, max: nat, rest: Bytes)
    requires u <= max < 0x1_0000_0000_0000_0000
    ensures DecodeField(ContextUnsigned(number, u) + rest, number, max)
         == Present(Parsed(u, |ContextUnsigned(number, u)|))
  {
    hide EncodeTag, DecodeTag, BigEndian, FromBigEndian, Pow256;
    var len := UnsignedLength(u);
    var tag, body := EncodeTag(number, true, len), BigEndian(len, u);
    PowerValues();
    BigEndianRoundTrip(len, u);
    Regroup(tag, body, rest);
    TagRoundTrip(number, true, len, body + rest);
    assert (tag + (body + rest))[|tag|..] == body + rest;
    assert (body + rest)[..len] == body;
  }

  /** The decoder takes the enclosed list if and only if it has exactly one element. */
  lemma EnclosedRoundTrip(pv: PropertyValue, rest: Bytes)
    ensures DecodeEnclosed(EncodeEnclosed(pv) + rest) ==
            if |pv.values| == 1 then Some(Parsed(pv.values[0], |EncodeEnclosed(pv)|)) else None
    ensures DecodeField(EncodeEnclosed(pv) + rest, 1, UINT32_MAX) == Absent
  {
    hide EncodeOpeningTag, EncodeClosingTag, Encode, Decode, DecodeTag, EncodeAll;
    var open, vs, tail := EncodeOpeningTag(2), EncodeAll(pv.values), EncodeClosingTag(2) + rest;
    var s := EncodeEnclosed(pv) + rest;
    assert s == open + (vs + tail);
    OpeningTagRoundTrip(2, vs + tail);
    assert s[|open|..] == vs + tail;
    ClosingTagRoundTrip(2, rest);
    if pv.values == [] {
      NoValue(tail);
      assert vs + tail == tail;
    } else {
      FirstValue(pv.values, tail);
      assert s[|open| + |Encode(pv.values[0])|..] == (vs + tail)[|Encode(pv.values[0])|..];
    }
  }

  lemma NoValue(s: Bytes)
    requires DecodeTag(s).Some? && DecodeTag(s).value.value.class_ != Application
    ensures EncodeAll([]) == []
    ensures Decode(s) == Malformed
  {
  }

  /** Behind the first value stands the closing tag, or the next value's tag, which is an application tag. */
  lemma FirstValue(vs: seq<Primitive>, tail: Bytes)
    requires vs != []
    ensures var s := EncodeAll(vs) + tail;
      && Decode(s) == Decoded(Parsed(vs[0], |Encode(vs[0])|))
      && |Encode(vs[0])| <= |s|
      && (|vs| == 1 ==> EncodeAll(vs) == Encode(vs[0]) && s[|Encode(vs[0])|..] == tail)
      && (|vs| > 1 ==> DecodeBracket(s[|Encode(vs[0])|..], Closing, 2) == None)
  {
    hide Encode, Decode, Representable, DecodeBracket;
    var first, more := Encode(vs[0]), EncodeAll(vs[1..]);
    AllButFirst(vs);
    Regroup(first, more, tail);
    PrimitiveRoundTrip(vs[0], more + tail);
    assert (first + (more + tail))[|first|..] == more + tail;
    if |vs| == 1 {
      assert more == [] && more + tail == tail;
    } else {
      AllButFirst(vs[1..]);
      Regroup(Encode(vs[1]), EncodeAll(vs[2..]), tail);
      assert vs[1..][1..] == vs[2..];
      ValueIsNoBracket(vs[1], EncodeAll(vs[2..]) + tail);
    }
  }

  lemma ValueIsNoBracket(v: Primitive, rest: Bytes)
    ensures DecodeBracket(Encode(v) + rest, Closing, 2) == None
  {
    hide EncodeTag, DecodeTag, Content, TagNumber, Representable;
    Regroup(EncodeTag(TagNumber(v), false, LenValue(v)), Content(v), rest);
    TagRoundTrip(TagNumber(v), false, LenValue(v), Content(v) + rest);
  }

  /** What follows starts with a context tag 3. */
  predicate LooksLikePriority(rest: Bytes) {
    match DecodeTag(rest)
    case None => false
    case Some(Parsed(tag, _)) => tag.class_ == Context && tag.number == 3
  }

  /** Exactly then it is taken for the optional priority, or for a malformed one. */
  lemma PriorityTaken(rest: Bytes)
    ensures DecodeField(rest, 3, 255) == Absent <==> !LooksLikePriority(rest)
  {
  }

  lemma PriorityRoundTrip(pv: PropertyValue, rest: Bytes)
    ensures DecodeField(EncodePriority(pv) + rest, 3, 255) ==
            if pv.priority != NO_PRIORITY then Present(Parsed(pv.priority, |EncodePriority(pv)|))
            else DecodeField(rest, 3, 255)
  {
    hide ContextUnsigned, DecodeField;
    if pv.priority != NO_PRIORITY {
      FieldRoundTrip(3, pv.priority, 255, rest);
    } else {
      assert EncodePriority(pv) + rest == rest;
    }
  }

  /** All four fields, and the whole encoding, are what decoding gave. */
  predicate Restores(r: Option<Parsed<DecodedPropertyValue>>, pv: PropertyValue, length: nat) {
    && r.Some?
    && r.value.consumed == length
    && r.value.value.property == pv.property
    && r.value.value.arrayIndex == pv.arrayIndex
    && [r.value.value.value] == pv.values
    && r.value.value.priority == pv.priority
  }

  /** When the fields come back: there is one value, and the priority was given or nothing after the encoding
      passes for one. */
  predicate Recoverable(pv: PropertyValue, rest: Bytes) {
    |pv.values| == 1 && (pv.priority != NO_PRIORITY || !LooksLikePriority(rest))
  }

  lemma FromValueRoundTrip(pv: PropertyValue, used: nat, rest: Bytes)
    ensures
      var r := DecodeFromValue(pv.property, pv.arrayIndex, used, EncodeFromValue(pv) + rest);
      && (Restores(r, pv, used + |EncodeFromValue(pv)|) <==> Recoverable(pv, rest))
      && (|pv.values| != 1 ==> r == None)
    ensures DecodeField(EncodeFromValue(pv) + rest, 1, UINT32_MAX) == Absent
  {
    hide DecodeEnclosed, EncodeEnclosed, DecodeField, ContextUnsigned, LooksLikePriority;
    PriorityTaken(rest);
    var a, b := EncodeEnclosed(pv), EncodePriority(pv);
    Regroup(a, b, rest);
    EnclosedRoundTrip(pv, b + rest);
    PriorityRoundTrip(pv, rest);
    assert (a + (b + rest))[|a|..] == b + rest;
  }

  lemma FromIndexRoundTrip(pv: PropertyValue, used: nat, rest: Bytes)
    requires WellSized(pv)
    ensures
      var r := DecodeFromIndex(pv.property, used, EncodeFromIndex(pv) + rest);
      && (Restores(r, pv, used + |EncodeFromIndex(pv)|) <==> Recoverable(pv, rest))
      && (|pv.values| != 1 ==> r == None)
  {
    hide DecodeFromValue, EncodeFromValue, DecodeField, ContextUnsigned, Restores, Recoverable;
    var a, b := EncodeIndex(pv), EncodeFromValue(pv);
    Regroup(a, b, rest);
    FromValueRoundTrip(pv, used + |a|, rest);
    if pv.arrayIndex != ARRAY_ALL {
      FieldRoundTrip(1, pv.arrayIndex, UINT32_MAX, b + rest);
      assert (a + (b + rest))[|a|..] == b + rest;
    } else {
      assert a + (b + rest) == b + rest;
    }
  }

  /** Decoding what was encoded restores the property, the index or its absence, the values and the priority or its
      absence, and consumes exactly the encoding, if and only if there is exactly one value and the priority was
      given or what follows does not itself start with a context tag 3. Other lists are encoded but rejected. */
  lemma PropertyValueRoundTrip(pv: PropertyValue, rest: Bytes)
    requires WellSized(pv)
    ensures
      var r := DecodePropertyValue(EncodePropertyValue(pv) + rest);
      && (Restores(r, pv, |EncodePropertyValue(pv)|) <==> Recoverable(pv, rest))
      && (|pv.values| != 1 ==> r == None)
  {
    hide DecodeFromIndex, EncodeFromIndex, DecodeField, ContextUnsigned, Restores, Recoverable;
    var a, b := ContextUnsigned(0, pv.property), EncodeFromIndex(pv);
    Regroup(a, b, rest);
    FieldRoundTrip(0, pv.property, 0xFFFF_FFFF_FFFF_FFFF, b + rest);
    assert (a + (b + rest))[|a|..] == b + rest;
    FromIndexRoundTrip(pv, |a|, rest);
  }

  /** On a buffer that holds nothing else the round trip of one value always succeeds. */
  lemma PropertyValueAloneRoundTrip(pv: PropertyValue)
    requires WellSized(pv) && |pv.values| == 1
    ensures Restores(DecodePropertyValue(EncodePropertyValue(pv)), pv, |EncodePropertyValue(pv)|)
  {
    hide DecodePropertyValue, EncodePropertyValue, Restores;
    PropertyValueRoundTrip(pv, []);
    assert EncodePropertyValue(pv) + [] == EncodePropertyValue(pv);
    assert DecodeTag([]) == None;
  }

  /** Without a priority of its own a property value takes the next element's octets 39 08 for one. */
  lemma PriorityIsTaken(pv: PropertyValue)
    requires WellSized(pv) && |pv.values| == 1 && pv.priority == NO_PRIORITY
    ensures LooksLikePriority([0x39, 0x08])
    ensures DecodePropertyValue(EncodePropertyValue(pv) + [0x39, 0x08])
         == DecodePropertyValue(EncodePropertyValue(pv.(priority := 8)))
    ensures Restores(DecodePropertyValue(EncodePropertyValue(pv) + [0x39, 0x08]),
                     pv.(priority := 8), |EncodePropertyValue(pv)| + 2)
  {
    hide EncodePropertyValue, DecodePropertyValue, Restores, LooksLikePriority;
    PriorityAppended(pv);
    SmallPriority();
    PropertyValueAloneRoundTrip(pv.(priority := 8));
  }

  lemma PriorityAppended(pv: PropertyValue)
    requires pv.priority == NO_PRIORITY
    ensures EncodePropertyValue(pv) + [0x39, 0x08] == EncodePropertyValue(pv.(priority := 8))
  {
    hide ContextUnsigned, EncodeEnclosed, EncodeIndex, LooksLikePriority;
    var eight := pv.(priority := 8);
    SmallPriority();
    SameFront(pv, eight);
    var id, index, enclosed := ContextUnsigned(0, pv.property), EncodeIndex(pv), EncodeEnclosed(pv);
    assert id + (index + (enclosed + [])) + [0x39, 0x08] == id + (index + (enclosed + [0x39, 0x08]));
  }

  lemma SameFront(pv: PropertyValue, other: PropertyValue)
    requires other == pv.(priority := other.priority)
    ensures EncodeIndex(other) == EncodeIndex(pv) && EncodeEnclosed(other) == EncodeEnclosed(pv)
  {
    hide EncodeAll, ContextUnsigned;
  }

  lemma SmallPriority()
    ensures ContextUnsigned(3, 8) == [0x39, 0x08]
    ensures LooksLikePriority([0x39, 0x08])
  {
    hide Pow256;
    assert UnsignedLength(8) == 1;
    assert BigEndian(0, 0) == [] && BigEndian(1, 8) == [8];
    assert EncodeTag(3, true, 1) == [0x39];
    TagRoundTrip(3, true, 1, [0x08]);
    assert [0x39] + [0x08] == [0x39, 0x08];
  }

  /** A context-tagged unsigned below 256 on the wire. */
  lemma SmallContextUnsigned(number: Octet, u: nat)
    requires number <= 14 && u < 256
    ensures ContextUnsigned(number, u) == [16 * number + 9, u]
  {
    assert UnsignedLength(u) == 1;
    TagOctets(number, true, 1);
    assert BigEndian(0, u / 256) == [] && BigEndian(1, u) == [u];
  }

  /** The whole form on the wire, octet by octet but for the values: property identifier 0, index 1, the values between
      opening and closing tag 2, priority 3. */
  lemma PropertyValueForm(pv: PropertyValue)
    requires pv.property < 256 && (pv.arrayIndex < 256 || pv.arrayIndex == 0xFFFF_FFFF)
    ensures EncodePropertyValue(pv) ==
            [0x09, pv.property]
            + ((if pv.arrayIndex == 0xFFFF_FFFF then [] else [0x19, pv.arrayIndex])
               + (([0x2E] + EncodeAll(pv.values) + [0x2F])
                  + (if pv.priority == 0 then [] else [0x39, pv.priority])))
  {
    hide ContextUnsigned, EncodeAll;
    SmallContextUnsigned(0, pv.property);
    if pv.arrayIndex < 256 {
      SmallContextUnsigned(1, pv.arrayIndex);
    }
    SmallContextUnsigned(3, pv.priority);
    BracketOctets(2);
  }

  /** An index above 32 bits is refused, whatever follows. */
  lemma WideIndexIsRejected(property: nat, index: nat, rest: Bytes)
    requires property <= UINT32_MAX < index <= 0xFFFF_FFFF_FFFF_FFFF
    ensures DecodePropertyValue(ContextUnsigned(0, property) + (ContextUnsigned(1, index) + rest)) == None
  {
    hide ContextUnsigned, DecodeField;
    var id, tail := ContextUnsigned(0, property), ContextUnsigned(1, index) + rest;
    FieldRoundTrip(0, property, 0xFFFF_FFFF_FFFF_FFFF, tail);
    assert (id + tail)[|id|..] == tail;
    WideFieldIsWrong(1, index, UINT32_MAX, rest);
  }

  /** A priority above 255 as well. */
  lemma WidePriorityIsRejected(pv: PropertyValue, priority: nat, rest: Bytes)
    requires WellSized(pv) && |pv.values| == 1 && pv.priority == NO_PRIORITY && 255 < priority <= 0xFFFF_FFFF
    ensures DecodePropertyValue(EncodePropertyValue(pv) + (ContextUnsigned(3, priority) + rest)) == None
  {
    hide ContextUnsigned, DecodeField, EncodeEnclosed, DecodeEnclosed;
    var tail := ContextUnsigned(3, priority) + rest;
    WideFieldIsWrong(3, priority, 255, rest);
    var id, index, enclosed := ContextUnsigned(0, pv.property), EncodeIndex(pv), EncodeEnclosed(pv);
    assert EncodePropertyValue(pv) + tail == id + (index + (enclosed + tail));
    FieldRoundTrip(0, pv.property, 0xFFFF_FFFF_FFFF_FFFF, index + (enclosed + tail));
    assert (id + (index + (enclosed + tail)))[|id|..] == index + (enclosed + tail);
    EnclosedRoundTrip(pv, tail);
    assert (enclosed + tail)[|enclosed|..] == tail;
    if pv.arrayIndex != ARRAY_ALL {
      FieldRoundTrip(1, pv.arrayIndex, UINT32_MAX, enclosed + tail);
      assert (index + (enclosed + tail))[|index|..] == enclosed + tail;
    } else {
      assert index + (enclosed + tail) == enclosed + tail;
    }
  }

  lemma WideFieldIsWrong(number: Octet, u: nat, max: nat, rest: Bytes)
    requires max < u <= 0xFFFF_FFFF_FFFF_FFFF
    ensures DecodeField(ContextUnsigned(number, u) + rest, number, max) == Wrong
  {
    hide EncodeTag, DecodeTag, BigEndian, FromBigEndian, Pow256;
    var len := UnsignedLength(u);
    var tag, body := EncodeTag(number, true, len), BigEndian(len, u);
    PowerValues();
    BigEndianRoundTrip(len, u);
    Regroup(tag, body, rest);
    TagRoundTrip(number, true, len, body + rest);
    assert (tag + (body + rest))[|tag|..] == body + rest;
    assert (body + rest)[..len] == body;
  }

  method WriteContextUnsigned(apdu: array?<Octet>, at: nat, number: Octet, u: nat) returns (len: nat)
    requires apdu != null ==> at + |ContextUnsigned(number, u)| <= apdu.Length
    modifies apdu
    ensures len == |ContextUnsigned(number, u)|
    ensures apdu != null ==> Wrote(old(apdu[..]), apdu[..], at, ContextUnsigned(number, u))
  {
    hide EncodeTag;
    var width := UnsignedLength(u);
    var tagLen := WriteTag(apdu, at, number, true, width);
    ghost var between := if apdu != null then apdu[..] else [];
    len := WriteBigEndian(apdu, at + tagLen, width, u);
    len := tagLen + len;
    if apdu != null {
      WroteBoth(old(apdu[..]), between, apdu[..], at, EncodeTag(number, true, width), BigEndian(width, u));
    }
  }

  method WriteOptionalUnsigned(apdu: array?<Octet>, at: nat, number: Octet, u: nat, present: bool)
    returns (len: nat)
    requires apdu != null ==> at + (if present then |ContextUnsigned(number, u)| else 0) <= apdu.Length
    modifies apdu
    ensures var s := if present then ContextUnsigned(number, u) else [];
      len == |s| && (apdu != null ==> Wrote(old(apdu[..]), apdu[..], at, s))
  {
    if !present {
      return 0;
    }
    len := WriteContextUnsigned(apdu, at, number, u);
  }

  /** The loop over the chain of values. */
  method WriteValues(apdu: array?<Octet>, at: nat, vs: seq<Primitive>) returns (len: nat)
    requires apdu != null ==> at + |EncodeAll(vs)| <= apdu.Length
    modifies apdu
    ensures len == |EncodeAll(vs)|
    ensures apdu != null ==> Wrote(old(apdu[..]), apdu[..], at, EncodeAll(vs))
  {
    hide Encode, Wrote, EncodeAll;
    len := 0;
    ghost var was := if apdu != null then apdu[..] else [];
    EncodeNone();
    WroteNothing(was, at);
    for i := 0 to |vs|
      invariant len == |EncodeAll(vs[..i])|
      invariant apdu != null ==> at + |EncodeAll(vs[..i])| <= |was| && Wrote(was, apdu[..], at, EncodeAll(vs[..i]))
    {
      EncodeSplit(vs, i);
      ghost var between := if apdu != null then apdu[..] else [];
      var n := WriteApplicationData(apdu, at + len, vs[i]);
      if apdu != null {
        WroteBoth(was, between, apdu[..], at, EncodeAll(vs[..i]), Encode(vs[i]));
      }
      len := len + n;
    }
    assert vs[..|vs|] == vs;
  }

  lemma EncodeNone()
    ensures EncodeAll([]) == []
  {
  }

  lemma {:induction false} EncodeSplit(vs: seq<Primitive>, i: nat)
    requires i < |vs|
    ensures EncodeAll(vs[..i + 1]) == EncodeAll(vs[..i]) + Encode(vs[i])
    ensures |EncodeAll(vs[..i + 1])| <= |EncodeAll(vs)|
    decreases i
  {
    hide Encode;
    var up := vs[..i + 1];
    AllButFirst(vs);
    AllButFirst(up);
    assert up[1..] == vs[1..][..i];
    if i == 0 {
      assert vs[..0] == [] && up[1..] == [];
    } else {
      AllButFirst(vs[..i]);
      assert vs[..i][1..] == vs[1..][..i - 1];
      EncodeSplit(vs[1..], i - 1);
    }
  }

  /** The values between opening and closing tag 2. */
  method WriteEnclosed(apdu: array?<Octet>, at: nat, pv: PropertyValue) returns (len: nat)
    requires apdu != null ==> at + |EncodeEnclosed(pv)| <= apdu.Length
    modifies apdu
    ensures len == |EncodeEnclosed(pv)|
    ensures apdu != null ==> Wrote(old(apdu[..]), apdu[..], at, EncodeEnclosed(pv))
  {
    hide EncodeOpeningTag, EncodeClosingTag, EncodeAll, Wrote;
    var open := WriteOpeningTag(apdu, at, 2);
    ghost var tagged := if apdu != null then apdu[..] else [];
    var values := WriteValues(apdu, at + open, pv.values);
    ghost var filled := if apdu != null then apdu[..] else [];
    var close := WriteClosingTag(apdu, at + open + values, 2);
    len := open + values + close;
    if apdu != null {
      WroteBoth(old(apdu[..]), tagged, filled, at, EncodeOpeningTag(2), EncodeAll(pv.values));
      WroteBoth(old(apdu[..]), filled, apdu[..], at, EncodeOpeningTag(2) + EncodeAll(pv.values), EncodeClosingTag(2));
    }
  }

  method WriteFromValue(apdu: array?<Octet>, at: nat, pv: PropertyValue) returns (len: nat)
    requires apdu != null ==> at + |EncodeFromValue(pv)| <= apdu.Length
    modifies apdu
    ensures len == |EncodeFromValue(pv)|
    ensures apdu != null ==> Wrote(old(apdu[..]), apdu[..], at, EncodeFromValue(pv))
  {
    hide ContextUnsigned, EncodeEnclosed, Wrote;
    len := WriteEnclosed(apdu, at, pv);
    ghost var between := if apdu != null then apdu[..] else [];
    var n := WriteOptionalUnsigned(apdu, at + len, 3, pv.priority, pv.priority != NO_PRIORITY);
    len := len + n;
    if apdu != null {
      WroteBoth(old(apdu[..]), between, apdu[..], at, EncodeEnclosed(pv), EncodePriority(pv));
    }
  }

  /** `bacapp_property_value_encode`: with no buffer the length it would write, with one those octets and
      nothing else. */
  method WritePropertyValue(apdu: array?<Octet>, at: nat, pv: PropertyValue) returns (len: nat)
    requires apdu != null ==> at + |EncodePropertyValue(pv)| <= apdu.Length
    modifies apdu
    ensures len == |EncodePropertyValue(pv)|
    ensures apdu != null ==> Wrote(old(apdu[..]), apdu[..], at, EncodePropertyValue(pv))
  {
    hide ContextUnsigned, EncodeFromValue, Wrote;
    var id := WriteContextUnsigned(apdu, at, 0, pv.property);
    ghost var named := if apdu != null then apdu[..] else [];
    var index := WriteOptionalUnsigned(apdu, at + id, 1, pv.arrayIndex, pv.arrayIndex != ARRAY_ALL);
    ghost var indexed := if apdu != null then apdu[..] else [];
    var value := WriteFromValue(apdu, at + id + index, pv);
    len := id + index + value;
    if apdu != null {
      WroteBoth(named, indexed, apdu[..], at + id, EncodeIndex(pv), EncodeFromValue(pv));
      WroteBoth(old(apdu[..]), named, apdu[..], at, ContextUnsigned(0, pv.property), EncodeFromIndex(pv));
    }
  }
}
