/** BACnet tags (ANSI/ASHRAE Standard 135, section 20.2.1), as `bacdcode.c` writes and reads them. */
module Tags {
  import opened Wrappers
  import opened Octets
  import opened Transmit

  datatype Class = Application | Context | Opening | Closing

  datatype Tag = Tag(number: Octet, class_: Class, lenValue: nat)

  /** The initial octet: tag number or 15, class bit, and the three length/value/type bits. */
  function InitialOctet(number: Octet, contextClass: bool, low: nat): (o: Octet)
    requires low < 8
  {
    (if number <= 14 then number else 15) * 16 + (if contextClass then 8 else 0) + low
  }

  function NumberExtension(number: Octet): Bytes {
    if number <= 14 then [] else [number]
  }

  function LengthExtension(lenValue: nat): Bytes {
    if lenValue <= 4 then []
    else if lenValue <= 253 then [lenValue]
    else if lenValue <= 65535 then [254] + BigEndian(2, lenValue)
    else [255] + BigEndian(4, lenValue)
  }

  function EncodeTag(number: Octet, contextSpecific: bool, lenValue: nat): (s: Bytes)
    ensures s != []
  {
    [InitialOctet(number, contextSpecific, if lenValue <= 4 then lenValue else 5)]
    + NumberExtension(number) + LengthExtension(lenValue)
  }

  function EncodeOpeningTag(number: Octet): (s: Bytes)
    ensures s != []
  {
    [InitialOctet(number, true, 6)] + NumberExtension(number)
  }

  function EncodeClosingTag(number: Octet): (s: Bytes)
    ensures s != []
  {
    [InitialOctet(number, true, 7)] + NumberExtension(number)
  }

  /** A decoded item and how many octets it took. */
  datatype Parsed<+T> = Parsed(value: T, consumed: nat)

  function DecodeTagNumber(s: Bytes): (r: Option<Parsed<Octet>>)
    ensures r.Some? ==> 1 <= r.value.consumed <= |s|
  {
    if s == [] then None
    else if s[0] / 16 == 15 then if |s| >= 2 then Some(Parsed(s[1], 2)) else None
    else Some(Parsed(s[0] / 16, 1))
  }

  /** The octets after the tag number of a tag whose three low bits are 5. */
  function DecodeExtendedLength(s: Bytes): (r: Option<Parsed<nat>>)
    ensures r.Some? ==> 1 <= r.value.consumed <= |s|
  {
    if s == [] then None
    else if s[0] == 255 && |s| >= 5 then Some(Parsed(FromBigEndian(s[1..5]), 5))
    else if s[0] == 254 && |s| >= 3 then Some(Parsed(FromBigEndian(s[1..3]), 3))
    else if s[0] < 254 then Some(Parsed(s[0], 1))
    else None
  }

  /** The rest of `bacnet_tag_decode` once the initial octet's fields and the tag number are known; `n`
      octets are already used and `tail` follows them. */
  function DecodeRest(number: Octet, contextClass: bool, low: nat, n: nat, tail: Bytes): (r: Option<Parsed<Tag>>)
    ensures r.Some? ==> n <= r.value.consumed <= n + |tail|
  {
    var cls := if !contextClass then Application
               else if low == 6 then Opening else if low == 7 then Closing else Context;
    if low == 5 then
      match DecodeExtendedLength(tail)
      case None => None
      case Some(Parsed(len, m)) => Some(Parsed(Tag(number, cls, len), n + m))
    else
      Some(Parsed(Tag(number, cls, if low >= 6 then 0 else low), n))
  }

  /** `bacnet_tag_decode`; None is its return value 0. An application tag whose low bits are 6 or 7 is
      accepted with length 0. */
  function DecodeTag(s: Bytes): (r: Option<Parsed<Tag>>)
    ensures r.Some? ==> 1 <= r.value.consumed <= |s|
  {
    match DecodeTagNumber(s)
    case None => None
    case Some(Parsed(number, n)) => DecodeRest(number, s[0] / 8 % 2 == 1, s[0] % 8, n, s[n..])
  }

  lemma InitialOctetFields(number: Octet, contextClass: bool, low: nat)
    requires low < 8
    ensures var o := InitialOctet(number, contextClass, low);
      && o / 16 == (if number <= 14 then number else 15)
      && (o / 8 % 2 == 1 <==> contextClass)
      && o % 8 == low
  {
  }

  /** Decoding starts by undoing the initial octet and the number extension. */
  lemma HeadRoundTrip(number: Octet, contextClass: bool, low: nat, tail: Bytes)
    requires low < 8
    ensures var s := [InitialOctet(number, contextClass, low)] + NumberExtension(number) + tail;
      DecodeTag(s) == DecodeRest(number, contextClass, low, 1 + |NumberExtension(number)|, tail)
  {
    InitialOctetFields(number, contextClass, low);
    var s := [InitialOctet(number, contextClass, low)] + NumberExtension(number) + tail;
    var n := 1 + |NumberExtension(number)|;
    assert DecodeTagNumber(s) == Some(Parsed(number, n));
    assert s[n..] == tail;
  }

  lemma LengthRoundTrip(lenValue: nat, rest: Bytes)
    requires 4 < lenValue < 0x1_0000_0000
    ensures DecodeExtendedLength(LengthExtension(lenValue) + rest)
         == Some(Parsed(lenValue, |LengthExtension(lenValue)|))
  {
    var s := LengthExtension(lenValue) + rest;
    PowerValues();
    if 253 < lenValue <= 65535 {
      assert s[1..3] == BigEndian(2, lenValue);
      BigEndianRoundTrip(2, lenValue);
    } else if 65535 < lenValue {
      assert s[1..5] == BigEndian(4, lenValue);
      BigEndianRoundTrip(4, lenValue);
    }
  }

  /** Every tag reads back as it was written, whatever follows it. */
  lemma TagRoundTrip(number: Octet, contextSpecific: bool, lenValue: nat, rest: Bytes)
    requires lenValue < 0x1_0000_0000
    ensures DecodeTag(EncodeTag(number, contextSpecific, lenValue) + rest)
         == Some(Parsed(Tag(number, if contextSpecific then Context else Application, lenValue),
                        |EncodeTag(number, contextSpecific, lenValue)|))
  {
    var low := if lenValue <= 4 then lenValue else 5;
    var tail := LengthExtension(lenValue) + rest;
    HeadRoundTrip(number, contextSpecific, low, tail);
    Regroup([InitialOctet(number, contextSpecific, low)] + NumberExtension(number), LengthExtension(lenValue), rest);
    if lenValue > 4 {
      LengthRoundTrip(lenValue, rest);
    }
  }

  lemma OpeningTagRoundTrip(number: Octet, rest: Bytes)
    ensures DecodeTag(EncodeOpeningTag(number) + rest)
         == Some(Parsed(Tag(number, Opening, 0), |EncodeOpeningTag(number)|))
  {
    HeadRoundTrip(number, true, 6, rest);
  }

  lemma ClosingTagRoundTrip(number: Octet, rest: Bytes)
    ensures DecodeTag(EncodeClosingTag(number) + rest)
         == Some(Parsed(Tag(number, Closing, 0), |EncodeClosingTag(number)|))
  {
    HeadRoundTrip(number, true, 7, rest);
  }

  /** Tags octet by octet, for numbers up to 14: the number in the high four bits, then the class bit, then the length,
      or 5 and the length in one, three or five further octets. */
  lemma TagOctets(number: Octet, contextSpecific: bool, lenValue: nat)
    requires number <= 14 && lenValue < 0x1_0000_0000
    ensures var first := 16 * number + if contextSpecific then 8 else 0;
      EncodeTag(number, contextSpecific, lenValue) ==
      if lenValue <= 4 then [first + lenValue]
      else if lenValue <= 253 then [first + 5, lenValue]
      else if lenValue <= 65535 then [first + 5, 254, lenValue / 256, lenValue % 256]
      else [first + 5, 255, lenValue / 0x100_0000, lenValue / 0x1_0000 % 256, lenValue / 0x100 % 256, lenValue % 256]
  {
    if 253 < lenValue <= 65535 {
      TwoOctets(lenValue);
    } else if 65535 < lenValue {
      FourOctets(lenValue);
    }
  }

  lemma TwoOctets(v: nat)
    requires v < 0x1_0000
    ensures BigEndian(2, v) == [v / 256, v % 256]
  {
    assert BigEndian(0, v / 256 / 256) == [];
    assert BigEndian(1, v / 256) == [v / 256 % 256];
  }

  lemma FourOctets(v: nat)
    requires v < 0x1_0000_0000
    ensures BigEndian(4, v) == [v / 0x100_0000, v / 0x1_0000 % 256, v / 0x100 % 256, v % 256]
  {
    var high := v / 256 / 256;
    assert high == v / 0x1_0000 && high / 256 == v / 0x100_0000;
    TwoOctets(high);
    assert BigEndian(3, v / 256) == BigEndian(2, high) + [v / 256 % 256];
    assert BigEndian(4, v) == BigEndian(3, v / 256) + [v % 256];
  }

  /** Higher numbers stand in an octet of their own behind 15. */
  lemma HighTagOctets(number: Octet, contextSpecific: bool, lenValue: nat)
    requires number > 14 && lenValue <= 4
    ensures EncodeTag(number, contextSpecific, lenValue) ==
            [0xF0 + (if contextSpecific then 8 else 0) + lenValue, number]
    ensures EncodeOpeningTag(number) == [0xFE, number] && EncodeClosingTag(number) == [0xFF, number]
  {
  }

  lemma BracketOctets(number: Octet)
    requires number <= 14
    ensures EncodeOpeningTag(number) == [16 * number + 14] && EncodeClosingTag(number) == [16 * number + 15]
  {
  }

  /** The initial octet and, for numbers above 14, the octet that follows it. */
  method WriteHead(apdu: array?<Octet>, at: nat, number: Octet, contextClass: bool, low: nat) returns (len: nat)
    requires low < 8
    requires apdu != null ==> at + 1 + |NumberExtension(number)| <= apdu.Length
    modifies apdu
    ensures var s := [InitialOctet(number, contextClass, low)] + NumberExtension(number);
      len == |s| && (apdu != null ==> Wrote(old(apdu[..]), apdu[..], at, s))
  {
    len := 1;
    var first: Octet := low + if contextClass then 8 else 0;
    if number <= 14 {
      first := first + number * 16;
    } else {
      first := first + 0xF0;
      if apdu != null {
        apdu[at + 1] := number;
      }
      len := len + 1;
    }
    if apdu != null {
      apdu[at] := first;
    }
  }

  /** `encode_unsigned16` and its wider siblings */
  method WriteBigEndian(apdu: array?<Octet>, at: nat, width: nat, v: nat) returns (len: nat)
    requires apdu != null ==> at + width <= apdu.Length
    modifies apdu
    ensures len == width
    ensures apdu != null ==> Wrote(old(apdu[..]), apdu[..], at, BigEndian(width, v))
  {
    if apdu != null {
      forall i | 0 <= i < width {
        apdu[at + i] := BigEndian(width, v)[i];
      }
    }
    return width;
  }

  method WriteLengthExtension(apdu: array?<Octet>, at: nat, lenValue: nat) returns (len: nat)
    requires lenValue < 0x1_0000_0000
    requires apdu != null ==> at + |LengthExtension(lenValue)| <= apdu.Length
    modifies apdu
    ensures len == |LengthExtension(lenValue)|
    ensures apdu != null ==> Wrote(old(apdu[..]), apdu[..], at, LengthExtension(lenValue))
  {
    if lenValue <= 4 {
      return 0;
    }
    var marker, width := lenValue, 0;
    if lenValue > 65535 {
      marker, width := 255, 4;
    } else if lenValue > 253 {
      marker, width := 254, 2;
    }
    if apdu != null {
      apdu[at] := marker;
    }
    ghost var between := if apdu != null then apdu[..] else [];
    len := WriteBigEndian(apdu, at + 1, width, lenValue);
    len := len + 1;
    if apdu != null {
      WroteBoth(old(apdu[..]), between, apdu[..], at, [marker], BigEndian(width, lenValue));
    }
  }

  /** `encode_tag` */
  method WriteTag(apdu: array?<Octet>, at: nat, number: Octet, contextSpecific: bool, lenValue: nat)
    returns (len: nat)
    requires lenValue < 0x1_0000_0000
    requires apdu != null ==> at + |EncodeTag(number, contextSpecific, lenValue)| <= apdu.Length
    modifies apdu
    ensures len == |EncodeTag(number, contextSpecific, lenValue)|
    ensures apdu != null ==> Wrote(old(apdu[..]), apdu[..], at, EncodeTag(number, contextSpecific, lenValue))
  {
    var low := if lenValue <= 4 then lenValue else 5;
    var head := WriteHead(apdu, at, number, contextSpecific, low);
    ghost var between := if apdu != null then apdu[..] else [];
    len := WriteLengthExtension(apdu, at + head, lenValue);
    len := head + len;
    if apdu != null {
      WroteBoth(old(apdu[..]), between, apdu[..], at,
                [InitialOctet(number, contextSpecific, low)] + NumberExtension(number), LengthExtension(lenValue));
    }
  }

  /** `encode_opening_tag` */
  method WriteOpeningTag(apdu: array?<Octet>, at: nat, number: Octet) returns (len: nat)
    requires apdu != null ==> at + |EncodeOpeningTag(number)| <= apdu.Length
    modifies apdu
    ensures len == |EncodeOpeningTag(number)|
    ensures apdu != null ==> Wrote(old(apdu[..]), apdu[..], at, EncodeOpeningTag(number))
  {
    len := WriteHead(apdu, at, number, true, 6);
  }

  /** `encode_closing_tag` */
  method WriteClosingTag(apdu: array?<Octet>, at: nat, number: Octet) returns (len: nat)
    requires apdu != null ==> at + |EncodeClosingTag(number)| <= apdu.Length
    modifies apdu
    ensures len == |EncodeClosingTag(number)|
    ensures apdu != null ==> Wrote(old(apdu[..]), apdu[..], at, EncodeClosingTag(number))
  {
    len := WriteHead(apdu, at, number, true, 7);
  }
}
