/** BACnetAddress and BACnetAddressBinding (ANSI/ASHRAE Standard 135, clause 21), as `bacaddr.c` compares,
    encodes and decodes them. */
module Addresses {
  import opened Wrappers
  import opened Octets
  import opened Transmit
  import opened Tags
  import opened AppData

  const MAX_MAC_LEN := 7
  const OBJECT_DEVICE := 8
  const MAX_INSTANCE := 0x3F_FFFF

  type MacField = s: Bytes | |s| == MAX_MAC_LEN witness [0, 0, 0, 0, 0, 0, 0]
  type Net = x: int | 0 <= x < 0x1_0000

  const ZERO_FIELD: MacField := [0, 0, 0, 0, 0, 0, 0]

  /** `BACNET_ADDRESS`: the length octets are not bounded by the fields they measure. */
  datatype Address = Address(macLen: Octet, mac: MacField, net: Net, len: Octet, adr: MacField)

  /** The octets of a field that its length octet says are in use. */
  function Used(field: MacField, len: Octet): (s: Bytes)
    ensures |s| == Min(len, MAX_MAC_LEN)
  {
    field[..Min(len, MAX_MAC_LEN)]
  }

  predicate SameField(len: Octet, field: MacField, otherLen: Octet, otherField: MacField) {
    len == otherLen && Used(field, len) == Used(otherField, otherLen)
  }

  /** What `bacnet_address_same` compares: a local address has no device behind a router. */
  predicate Same(a: Address, b: Address) {
    && SameField(a.macLen, a.mac, b.macLen, b.mac)
    && a.net == b.net
    && (a.net == 0 || SameField(a.len, a.adr, b.len, b.adr))
  }

  /** What `bacnet_address_net_same` compares: just the two fields of the standard's sequence. */
  predicate NetSame(a: Address, b: Address) {
    && a.net == b.net
    && if a.net == 0 then SameField(a.macLen, a.mac, b.macLen, b.mac) else SameField(a.len, a.adr, b.len, b.adr)
  }

  /** The loop both comparisons use. */
  method CompareField(len: Octet, field: MacField, otherField: MacField) returns (same: bool)
    ensures same <==> Used(field, len) == Used(otherField, len)
    ensures same <==> forall i :: 0 <= i < 7 && i < len ==> field[i] == otherField[i]
  {
    for i := 0 to MAX_MAC_LEN
      invariant forall j :: 0 <= j < i && j < len ==> field[j] == otherField[j]
    {
      if i < len && field[i] != otherField[i] {
        assert Used(field, len)[i] != Used(otherField, len)[i];
        return false;
      }
    }
    return true;
  }

  /** `bacnet_address_same` */
  method CompareAddresses(a: Address, b: Address) returns (same: bool)
    ensures same <==> Same(a, b)
    ensures same <==>
            && a.macLen == b.macLen && (forall i :: 0 <= i < 7 && i < a.macLen ==> a.mac[i] == b.mac[i])
            && a.net == b.net
            && (a.net != 0 ==> a.len == b.len && forall i :: 0 <= i < 7 && i < a.len ==> a.adr[i] == b.adr[i])
  {
    if a.macLen != b.macLen {
      return false;
    }
    var mac := CompareField(a.macLen, a.mac, b.mac);
    if !mac || a.net != b.net {
      return false;
    }
    if a.net == 0 {
      return true;
    }
    if a.len != b.len {
      return false;
    }
    same := CompareField(a.len, a.adr, b.adr);
  }

  /** `bacnet_address_net_same` */
  method CompareNetAddresses(a: Address, b: Address) returns (same: bool)
    ensures same <==> NetSame(a, b)
    ensures same <==>
            && a.net == b.net
            && (a.net == 0 ==> a.macLen == b.macLen && forall i :: 0 <= i < 7 && i < a.macLen ==> a.mac[i] == b.mac[i])
            && (a.net != 0 ==> a.len == b.len && forall i :: 0 <= i < 7 && i < a.len ==> a.adr[i] == b.adr[i])
  {
    if a.net != b.net {
      return false;
    }
    if a.net == 0 {
      if a.macLen != b.macLen {
        return false;
      }
      same := CompareField(a.macLen, a.mac, b.mac);
    } else {
      if a.len != b.len {
        return false;
      }
      same := CompareField(a.len, a.adr, b.adr);
    }
  }

  /** Both comparisons are equivalence relations, and the first refines the second. */
  lemma ComparisonsAreEquivalences(a: Address, b: Address, c: Address)
    ensures Same(a, a) && NetSame(a, a)
    ensures Same(a, b) ==> Same(b, a) && NetSame(a, b)
    ensures NetSame(a, b) ==> NetSame(b, a)
    ensures Same(a, b) && Same(b, c) ==> Same(a, c)
    ensures NetSame(a, b) && NetSame(b, c) ==> NetSame(a, c)
  {
  }

  /** The octet string put on the wire: the address behind the router if there is one, else the MAC. */
  function WireMac(a: Address): Bytes {
    if a.len > 0 then Used(a.adr, a.len) else Used(a.mac, a.macLen)
  }

  function EncodeAddress(a: Address): Bytes {
    Encode(Unsigned(a.net)) + Encode(OctetString(WireMac(a)))
  }

  /** `field` with `s` copied over its beginning: a decoder leaves the rest as it was. */
  function Overlay(s: Bytes, field: MacField): (r: MacField)
    requires |s| <= MAX_MAC_LEN
    ensures r[..|s|] == s
  {
    s + field[|s|..]
  }

  function Filled(net: Net, mac: Bytes, prior: Address): Address
    requires |mac| <= MAX_MAC_LEN
  {
    if net != 0 then Address(0, ZERO_FIELD, net, |mac|, Overlay(mac, prior.adr))
    else Address(|mac|, Overlay(mac, prior.mac), net, 0, ZERO_FIELD)
  }

  /** `bacnet_address_decode` into a structure that held `prior`; None is BACNET_STATUS_ERROR. */
  function DecodeAddress(s: Bytes, prior: Address): Option<Parsed<Address>> {
    match Decode(s)
    case Decoded(Parsed(Unsigned(net), n)) =>
      if net > 0xFFFF then None else
      (match Decode(s[n..])
       case Decoded(Parsed(OctetString(mac), m)) =>
         if |mac| > MAX_MAC_LEN then None else Some(Parsed(Filled(net, mac, prior), n + m))
       case _ => None)
    case _ => None
  }

  lemma DecodeOfEncodedAddress(a: Address, prior: Address, rest: Bytes)
    ensures DecodeAddress(EncodeAddress(a) + rest, prior)
         == Some(Parsed(Filled(a.net, WireMac(a), prior), |EncodeAddress(a)|))
  {
    hide Encode, Decode;
    var net, mac := Unsigned(a.net), OctetString(WireMac(a));
    Regroup(Encode(net), Encode(mac), rest);
    PrimitiveRoundTrip(net, Encode(mac) + rest);
    PrimitiveRoundTrip(mac, rest);
    assert (Encode(net) + (Encode(mac) + rest))[|Encode(net)|..] == Encode(mac) + rest;
  }

  /** What the decoder fills in, beside the net: for a remote address the routed part, and no router MAC; for a local one
      the MAC, and no routed part. Behind the octets received the filled field keeps what it held. */
  lemma FilledExactly(net: Net, mac: Bytes, prior: Address)
    requires |mac| <= 7
    ensures var a := Filled(net, mac, prior);
      && a.net == net
      && (net != 0 ==> a.len == |mac| && a.adr == mac + prior.adr[|mac|..] && a.macLen == 0
                       && a.mac == [0, 0, 0, 0, 0, 0, 0])
      && (net == 0 ==> a.macLen == |mac| && a.mac == mac + prior.mac[|mac|..] && a.len == 0
                       && a.adr == [0, 0, 0, 0, 0, 0, 0])
  {
  }

  /** The addresses the encoding can carry: a local one without a routed part (or with a routed part equal
      to its MAC), a remote one with its routed part, and a remote broadcast only when no router MAC is
      recorded; lengths in use must fit their fields. */
  predicate Carriable(a: Address) {
    if a.net == 0 then
      if a.len == 0 then a.macLen <= MAX_MAC_LEN
      else a.macLen == Min(a.len, MAX_MAC_LEN) && Used(a.mac, a.macLen) == Used(a.adr, a.len)
    else
      if a.len == 0 then a.macLen == 0 else a.len <= MAX_MAC_LEN
  }

  lemma FilledSameness(a: Address, prior: Address)
    ensures NetSame(Filled(a.net, WireMac(a), prior), a) <==> Carriable(a)
    ensures Same(Filled(a.net, WireMac(a), prior), a) <==> Carriable(a) && (a.net == 0 || a.macLen == 0)
  {
    var b := Filled(a.net, WireMac(a), prior);
    if a.net != 0 {
      assert Used(b.adr, b.len) == WireMac(a);
    } else {
      assert Used(b.mac, b.macLen) == WireMac(a);
    }
  }

  /** Decoding an encoded address always succeeds and consumes exactly its octets; what comes back is
      net-same to the original if and only if the address is one the encoding can carry, and the same in
      the stricter sense if and only if, besides, a remote address records no router MAC. */
  lemma AddressRoundTrip(a: Address, prior: Address, rest: Bytes)
    ensures var r := DecodeAddress(EncodeAddress(a) + rest, prior);
      && r.Some?
      && r.value.consumed == |EncodeAddress(a)|
      && (NetSame(r.value.value, a) <==> Carriable(a))
      && (Same(r.value.value, a) <==> Carriable(a) && (a.net == 0 || a.macLen == 0))
  {
    hide DecodeAddress, EncodeAddress, NetSame, Same, Filled, Carriable;
    DecodeOfEncodedAddress(a, prior, rest);
    FilledSameness(a, prior);
  }

  /** The form on the wire, octet by octet: a network below 256 and up to 4 octets of address, or 5 to 7. */
  lemma AddressForm(a: Address)
    requires a.net < 256
    ensures EncodeAddress(a) ==
            [0x21, a.net]
            + (if a.len > 0 then AddressOctets(a.adr[..Min(a.len, 7)]) else AddressOctets(a.mac[..Min(a.macLen, 7)]))
  {
    hide Encode, AddressOctets;
    NetForm(a.net);
    MacForm(WireMac(a));
  }

  lemma NetForm(net: nat)
    requires net < 256
    ensures Encode(Unsigned(net)) == [0x21, net]
  {
    hide Encode, EncodeTag, BigEndian, UnsignedLength;
    NumberForms(net, 0, 0, 0, 0);
    OneOctet(net);
    TagOctets(2, false, 1);
  }

  lemma MacForm(mac: Bytes)
    requires |mac| <= 7
    ensures Encode(OctetString(mac)) == AddressOctets(mac)
  {
    hide Encode, EncodeTag;
    StringForms(mac, 0, [], 0, []);
    TagOctets(6, false, |mac|);
  }

  lemma OneOctet(u: nat)
    requires u < 256
    ensures UnsignedLength(u) == 1 && BigEndian(1, u) == [u]
  {
    assert BigEndian(0, u / 256) == [];
  }

  function AddressOctets(mac: Bytes): Bytes
    requires |mac| <= 7
  {
    (if |mac| <= 4 then [0x60 + |mac|] else [0x65, |mac|]) + mac
  }

  /** What the decoders refuse: a network above 16 bits, an address above 7 octets, and bindings of objects other than
      devices (type 8). */
  lemma WideNetworkIsRejected(net: nat, rest: Bytes, prior: Address)
    requires 0xFFFF < net < 0x1_0000_0000_0000_0000
    ensures DecodeAddress(Encode(Unsigned(net)) + rest, prior) == None
  {
    hide Encode, Decode;
    PrimitiveRoundTrip(Unsigned(net), rest);
  }

  lemma LongAddressIsRejected(net: nat, mac: Bytes, rest: Bytes, prior: Address)
    requires net < 0x1_0000_0000_0000_0000 && 7 < |mac| <= MAX_STRING_BYTES
    ensures DecodeAddress(Encode(Unsigned(net)) + (Encode(OctetString(mac)) + rest), prior) == None
  {
    hide Encode, Decode;
    var n, tail := Encode(Unsigned(net)), Encode(OctetString(mac)) + rest;
    PrimitiveRoundTrip(Unsigned(net), tail);
    PrimitiveRoundTrip(OctetString(mac), rest);
    assert (n + tail)[|n|..] == tail;
  }

  lemma OtherObjectIsRejected(objectType: nat, instance: nat, rest: Bytes, prior: Address)
    requires objectType <= 0x3FF && objectType != 8 && instance <= MAX_INSTANCE
    ensures DecodeBinding(Encode(ObjectId(objectType, instance)) + rest, prior) == None
  {
    hide Encode, Decode;
    PrimitiveRoundTrip(ObjectId(objectType, instance), rest);
  }

  /** A binding is the device's object identifier, type 8, and its address. */
  lemma BindingForm(b: Binding)
    requires b.device <= MAX_INSTANCE
    ensures EncodeBinding(b) == ([0xC4] + BigEndian(4, 8 * 0x40_0000 + b.device)) + EncodeAddress(b.address)
  {
    hide EncodeAddress, BigEndian;
    NumberForms(0, 0, 0, 8, b.device);
  }

  /** A global broadcast sent through a known router comes back as a unicast to a device with the router's MAC. */
  lemma RoutedBroadcastChanges(mac: MacField, prior: Address, rest: Bytes)
    ensures var a := Address(6, mac, 65535, 0, ZERO_FIELD);
      var r := DecodeAddress(EncodeAddress(a) + rest, prior);
      && !Carriable(a)
      && r.Some? && !NetSame(r.value.value, a)
      && r.value.value.len == 6 && Used(r.value.value.adr, 6) == Used(mac, 6)
  {
    hide DecodeAddress, EncodeAddress;
    DecodeOfEncodedAddress(Address(6, mac, 65535, 0, ZERO_FIELD), prior, rest);
  }

  datatype Binding = Binding(device: nat, address: Address)

  function DeviceId(b: Binding): AppValue {
    ObjectId(OBJECT_DEVICE, b.device)
  }

  /** `bacnet_address_binding_type_encode`; the device identifier is a `uint32_t`. */
  function EncodeBinding(b: Binding): Bytes
    requires b.device < 0x1_0000_0000
  {
    Encode(DeviceId(b)) + EncodeAddress(b.address)
  }

  /** `bacnet_address_binding_decode` into a structure whose address held `prior`. */
  function DecodeBinding(s: Bytes, prior: Address): Option<Parsed<Binding>> {
    match Decode(s)
    case Decoded(Parsed(ObjectId(objectType, instance), n)) =>
      if objectType != OBJECT_DEVICE then None else
      (match DecodeAddress(s[n..], prior)
       case Some(Parsed(a, m)) => Some(Parsed(Binding(instance, a), n + m))
       case None => None)
    case _ => None
  }

  /** `bacnet_address_binding_same` */
  predicate SameBinding(a: Binding, b: Binding) {
    a.device == b.device && Same(a.address, b.address)
  }

  /** The round trip lifts to bindings, for the instances an object identifier can carry. The binding
      comparison is the strict one, so a remote device whose router MAC is recorded does not compare equal
      to its own decoded encoding although the two are net-same. */
  lemma BindingRoundTrip(b: Binding, prior: Address, rest: Bytes)
    requires b.device < 0x1_0000_0000
    ensures var r := DecodeBinding(EncodeBinding(b) + rest, prior);
      && r.Some?
      && r.value.consumed == |EncodeBinding(b)|
      && (r.value.value.device == b.device <==> b.device <= MAX_INSTANCE)
      && (NetSame(r.value.value.address, b.address) <==> Carriable(b.address))
      && (SameBinding(r.value.value, b) <==>
            b.device <= MAX_INSTANCE && Carriable(b.address) && (b.address.net == 0 || b.address.macLen == 0))
  {
    hide Encode, Decode, EncodeAddress, DecodeAddress, NetSame, Same, Carriable;
    var id, a := Encode(DeviceId(b)), EncodeAddress(b.address);
    Regroup(id, a, rest);
    DecodeOfEncode(DeviceId(b), a + rest);
    assert (id + (a + rest))[|id|..] == a + rest;
    AddressRoundTrip(b.address, prior, rest);
  }

  /** The binding of a device behind a known router differs, in the binding's own comparison, from its own decoded
      encoding, although the addresses are net-same. */
  lemma RoutedBindingDiffers(device: nat, mac: MacField, adr: MacField, prior: Address, rest: Bytes)
    requires device <= MAX_INSTANCE
    ensures var b := Binding(device, Address(6, mac, 5, 1, adr));
      var r := DecodeBinding(EncodeBinding(b) + rest, prior);
      && r.Some? && NetSame(r.value.value.address, b.address) && !SameBinding(r.value.value, b)
  {
    hide DecodeBinding, EncodeBinding, NetSame, Same;
    BindingRoundTrip(Binding(device, Address(6, mac, 5, 1, adr)), prior, rest);
  }

  /** `encode_bacnet_address` */
  method WriteAddress(apdu: array?<Octet>, at: nat, a: Address) returns (len: nat)
    requires apdu != null ==> at + |EncodeAddress(a)| <= apdu.Length
    modifies apdu
    ensures len == |EncodeAddress(a)|
    ensures apdu != null ==> Wrote(old(apdu[..]), apdu[..], at, EncodeAddress(a))
  {
    hide Encode, Wrote;
    len := WriteApplicationData(apdu, at, Unsigned(a.net));
    ghost var between := if apdu != null then apdu[..] else [];
    var mac := if a.len > 0 then a.adr[..Min(a.len, MAX_MAC_LEN)] else a.mac[..Min(a.macLen, MAX_MAC_LEN)];
    var n := WriteApplicationData(apdu, at + len, OctetString(mac));
    len := len + n;
    if apdu != null {
      WroteBoth(old(apdu[..]), between, apdu[..], at, Encode(Unsigned(a.net)), Encode(OctetString(mac)));
    }
  }

  /** `bacnet_address_binding_encode`: nothing is written when the buffer is too small. */
  method WriteBinding(apdu: array<Octet>, size: nat, b: Binding) returns (len: nat)
    requires b.device < 0x1_0000_0000
    requires size <= apdu.Length
    modifies apdu
    ensures len == if |EncodeBinding(b)| <= size then |EncodeBinding(b)| else 0
    ensures Wrote(old(apdu[..]), apdu[..], 0, if |EncodeBinding(b)| <= size then EncodeBinding(b) else [])
  {
    hide Encode, EncodeAddress;
    len := WriteBindingPieces(null, 0, b);
    if len > size {
      return 0;
    }
    len := WriteBindingPieces(apdu, 0, b);
  }

  method WriteBindingPieces(apdu: array?<Octet>, at: nat, b: Binding) returns (len: nat)
    requires b.device < 0x1_0000_0000
    requires apdu != null ==> at + |EncodeBinding(b)| <= apdu.Length
    modifies apdu
    ensures len == |EncodeBinding(b)|
    ensures apdu != null ==> Wrote(old(apdu[..]), apdu[..], at, EncodeBinding(b))
  {
    hide Encode, EncodeAddress, Wrote;
    len := WriteApplicationData(apdu, at, DeviceId(b));
    ghost var between := if apdu != null then apdu[..] else [];
    var n := WriteAddress(apdu, at + len, b.address);
    len := len + n;
    if apdu != null {
      WroteBoth(old(apdu[..]), between, apdu[..], at, Encode(DeviceId(b)), EncodeAddress(b.address));
    }
  }
}
