/** The discovery pass: every I-Am reply goes through a table that stores the first eight devices and
    counts what it could not store, so that a caller can tell when the result is incomplete. */
module Discovery {
  import opened Wrappers
  import opened Octets

  const MAX_DISCOVERED_DEVICES := 8
  const DEFAULT_PORT := 47808
  const NAME_MAX := 47
  const DELTA_CONTROLS := 8

  type Mac = s: seq<Octet> | |s| == 6 witness [0, 0, 0, 0, 0, 0]

  /** A decoded I-Am and the datalink address it came from: four octets of IP, two of port. */
  datatype IAm = IAm(deviceId: nat, mac: Mac, vendorId: nat)

  /** `bacnet_discovered_dev_t` */
  datatype Device =
    Device(deviceId: nat, ip: string, port: nat, vendorId: nat, name: string, vendorName: string, modelName: string)

  function Digit(n: nat): char
    requires n < 10
  {
    (48 + n) as char
  }

  /** "%u" */
  function Decimal(n: nat): (s: string)
    ensures '.' !in s
  {
    (if n < 10 then "" else Decimal(n / 10)) + [Digit(n % 10)]
  }

  function Dotted(mac: Mac): string {
    Decimal(mac[0]) + "." + (Decimal(mac[1]) + "." + (Decimal(mac[2]) + "." + Decimal(mac[3])))
  }

  /** The number a decimal text stands for. */
  function Number(s: string): int {
    if s == "" then 0 else 10 * Number(s[..|s| - 1]) + (s[|s| - 1] as int - 48)
  }

  lemma {:induction false} NumberOfDecimal(n: nat)
    ensures Number(Decimal(n)) == n
  {
    var s := Decimal(n);
    if n < 10 {
      assert s[..|s| - 1] == "";
    } else {
      assert s[..|s| - 1] == Decimal(n / 10);
      NumberOfDecimal(n / 10);
    }
  }

  lemma DecimalIsInjective(a: nat, b: nat)
    requires Decimal(a) == Decimal(b)
    ensures a == b
  {
    NumberOfDecimal(a);
    NumberOfDecimal(b);
  }

  lemma FirstDotSplits(a: string, x: string, b: string, y: string)
    requires '.' !in a && '.' !in b
    requires a + "." + x == b + "." + y
    ensures a == b && x == y
  {
    var s := a + "." + x;
    assert s[|a|] == '.' && s[|b|] == '.';
    assert forall i :: 0 <= i < |a| ==> s[i] == a[i] && a[i] != '.';
    assert forall i :: 0 <= i < |b| ==> s[i] == b[i] && b[i] != '.';
    assert |a| == |b|;
    assert a == s[..|a|] && b == s[..|b|];
    assert x == s[|a| + 1..] && y == s[|b| + 1..];
  }

  /** Comparing the printed addresses compares the four IP octets. */
  lemma DottedIsInjective(m: Mac, n: Mac)
    requires Dotted(m) == Dotted(n)
    ensures m[..4] == n[..4]
  {
    FirstDotSplits(Decimal(m[0]), Decimal(m[1]) + "." + (Decimal(m[2]) + "." + Decimal(m[3])),
                   Decimal(n[0]), Decimal(n[1]) + "." + (Decimal(n[2]) + "." + Decimal(n[3])));
    FirstDotSplits(Decimal(m[1]), Decimal(m[2]) + "." + Decimal(m[3]),
                   Decimal(n[1]), Decimal(n[2]) + "." + Decimal(n[3]));
    FirstDotSplits(Decimal(m[2]), Decimal(m[3]), Decimal(n[2]), Decimal(n[3]));
    DecimalIsInjective(m[0], n[0]);
    DecimalIsInjective(m[1], n[1]);
    DecimalIsInjective(m[2], n[2]);
    DecimalIsInjective(m[3], n[3]);
  }

  /** The two port octets are copied as they lie in memory; zero means the default port. */
  function PortOf(mac: Mac): nat {
    var port := (mac[4] as int) + 256 * (mac[5] as int);
    if port == 0 then DEFAULT_PORT else port
  }

  /** A text as its array keeps it. */
  function Fit(text: string): string {
    text[..Min(|text|, NAME_MAX)]
  }

  function DeviceName(deviceId: nat): string {
    Fit("Device " + Decimal(deviceId))
  }

  function VendorName(vendorId: nat): string {
    Fit(if vendorId == DELTA_CONTROLS then "Delta Controls" else "Vendor " + Decimal(vendorId))
  }

  function DeviceOf(e: IAm): Device {
    Device(e.deviceId, Dotted(e.mac), PortOf(e.mac), e.vendorId,
           DeviceName(e.deviceId), VendorName(e.vendorId), "DAC Controller")
  }

  /** What tells responders apart. */
  datatype Key = Key(deviceId: nat, ip: string)

  function KeyOf(d: Device): Key {
    Key(d.deviceId, d.ip)
  }

  /** The distinct devices that answered. */
  function Responders(events: seq<IAm>): set<Key> {
    set e <- events :: KeyOf(DeviceOf(e))
  }

  function StoredKeys(stored: seq<Device>): set<Key> {
    set d <- stored :: KeyOf(d)
  }

  /** What the table holds after the given replies: distinct devices, all of them until the table is full,
      each as first heard, and a count that overtakes the stored number exactly when some were dropped. */
  ghost predicate Exact(events: seq<IAm>, stored: seq<Device>, seen: nat) {
    && (forall i, j :: 0 <= i < j < |stored| ==> KeyOf(stored[i]) != KeyOf(stored[j]))
    && |stored| == Min(MAX_DISCOVERED_DEVICES, |Responders(events)|)
    && StoredKeys(stored) <= Responders(events)
    && (|Responders(events)| <= MAX_DISCOVERED_DEVICES ==> StoredKeys(stored) == Responders(events))
    && |Responders(events)| <= seen
    && (seen > |stored| <==> |Responders(events)| > MAX_DISCOVERED_DEVICES)
    && forall i :: 0 <= i < |stored| ==> FirstHeard(events, stored[i])
  }

  /** The record comes from the first reply of its device. */
  ghost predicate FirstHeard(events: seq<IAm>, d: Device) {
    exists k :: 0 <= k < |events| && DeviceOf(events[k]) == d && KeyOf(d) !in Responders(events[..k])
  }

  lemma StoredKeysHas(stored: seq<Device>, key: Key)
    ensures key in StoredKeys(stored) <==> exists i :: 0 <= i < |stored| && KeyOf(stored[i]) == key
  {
  }

  lemma RespondersAppend(events: seq<IAm>, e: IAm)
    ensures Responders(events + [e]) == Responders(events) + {KeyOf(DeviceOf(e))}
  {
  }

  lemma FirstHeardStays(events: seq<IAm>, e: IAm, d: Device)
    requires FirstHeard(events, d)
    ensures FirstHeard(events + [e], d)
  {
    hide DeviceOf, Responders;
    var k :| 0 <= k < |events| && DeviceOf(events[k]) == d && KeyOf(d) !in Responders(events[..k]);
    assert (events + [e])[..k] == events[..k];
  }

  /** A printed address is the four IP octets in decimal, in order, with dots between them. */
  lemma DottedReads(mac: Mac) returns (parts: seq<string>)
    ensures |parts| == 4
    ensures Dotted(mac) == parts[0] + "." + parts[1] + "." + parts[2] + "." + parts[3]
    ensures forall i :: 0 <= i < 4 ==> '.' !in parts[i] && Number(parts[i]) == mac[i]
  {
    hide Decimal, Number;
    parts := [Decimal(mac[0]), Decimal(mac[1]), Decimal(mac[2]), Decimal(mac[3])];
    NumberOfDecimal(mac[0]);
    NumberOfDecimal(mac[1]);
    NumberOfDecimal(mac[2]);
    NumberOfDecimal(mac[3]);
  }

  /** The record of a reply, field by field: the port is the last two octets as a little-endian processor reads them,
      or 47808 for zero. */
  lemma RecordOfReply(e: IAm)
    ensures var d := DeviceOf(e);
      && d.deviceId == e.deviceId && d.vendorId == e.vendorId && d.ip == Dotted(e.mac)
      && d.port == (if e.mac[4] == 0 && e.mac[5] == 0 then 47808 else e.mac[4] as int + 256 * (e.mac[5] as int))
      && d.modelName == "DAC Controller"
      && (e.vendorId == 8 ==> d.vendorName == "Delta Controls")
      && (e.vendorId != 8 && |Decimal(e.vendorId)| <= 40 ==> d.vendorName == "Vendor " + Decimal(e.vendorId))
      && (|Decimal(e.deviceId)| <= 40 ==> d.name == "Device " + Decimal(e.deviceId))
  {
    hide Decimal, Dotted;
    var vendor, device := "Vendor " + Decimal(e.vendorId), "Device " + Decimal(e.deviceId);
    assert vendor[..|vendor|] == vendor && device[..|device|] == device;
  }

  /** What holds of the whole table holds of its beginning. */
  lemma FoundIsExact(events: seq<IAm>, stored: seq<Device>, seen: nat, n: nat)
    requires Exact(events, stored, seen) && n <= |stored|
    ensures StoredKeys(stored[..n]) <= Responders(events)
    ensures forall i :: 0 <= i < n ==> FirstHeard(events, stored[..n][i])
    ensures forall i, j :: 0 <= i < j < n ==> KeyOf(stored[..n][i]) != KeyOf(stored[..n][j])
  {
    hide FirstHeard, Responders;
    forall key | key in StoredKeys(stored[..n]) ensures key in StoredKeys(stored) {
      assert forall d <- stored[..n] :: d in stored;
    }
  }

  /** A device already in the table changes nothing. */
  lemma KnownDevice(events: seq<IAm>, stored: seq<Device>, seen: nat, e: IAm)
    requires Exact(events, stored, seen)
    requires KeyOf(DeviceOf(e)) in StoredKeys(stored)
    ensures Exact(events + [e], stored, seen)
  {
    hide FirstHeard, Responders, StoredKeys, DeviceOf;
    RespondersAppend(events, e);
    assert Responders(events + [e]) == Responders(events);
    forall i | 0 <= i < |stored| ensures FirstHeard(events + [e], stored[i]) {
      FirstHeardStays(events, e, stored[i]);
    }
  }

  lemma FirstHeardNow(events: seq<IAm>, e: IAm)
    requires KeyOf(DeviceOf(e)) !in Responders(events)
    ensures FirstHeard(events + [e], DeviceOf(e))
  {
    assert (events + [e])[|events|] == e && (events + [e])[..|events|] == events;
  }

  lemma StoredKeysAppend(stored: seq<Device>, d: Device)
    ensures StoredKeys(stored + [d]) == StoredKeys(stored) + {KeyOf(d)}
  {
  }

  /** A device not in the table is stored while there is room. */
  lemma StoreUnknown(events: seq<IAm>, stored: seq<Device>, seen: nat, e: IAm)
    requires Exact(events, stored, seen)
    requires KeyOf(DeviceOf(e)) !in StoredKeys(stored) && |stored| < MAX_DISCOVERED_DEVICES
    ensures Exact(events + [e], stored + [DeviceOf(e)], seen + 1)
  {
    hide FirstHeard, Responders, StoredKeys, DeviceOf;
    var d := DeviceOf(e);
    RespondersAppend(events, e);
    StoredKeysAppend(stored, d);
    FirstHeardNow(events, e);
    forall i | 0 <= i < |stored| ensures FirstHeard(events + [e], stored[i]) && KeyOf(stored[i]) != KeyOf(d) {
      FirstHeardStays(events, e, stored[i]);
      StoredKeysHas(stored, KeyOf(stored[i]));
    }
  }

  /** A device not in a full table is only counted. */
  lemma CountUnknown(events: seq<IAm>, stored: seq<Device>, seen: nat, e: IAm)
    requires Exact(events, stored, seen)
    requires KeyOf(DeviceOf(e)) !in StoredKeys(stored) && |stored| == MAX_DISCOVERED_DEVICES
    ensures Exact(events + [e], stored, seen + 1)
  {
    hide FirstHeard, Responders, StoredKeys, DeviceOf;
    RespondersAppend(events, e);
    SetGrowth(Responders(events), KeyOf(DeviceOf(e)));
    forall i | 0 <= i < |stored| ensures FirstHeard(events + [e], stored[i]) {
      FirstHeardStays(events, e, stored[i]);
    }
  }

  lemma SetGrowth(keys: set<Key>, key: Key)
    ensures |keys + {key}| == if key in keys then |keys| else |keys| + 1
  {
    if key in keys {
      assert keys + {key} == keys;
    }
  }

  /** `s_discovered_devs` with its two counters. */
  class Table {
    const devices: array<Device>
    var count: nat
    var seen: nat
    ghost var events: seq<IAm>

    ghost predicate Valid()
      reads this, devices
    {
      && devices.Length == MAX_DISCOVERED_DEVICES
      && count <= devices.Length
      && Exact(events, devices[..count], seen)
    }

    constructor ()
      ensures Valid() && fresh(devices) && events == []
    {
      devices := new Device[MAX_DISCOVERED_DEVICES](_ => Device(0, "", 0, 0, "", "", ""));
      count, seen, events := 0, 0, [];
    }

    /** The start of `execute_worker_discovery`. */
    method Restart()
      requires Valid()
      modifies this
      ensures Valid() && events == [] && count == 0 && seen == 0
    {
      count, seen, events := 0, 0, [];
    }

    /** `worker_i_am_handler`, for a reply that decodes. */
    method OnIAm(e: IAm)
      requires Valid()
      modifies this, devices
      ensures Valid() && events == old(events) + [e]
    {
      hide Exact, Dotted, PortOf, DeviceName, VendorName;
      var ip := Dotted(e.mac);
      ghost var stored := devices[..count];
      for i := 0 to count
        invariant forall j :: 0 <= j < i ==> KeyOf(devices[j]) != Key(e.deviceId, ip)
      {
        if devices[i].deviceId == e.deviceId && devices[i].ip == ip {
          StoredKeysHas(stored, KeyOf(DeviceOf(e)));
          assert KeyOf(stored[i]) == KeyOf(DeviceOf(e));
          KnownDevice(events, stored, seen, e);
          events := events + [e];
          return;
        }
      }
      StoredKeysHas(stored, KeyOf(DeviceOf(e)));
      seen := seen + 1;
      if count < MAX_DISCOVERED_DEVICES {
        StoreUnknown(events, stored, seen - 1, e);
        devices[count] := Device(e.deviceId, ip, PortOf(e.mac), e.vendorId,
                                 DeviceName(e.deviceId), VendorName(e.vendorId), "DAC Controller");
        count := count + 1;
        assert devices[..count] == stored + [DeviceOf(e)];
      } else {
        CountUnknown(events, stored, seen - 1, e);
      }
      events := events + [e];
    }

    /** `bacnet_worker_discover_sync` with the truncation flag its caller computes: the flag is raised
        exactly when more distinct devices answered than could be returned. */
    method Report(maxDevs: nat) returns (found: seq<Device>, truncated: bool)
      requires Valid()
      ensures |found| == Min(maxDevs, Min(8, |Responders(events)|))
      ensures StoredKeys(found) <= Responders(events)
      ensures forall i :: 0 <= i < |found| ==> FirstHeard(events, found[i])
      ensures forall i, j :: 0 <= i < j < |found| ==> KeyOf(found[i]) != KeyOf(found[j])
      ensures truncated <==> |Responders(events)| > Min(maxDevs, 8)
    {
      hide FirstHeard, StoredKeys, Responders;
      var n := if count > maxDevs then maxDevs else count;
      found := devices[..n];
      truncated := seen > n;
      assert devices[..count][..n] == found;
      FoundIsExact(events, devices[..count], seen, n);
    }
  }
}
