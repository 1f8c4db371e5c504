/** A transmit buffer as the encoders see it: an octet array written from a position on, or no array at
    all for a pass that only computes the length. */
module Transmit {
  import opened Octets

  /** `after` is `before` with `bytes` laid over it from position `at`. */
  ghost predicate Wrote(before: Bytes, after: Bytes, at: nat, bytes: Bytes) {
    && at + |bytes| <= |before| == |after|
    && after[..at] == before[..at]
    && after[at..at + |bytes|] == bytes
    && after[at + |bytes|..] == before[at + |bytes|..]
  }

  /** Two adjacent writes are one write of the concatenation. */
  lemma WroteBoth(before: Bytes, between: Bytes, after: Bytes, at: nat, first: Bytes, second: Bytes)
    requires Wrote(before, between, at, first)
    requires Wrote(between, after, at + |first|, second)
    ensures Wrote(before, after, at, first + second)
  {
    var mid, end := at + |first|, at + |first| + |second|;
    assert after[..at] == after[..mid][..at] == between[..at];
    assert after[at..mid] == after[..mid][at..] == between[at..mid];
    assert after[at..end] == after[at..mid] + after[mid..end];
    assert before[end..] == before[mid..][|second|..] == between[end..];
  }

  lemma WroteNothing(now: Bytes, at: nat)
    ensures at <= |now| ==> Wrote(now, now, at, [])
  {
  }

  method PutOctets(apdu: array?<Octet>, at: nat, bytes: Bytes) returns (len: nat)
    requires apdu != null ==> at + |bytes| <= apdu.Length
    modifies apdu
    ensures len == |bytes|
    ensures apdu != null ==> Wrote(old(apdu[..]), apdu[..], at, bytes)
  {
    len := |bytes|;
    if apdu != null {
      var i := 0;
      while i < len
        invariant i <= len
        invariant apdu[..at] == old(apdu[..at])
        invariant apdu[at..at + i] == bytes[..i]
        invariant apdu[at + i..] == old(apdu[at + i..])
      {
        apdu[at + i] := bytes[i];
        i := i + 1;
      }
    }
  }
}
