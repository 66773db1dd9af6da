/** Packets and messages exchanged by the two endpoints, and the additive
    checksum both endpoints use to detect corruption (sr.c:17-36).

    The C `struct pkt` holds two header words, a checksum and a 20-byte
    payload; `struct msg` holds a 20-byte application message. Payload bytes
    are C `char`s that the checksum loop widens to `int`; here they are plain
    integers, so both the signed and the unsigned reading of a byte are
    covered, and the sum is unbounded (no `int` overflow). */
module Packets {

  /** Number of bytes in a payload and in an application message. */
  const PayloadSize: int := 20

  /** Header value for a field that is not in use (`NOTINUSE`, sr.c:15). */
  const NotInUse: int := -1

  /** A fixed-size payload: exactly `PayloadSize` bytes. */
  type Payload = s: seq<int> | |s| == PayloadSize witness seq(PayloadSize, _ => 0)

  /** `struct msg`: what the application hands to the sender. */
  datatype Message = Message(data: Payload)

  /** `struct pkt`: a data packet or an acknowledgement. */
  datatype Packet = Packet(seqnum: int, acknum: int, checksum: int, payload: Payload)

  /** The all-zero packet: the value of a zero-initialised static `struct pkt`. */
  const ZeroPacket: Packet := Packet(0, 0, 0, seq(PayloadSize, _ => 0))

  /** Sum of a sequence of integers, taken from the left as the checksum
      loop accumulates it: the last element is added last. */
  function Sum(s: seq<int>): int
  {
    if s == [] then 0 else Sum(s[..|s| - 1]) + s[|s| - 1]
  }

  /** The additive checksum: both header fields plus every payload byte. */
  function Checksum(p: Packet): int
  {
    p.seqnum + p.acknum + Sum(p.payload)
  }

  /** A packet is intact when its stored checksum matches the recomputed one. */
  predicate Intact(p: Packet)
  {
    p.checksum == Checksum(p)
  }

  /** `ComputeChecksum` (sr.c:17-28): start from the sequence number, add the
      acknowledgement number, then add the 20 payload bytes one by one. */
  method ComputeChecksum(p: Packet) returns (checksum: int)
    ensures checksum == Checksum(p)
  {
    checksum := p.seqnum;
    checksum := checksum + p.acknum;
    for i := 0 to PayloadSize
      invariant checksum == p.seqnum + p.acknum + Sum(p.payload[..i])
    {
      assert p.payload[..i + 1][..i] == p.payload[..i];
      checksum := checksum + p.payload[i];
    }
    assert p.payload[..PayloadSize] == p.payload;
  }

  /** `IsCorrupted` (sr.c:30-36): recompute the checksum and compare it with
      the stored one; a mismatch, and only a mismatch, means corrupted. */
  method IsCorrupted(p: Packet) returns (corrupted: bool)
    ensures !corrupted <==> Intact(p)
  {
    var c := ComputeChecksum(p);
    if p.checksum == c {
      corrupted := false;
    } else {
      corrupted := true;
    }
  }

  /** Replacing one element changes the sum by exactly the difference. */
  lemma {:induction false} SumUpdate(s: seq<int>, i: int, v: int)
    requires 0 <= i < |s|
    ensures Sum(s[i := v]) == Sum(s) - s[i] + v
  {
    var t := s[i := v];
    var n := |s| - 1;
    if i < n {
      assert t[..n] == s[..n][i := v];
      SumUpdate(s[..n], i, v);
    } else {
      assert t[..n] == s[..n];
    }
  }

  /** A change to any single payload byte of an intact packet is detected:
      the packet is no longer intact, so `IsCorrupted` reports it. */
  lemma ByteChangeDetected(p: Packet, i: int, v: int)
    requires Intact(p)
    requires 0 <= i < PayloadSize && v != p.payload[i]
    ensures !Intact(p.(payload := p.payload[i := v]))
  {
    SumUpdate(p.payload, i, v);
  }

  /** A change to a single header field of an intact packet is detected. */
  lemma HeaderChangeDetected(p: Packet, seqnum: int, acknum: int)
    requires Intact(p)
    requires (seqnum != p.seqnum) != (acknum != p.acknum)
    ensures !Intact(p.(seqnum := seqnum, acknum := acknum))
  {
  }

  /** The checksum is insensitive to order: exchanging two payload bytes of
      an intact packet leaves it intact, so such a corruption goes unnoticed. */
  lemma SwapUndetected(p: Packet, i: int, j: int)
    requires Intact(p)
    requires 0 <= i < PayloadSize && 0 <= j < PayloadSize
    ensures Intact(p.(payload := p.payload[i := p.payload[j]][j := p.payload[i]]))
  {
    var s := p.payload;
    var s1 := s[i := s[j]];
    SumUpdate(s, i, s[j]);
    SumUpdate(s1, j, s[i]);
  }
}
