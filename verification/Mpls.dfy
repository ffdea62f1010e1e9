/**
 * MPLS labels carried by ICMP extensions: the 4-byte label entry of section 2.1 of RFC 3032, the
 * object structure of sections 7 and 8 of RFC 4884, and how packet/deconstruct_unix.c walks it.
 */
module Mpls {
  import opened CInt

  const MAX_MPLS_LABELS := 8
  const ICMP_HEADER_SIZE := 8
  const ORIGINAL_DATAGRAM_SIZE := 128
  const EXTENSION_HEADER_SIZE := 4
  const OBJECT_HEADER_SIZE := 4
  const LABEL_SIZE := 4

  /** `struct mpls_label_t`. */
  datatype Label = Label(number: int, trafficClass: int, bottomOfStack: int, ttl: int) {
    predicate Valid() {
      0 <= number < 0x10_0000 && 0 <= trafficClass < 8 && 0 <= bottomOfStack < 2 && 0 <= ttl < 256
    }
  }

  // ----- one label entry -----

  /** The shifts and masks on the three label bytes act on disjoint bits, so they are these sums. */
  function DecodeLabel(b0: Byte, b1: Byte, b2: Byte, ttl: Byte): (l: Label)
    ensures l.Valid()
  {
    Label(b0 * 4096 + b1 * 16 + b2 / 16, b2 / 2 % 8, b2 % 2, ttl)
  }

  function EncodeLabel(l: Label): (bytes: seq<Byte>)
    requires l.Valid()
    ensures |bytes| == LABEL_SIZE
  {
    [l.number / 4096, l.number / 16 % 256, l.number % 16 * 16 + l.trafficClass * 2 + l.bottomOfStack, l.ttl]
  }

  lemma ShiftsAreSums(b0: bv32, b1: bv32, b2: bv32)
    requires b0 < 256 && b1 < 256 && b2 < 256
    ensures (b0 << 12) | (b1 << 4) | (b2 >> 4) == b0 * 4096 + b1 * 16 + b2 / 16
    ensures (b2 & 0x0E) >> 1 == b2 / 2 % 8
    ensures b2 & 0x01 == b2 % 2
  {}

  lemma DecodeEncode(l: Label)
    requires l.Valid()
    ensures var e := EncodeLabel(l); DecodeLabel(e[0], e[1], e[2], e[3]) == l
  {
    var n, b2 := l.number, l.number % 16 * 16 + l.trafficClass * 2 + l.bottomOfStack;
    assert b2 / 16 == n % 16 && b2 % 16 == l.trafficClass * 2 + l.bottomOfStack;
    assert n == 16 * (n / 16) + n % 16 && n / 16 == 256 * (n / 4096) + n / 16 % 256;
    assert b2 / 2 == 8 * (n % 16) + l.trafficClass;
  }

  /** The fields in the order of section 2.1 of RFC 3032: 20, 3, 1 and 8 bits of one big-endian word. */
  lemma LabelIsTheWord(b0: Byte, b1: Byte, b2: Byte, ttl: Byte)
    ensures var l, w := DecodeLabel(b0, b1, b2, ttl), FromNetwork(b0, b1) * 65536 + FromNetwork(b2, ttl);
            l.number * 4096 + l.trafficClass * 512 + l.bottomOfStack * 256 + l.ttl == w
  {
    var x: int := b2;
    assert x == x / 16 * 16 + x / 2 % 8 * 2 + x % 2;
  }

  lemma EncodeDecode(b0: Byte, b1: Byte, b2: Byte, ttl: Byte)
    ensures EncodeLabel(DecodeLabel(b0, b1, b2, ttl)) == [b0, b1, b2, ttl]
  {
    var n := DecodeLabel(b0, b1, b2, ttl).number;
    assert n == 16 * (256 * b0 + b1) + b2 / 16;
    assert n / 16 == 256 * b0 + b1 && n % 16 == b2 / 16;
    assert n / 4096 == b0;
  }

  // ----- objects -----

  datatype Object = Object(classNum: Byte, cType: Byte, payload: seq<Byte>) {
    predicate IsMpls() { classNum == 1 && cType == 1 }
  }

  predicate Encodable(o: Object) { OBJECT_HEADER_SIZE + |o.payload| < 0x1_0000 }

  function EncodeObject(o: Object): (bytes: seq<Byte>)
    requires Encodable(o)
    ensures |bytes| == OBJECT_HEADER_SIZE + |o.payload|
  {
    NetworkBytes(OBJECT_HEADER_SIZE + |o.payload|) + [o.classNum, o.cType] + o.payload
  }

  function EncodeObjects(os: seq<Object>): seq<Byte>
    requires forall o :: o in os ==> Encodable(o)
  {
    if os == [] then [] else EncodeObject(os[0]) + EncodeObjects(os[1..])
  }

  function EncodeLabels(ls: seq<Label>): (bytes: seq<Byte>)
    requires forall l :: l in ls ==> l.Valid()
    ensures |bytes| == LABEL_SIZE * |ls|
  {
    if ls == [] then [] else EncodeLabel(ls[0]) + EncodeLabels(ls[1..])
  }

  /** The labels of an MPLS object: as many whole entries as there are, up to `room`. */
  function LabelsIn(payload: seq<Byte>, room: nat): (ls: seq<Label>)
    ensures |ls| <= room && LABEL_SIZE * |ls| <= |payload|
    ensures forall l :: l in ls ==> l.Valid()
  {
    if room == 0 || |payload| < LABEL_SIZE then []
    else [DecodeLabel(payload[0], payload[1], payload[2], payload[3])] + LabelsIn(payload[LABEL_SIZE..], room - 1)
  }

  function ObjectLength(bytes: seq<Byte>): nat
    requires |bytes| >= OBJECT_HEADER_SIZE
  {
    FromNetwork(bytes[0], bytes[1])
  }

  /**
   * The payload of the first MPLS object reached through well-formed objects, or an empty payload
   * if the chain is malformed or ends first.
   */
  function FirstMplsPayload(bytes: seq<Byte>): (payload: seq<Byte>)
    ensures |payload| <= |bytes|
    decreases |bytes|
  {
    if |bytes| < OBJECT_HEADER_SIZE then []
    else
      var length := ObjectLength(bytes);
      if length > |bytes| || length < OBJECT_HEADER_SIZE then []
      else if bytes[2] == 1 && bytes[3] == 1 then bytes[OBJECT_HEADER_SIZE..length]
      else FirstMplsPayload(bytes[length..])
  }

  /** What a whole ICMP message yields. */
  function LabelsOfMessage(icmp: seq<Byte>, room: nat): seq<Label> {
    var start := ICMP_HEADER_SIZE + ORIGINAL_DATAGRAM_SIZE;
    if |icmp| < start + EXTENSION_HEADER_SIZE || icmp[start] / 16 != 2 then []
    else LabelsIn(FirstMplsPayload(icmp[start + EXTENSION_HEADER_SIZE..]), room)
  }

  // ----- the walk, as the program does it: a byte position and a remaining size -----

  lemma NextLabel(payload: seq<Byte>, i: nat, room: nat)
    requires LABEL_SIZE * (i + 1) <= |payload| && i < room
    ensures LabelsIn(payload[LABEL_SIZE * i..], room - i)
         == [DecodeLabel(payload[4 * i], payload[4 * i + 1], payload[4 * i + 2], payload[4 * i + 3])]
            + LabelsIn(payload[LABEL_SIZE * (i + 1)..], room - i - 1)
  {
    hide DecodeLabel;
    assert payload[LABEL_SIZE * i..][LABEL_SIZE..] == payload[LABEL_SIZE * (i + 1)..];
  }

  lemma NoMoreLabels(payload: seq<Byte>, i: nat, room: nat)
    requires i <= room && LABEL_SIZE * i <= |payload| && (i == room || |payload| < LABEL_SIZE * (i + 1))
    ensures LabelsIn(payload[LABEL_SIZE * i..], room - i) == []
  {}

  /** Decode the labels of the object at `at` into the caller's array; returns how many. */
  method DecodeMplsObject(packet: array<Byte>, at: nat, objLen: int, mpls: array<Label>, mplsCount: nat)
      returns (count: nat)
    requires OBJECT_HEADER_SIZE <= objLen && at + objLen <= packet.Length
    requires mplsCount <= mpls.Length
    modifies mpls
    ensures count <= mplsCount
    ensures mpls[..count] == LabelsIn(packet[at + OBJECT_HEADER_SIZE..at + objLen], mplsCount)
  {
    hide DecodeLabel, LabelsIn;
    var labelBytes := objLen - OBJECT_HEADER_SIZE;
    var labelsPresent := labelBytes / LABEL_SIZE;
    var extMpls := at + OBJECT_HEADER_SIZE;
    ghost var payload := packet[extMpls..at + objLen];
    ghost var done: seq<Label> := [];
    assert payload[0..] == payload;
    var i := 0;
    while i < mplsCount && i < labelsPresent
      invariant 0 <= i <= mplsCount && i <= labelsPresent
      invariant mpls[..i] == done
      invariant done + LabelsIn(payload[LABEL_SIZE * i..], mplsCount - i) == LabelsIn(payload, mplsCount)
    {
      var extLabel := extMpls + LABEL_SIZE * i;
      mpls[i] := DecodeLabel(packet[extLabel], packet[extLabel + 1], packet[extLabel + 2], packet[extLabel + 3]);
      NextLabel(payload, i, mplsCount);
      assert done + ([mpls[i]] + LabelsIn(payload[LABEL_SIZE * (i + 1)..], mplsCount - i - 1))
          == (done + [mpls[i]]) + LabelsIn(payload[LABEL_SIZE * (i + 1)..], mplsCount - i - 1);
      done := done + [mpls[i]];
      i := i + 1;
    }
    NoMoreLabels(payload, i, mplsCount);
    count := i;
  }

  lemma NextObject(bytes: seq<Byte>)
    requires |bytes| >= OBJECT_HEADER_SIZE
    ensures ObjectLength(bytes) > |bytes| || ObjectLength(bytes) < OBJECT_HEADER_SIZE ==>
              FirstMplsPayload(bytes) == []
    ensures OBJECT_HEADER_SIZE <= ObjectLength(bytes) <= |bytes| ==>
              FirstMplsPayload(bytes) == if bytes[2] == 1 && bytes[3] == 1
                                         then bytes[OBJECT_HEADER_SIZE..ObjectLength(bytes)]
                                         else FirstMplsPayload(bytes[ObjectLength(bytes)..])
  {}

  lemma NothingFound(bytes: seq<Byte>, room: nat)
    ensures LabelsIn([], room) == []
    ensures |bytes| < OBJECT_HEADER_SIZE ==> FirstMplsPayload(bytes) == []
  {}

  /**
   * Look for an MPLS object in the extension of the ICMP message at `icmp`; never reads outside
   * the packet.  Returns the number of labels stored.
   */
  method DecodeMplsLabels(packet: array<Byte>, icmp: nat, packetLength: nat, mpls: array<Label>, mplsCount: nat)
      returns (count: nat)
    requires icmp + packetLength <= packet.Length && mplsCount <= mpls.Length
    modifies mpls
    ensures count <= mplsCount
    ensures mpls[..count] == LabelsOfMessage(packet[icmp..icmp + packetLength], mplsCount)
  {
    hide LabelsIn, FirstMplsPayload;
    var icmpOrigIcmpExtSize := ICMP_HEADER_SIZE + ORIGINAL_DATAGRAM_SIZE + EXTENSION_HEADER_SIZE;
    ghost var message := packet[icmp..icmp + packetLength];
    if packetLength < icmpOrigIcmpExtSize {
      return 0;
    }
    var icmpExt := icmp + ICMP_HEADER_SIZE + ORIGINAL_DATAGRAM_SIZE;
    if packet[icmpExt] / 16 * 16 != 0x20 {
      return 0;
    }
    ghost var at := icmpOrigIcmpExtSize;
    assert message[at..] == packet[icmp + at..icmp + packetLength];
    count := WalkObjects(packet, icmpExt + EXTENSION_HEADER_SIZE, packetLength - icmpOrigIcmpExtSize, mpls, mplsCount);
  }

  /** The loop over the objects of the extension, `remainingSize` bytes from `icmpObject` on. */
  method WalkObjects(packet: array<Byte>, icmpObject: nat, remainingSize: nat, mpls: array<Label>, mplsCount: nat)
      returns (count: nat)
    requires icmpObject + remainingSize <= packet.Length && mplsCount <= mpls.Length
    modifies mpls
    ensures count <= mplsCount
    ensures mpls[..count] == LabelsIn(FirstMplsPayload(old(packet[icmpObject..icmpObject + remainingSize])), mplsCount)
  {
    hide LabelsIn, FirstMplsPayload;
    ghost var whole := packet[icmpObject..icmpObject + remainingSize];
    ghost var here := whole;
    var icmpObject, remainingSize: nat := icmpObject, remainingSize;
    ghost var end := icmpObject + remainingSize;
    while remainingSize >= OBJECT_HEADER_SIZE
      invariant icmpObject + remainingSize == end && packet[icmpObject..end] == here
      invariant LabelsIn(FirstMplsPayload(here), mplsCount) == LabelsIn(FirstMplsPayload(whole), mplsCount)
      decreases remainingSize
    {
      NextObject(here);
      NothingFound(here, mplsCount);
      var objLen := FromNetwork(packet[icmpObject], packet[icmpObject + 1]);
      if objLen > remainingSize {
        return 0;
      }
      if objLen < OBJECT_HEADER_SIZE {
        return 0;
      }
      if packet[icmpObject + 2] == 1 && packet[icmpObject + 3] == 1 {
        SubSlice(packet[..], icmpObject, end, OBJECT_HEADER_SIZE, objLen);
        count := DecodeMplsObject(packet, icmpObject, objLen, mpls, mplsCount);
        return;
      }
      SubSlice(packet[..], icmpObject, end, objLen, remainingSize);
      here := here[objLen..];
      remainingSize := remainingSize - objLen;
      icmpObject := icmpObject + objLen;
    }
    NothingFound(here, mplsCount);
    count := 0;
  }

  lemma SubSlice(s: seq<Byte>, lo: nat, hi: nat, a: nat, b: nat)
    requires lo <= hi <= |s| && a <= b <= hi - lo
    ensures s[lo..hi][a..b] == s[lo + a..lo + b]
  {
    var x, y := s[lo..hi][a..b], s[lo + a..lo + b];
    assert forall i :: 0 <= i < b - a ==> x[i] == s[lo + a + i] == y[i];
  }

  // ----- round trip -----

  lemma {:induction false} LabelsOfEncoding(ls: seq<Label>, extra: seq<Byte>, room: nat)
    requires forall l :: l in ls ==> l.Valid()
    requires |extra| < LABEL_SIZE
    ensures LabelsIn(EncodeLabels(ls) + extra, room) == if |ls| <= room then ls else ls[..room]
  {
    var bytes := EncodeLabels(ls) + extra;
    if room > 0 && ls != [] {
      assert bytes[LABEL_SIZE..] == EncodeLabels(ls[1..]) + extra;
      var e := EncodeLabel(ls[0]);
      assert bytes[0] == e[0] && bytes[1] == e[1] && bytes[2] == e[2] && bytes[3] == e[3];
      DecodeEncode(ls[0]);
      LabelsOfEncoding(ls[1..], extra, room - 1);
      if |ls| <= room {
        assert [ls[0]] + ls[1..] == ls;
      } else {
        assert [ls[0]] + ls[1..][..room - 1] == ls[..room];
      }
    }
  }

  /** The header of an encoded object reads back as its length and class. */
  lemma ObjectReadsBack(o: Object, rest: seq<Byte>)
    requires Encodable(o)
    ensures var bytes := EncodeObject(o) + rest;
            var length := OBJECT_HEADER_SIZE + |o.payload|;
            && ObjectLength(bytes) == length
            && bytes[2] == o.classNum && bytes[3] == o.cType
            && bytes[OBJECT_HEADER_SIZE..length] == o.payload && bytes[length..] == rest
  {
    NetworkRoundTrip(OBJECT_HEADER_SIZE + |o.payload|);
  }

  lemma {:induction false} WalkReaches(before: seq<Object>, o: Object, rest: seq<Byte>)
    requires Encodable(o) && o.IsMpls()
    requires forall x :: x in before ==> Encodable(x) && !x.IsMpls()
    ensures FirstMplsPayload(EncodeObjects(before) + (EncodeObject(o) + rest)) == o.payload
    decreases |before|
  {
    hide EncodeObject, FirstMplsPayload;
    var bytes := EncodeObjects(before) + (EncodeObject(o) + rest);
    if before == [] {
      assert bytes == EncodeObject(o) + rest;
      ObjectReadsBack(o, rest);
    } else {
      var tail := EncodeObjects(before[1..]) + (EncodeObject(o) + rest);
      assert bytes == EncodeObject(before[0]) + tail;
      ObjectReadsBack(before[0], tail);
      WalkReaches(before[1..], o, rest);
    }
    NextObject(bytes);
  }

  /**
   * For every ICMP message with a version 2 extension, whatever well-formed objects precede the
   * first MPLS object and whatever follows it, the walk yields that object's labels, at most eight.
   */
  lemma ExtensionRoundTrip(head: seq<Byte>, version: Byte, reserved: Byte, sum: seq<Byte>,
                                              before: seq<Object>, ls: seq<Label>, rest: seq<Byte>)
    requires |head| == ICMP_HEADER_SIZE + ORIGINAL_DATAGRAM_SIZE && version / 16 == 2 && |sum| == 2
    requires forall x :: x in before ==> Encodable(x) && !x.IsMpls()
    requires forall l :: l in ls ==> l.Valid()
    requires Encodable(Object(1, 1, EncodeLabels(ls)))
    ensures LabelsOfMessage(head + ([version, reserved] + sum)
                            + (EncodeObjects(before) + (EncodeObject(Object(1, 1, EncodeLabels(ls))) + rest)),
                            MAX_MPLS_LABELS)
         == if |ls| <= MAX_MPLS_LABELS then ls else ls[..MAX_MPLS_LABELS]
  {
    var o := Object(1, 1, EncodeLabels(ls));
    var objects := EncodeObjects(before) + (EncodeObject(o) + rest);
    var header := [version, reserved] + sum;
    var message := head + header + objects;
    assert message[|head|] == header[0] == version;
    assert message[|head| + EXTENSION_HEADER_SIZE..] == objects;
    WalkReaches(before, o, rest);
    LabelsOfEncoding(ls, [], MAX_MPLS_LABELS);
    assert EncodeLabels(ls) + [] == EncodeLabels(ls);
  }
}
