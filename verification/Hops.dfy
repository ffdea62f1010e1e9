/**
 * The hop table of the front end (ui/net.c) as a state machine: sends, replies, end of transit and
 * resets, in any order.
 */
module Hops {
  import opened CInt
  import opened Mpls
  import opened RunningStats

  const MAX_HOST := 256
  const MIN_SEQUENCE := 33000
  const MAX_SEQUENCE := 65536
  const SAVED_PINGS := 200
  const MAX_PATH := 8
  const UNSPECIFIED := 0      // the unspecified address

  const EMPTY_SLOT := -2      // a saved slot with no transmission
  const NO_ANSWER := -1       // a transmission without a reply

  /** `struct nethost`; addresses are abstract numbers. */
  datatype Host = Host(
    addr: int, addrs: seq<int>, mpls: seq<Label>, mplss: seq<seq<Label>>, err: int,
    xmit: nat, stats: Stats, sent: bool, up: bool, transit: bool,
    saved: seq<int>, savedSeqOffset: int)
  {
    ghost predicate Valid() { |addrs| == |mplss| == MAX_PATH && |saved| == SAVED_PINGS }

    predicate Filled()
      requires |saved| == SAVED_PINGS
    {
      saved[SAVED_PINGS - 1] != EMPTY_SLOT
    }
  }

  datatype SequenceEntry = SequenceEntry(index: nat, transit: bool, savedSeq: int)

  datatype Table = Table(hosts: seq<Host>, sequences: seq<SequenceEntry>, nextSequence: int) {
    ghost predicate Valid() {
      && |hosts| == MAX_HOST && |sequences| == MAX_SEQUENCE && MIN_SEQUENCE <= nextSequence < MAX_SEQUENCE
      && (forall h :: 0 <= h < MAX_HOST ==> hosts[h].Valid())
      && (forall q :: 0 <= q < MAX_SEQUENCE ==> sequences[q].index < MAX_HOST)
    }
  }

  // ----- the saved window -----

  function Shifted(h: Host): Host
    requires |h.saved| == SAVED_PINGS
  {
    h.(saved := h.saved[1..] + [EMPTY_SLOT], savedSeqOffset := h.savedSeqOffset + 1)
  }

  function ShiftedAll(hosts: seq<Host>): (r: seq<Host>)
    requires forall h :: 0 <= h < |hosts| ==> |hosts[h].saved| == SAVED_PINGS
    ensures |r| == |hosts|
  {
    seq(|hosts|, h requires 0 <= h < |hosts| => Shifted(hosts[h]))
  }

  /** A transmission takes the newest slot; if that is taken, everybody's window moves. */
  function SaveXmit(hosts: seq<Host>, at: nat): (r: seq<Host>)
    requires at < |hosts| && forall h :: 0 <= h < |hosts| ==> |hosts[h].saved| == SAVED_PINGS
    ensures |r| == |hosts|
  {
    var moved := if hosts[at].Filled() then ShiftedAll(hosts) else hosts;
    moved[at := moved[at].(saved := moved[at].saved[SAVED_PINGS - 1 := NO_ANSWER])]
  }

  function SaveReturn(h: Host, number: int, ms: int): Host
    requires |h.saved| == SAVED_PINGS
  {
    var idx := number - h.savedSeqOffset;
    if idx < 0 || idx >= SAVED_PINGS then h else h.(saved := h.saved[idx := ms])
  }

  // ----- paths -----

  /** The first slot that holds the address or is free; MAX_PATH if there is none. */
  function PathSlot(addrs: seq<int>, addr: int): (i: nat)
    ensures i <= |addrs|
    ensures i < |addrs| ==> addrs[i] == addr || addrs[i] == UNSPECIFIED
    ensures forall j :: 0 <= j < i ==> addrs[j] != addr && addrs[j] != UNSPECIFIED
  {
    if addrs == [] || addrs[0] == addr || addrs[0] == UNSPECIFIED then 0 else 1 + PathSlot(addrs[1..], addr)
  }

  function RecordPath(h: Host, addr: int, mpls: seq<Label>): (r: Host)
    requires h.Valid()
    ensures r.Valid()
  {
    if h.addr == UNSPECIFIED then
      h.(addr := addr, mpls := mpls, addrs := h.addrs[0 := addr], mplss := h.mplss[0 := mpls])
    else
      var i := PathSlot(h.addrs, addr);
      if i < MAX_PATH && h.addrs[i] != addr then h.(addrs := h.addrs[i := addr], mplss := h.mplss[i := mpls]) else h
  }

  // ----- the events -----

  function NextNumber(next: int): int { if next + 1 >= MAX_SEQUENCE then MIN_SEQUENCE else next + 1 }

  /** A probe for hop `index` is sent. */
  function Sent(t: Table, index: nat): Table
    requires t.Valid() && index < MAX_HOST
  {
    var h := t.hosts[index];
    var h' := h.(xmit := h.xmit + 1, transit := true, up := h.up && !h.sent, sent := true);
    Table(SaveXmit(t.hosts[index := h'], index),
          t.sequences[t.nextSequence := SequenceEntry(index, true, h.xmit + 1)],
          NextNumber(t.nextSequence))
  }

  function HostReplied(h: Host, number: int, err: int, mpls: seq<Label>, addr: int, usec: nat): (r: Host)
    requires h.Valid()
    ensures r.Valid()
  {
    var h' := RecordPath(h.(err := err), addr, mpls);
    SaveReturn(h'.(stats := Replied(h'.stats, usec), sent := false, up := true, transit := false), number, usec)
  }

  predicate Expected(t: Table, seqNum: int)
    requires t.Valid()
  {
    0 <= seqNum < MAX_SEQUENCE && t.sequences[seqNum].transit
  }

  /** A reply arrives; one that was not expected changes nothing. */
  function Answered(t: Table, seqNum: int, err: int, mpls: seq<Label>, addr: int, usec: nat): Table
    requires t.Valid()
  {
    if !Expected(t, seqNum) then t
    else
      var e := t.sequences[seqNum];
      t.(hosts := t.hosts[e.index := HostReplied(t.hosts[e.index], e.savedSeq, err, mpls, addr, usec)],
         sequences := t.sequences[seqNum := e.(transit := false)])
  }

  function TransitEnded(t: Table): Table {
    t.(hosts := seq(|t.hosts|, h requires 0 <= h < |t.hosts| => t.hosts[h].(transit := false)))
  }

  const FRESH_HOST := Host(UNSPECIFIED, seq(MAX_PATH, _ => UNSPECIFIED), [], seq(MAX_PATH, _ => []), 0,
                           0, NO_STATS, false, false, false,
                           seq(SAVED_PINGS, _ => EMPTY_SLOT), 2 - SAVED_PINGS)

  function ResetTable(t: Table): Table {
    Table(seq(MAX_HOST, _ => FRESH_HOST),
          seq(|t.sequences|, q requires 0 <= q < |t.sequences| => t.sequences[q].(transit := false)),
          t.nextSequence)
  }

  datatype HopEvent =
    | Send(index: nat)
    | Reply(seqNum: int, err: int, mpls: seq<Label>, addr: int, usec: nat)
    | EndTransit
    | Reset

  predicate EventOk(e: HopEvent) { e.Send? ==> e.index < MAX_HOST }

  function Happened(t: Table, e: HopEvent): Table
    requires t.Valid() && EventOk(e)
  {
    match e
    case Send(index) => Sent(t, index)
    case Reply(seqNum, err, mpls, addr, usec) => Answered(t, seqNum, err, mpls, addr, usec)
    case EndTransit => TransitEnded(t)
    case Reset => ResetTable(t)
  }

  lemma StaysValid(t: Table, e: HopEvent)
    requires t.Valid() && EventOk(e)
    ensures Happened(t, e).Valid()
  {
    match e
    case Send(index) => XmitStaysValid(t, index);
    case Reply(seqNum, err, mpls, addr, usec) => {}
    case EndTransit => {}
    case Reset => {}
  }

  lemma XmitStaysValid(t: Table, index: nat)
    requires t.Valid() && index < MAX_HOST
    ensures Sent(t, index).Valid()
  {}

  // ----- derived figures -----

  /** Probes lost, not counting one in transit. */
  function Drop(h: Host): int { h.xmit - (if h.transit then 1 else 0) - h.stats.returned }

  /** Loss in thousandths of a percent: the exact ratio, truncated. */
  function Loss(h: Host): int
    requires h.transit ==> h.xmit > 0
  {
    var settled: nat := if h.transit then h.xmit - 1 else h.xmit;
    if settled == 0 then 0 else TruncDiv(100_000 * (settled - h.stats.returned), settled)
  }
}
