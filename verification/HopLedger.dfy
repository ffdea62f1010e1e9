/**
 * An independent account of what was sent and what came back, and the proof that the hop table of
 * ui/net.c agrees with it in every run: counters, statistics and the sliding window.
 */
module HopLedger {
  import opened CInt
  import opened Mpls
  import opened Seqs
  import opened RunningStats
  import opened Hops

  /** Transmission number `number` (from 1) to a hop. */
  datatype Flight = Flight(host: nat, number: nat)

  /**
   * Per hop: the round trip time of every transmission, or NO_ANSWER, the round each was sent in, and
   * the times of the replies in order of arrival.  A round begins when a hop is probed a second time;
   * `round` counts those before the current one, `probed` are the hops probed in it, and `skipped`
   * counts the earlier rounds a hop was left out of.
   */
  datatype Ledger = Ledger(
    next: int, flying: map<int, Flight>, times: seq<seq<int>>, rounds: seq<seq<int>>, arrivals: seq<seq<nat>>,
    round: nat, probed: set<nat>, skipped: seq<nat>)

  function EmptyLedger(next: int): Ledger {
    Ledger(next, map[], seq(MAX_HOST, _ => []), seq(MAX_HOST, _ => []), seq(MAX_HOST, _ => []),
           0, {}, seq(MAX_HOST, _ => 0))
  }

  ghost predicate Shaped(l: Ledger) { |l.times| == |l.rounds| == |l.arrivals| == |l.skipped| == MAX_HOST }

  predicate Known(l: Ledger, f: Flight)
    requires |l.times| == MAX_HOST
  {
    f.host < MAX_HOST && 1 <= f.number <= |l.times[f.host]|
  }

  function Noted(l: Ledger, e: HopEvent): (r: Ledger)
    requires |l.times| == |l.rounds| == |l.arrivals| == |l.skipped| == MAX_HOST && EventOk(e)
    ensures |r.times| == |r.rounds| == |r.arrivals| == |r.skipped| == MAX_HOST
  {
    match e
    case Send(h) =>
      var newRound := h in l.probed;
      var round := if newRound then l.round + 1 else l.round;
      Ledger(NextNumber(l.next),
             l.flying[l.next := Flight(h, |l.times[h]| + 1)],
             l.times[h := l.times[h] + [NO_ANSWER]],
             l.rounds[h := l.rounds[h] + [round]],
             l.arrivals,
             round,
             if newRound then {h} else l.probed + {h},
             if newRound then seq(MAX_HOST, g requires 0 <= g < MAX_HOST => l.skipped[g] + if g in l.probed then 0 else 1)
             else l.skipped)
    case Reply(q, _, _, _, usec) =>
      if q !in l.flying || !Known(l, l.flying[q]) then l
      else
        var f := l.flying[q];
        l.(flying := l.flying - {q},
           times := l.times[f.host := l.times[f.host][f.number - 1 := usec]],
           arrivals := l.arrivals[f.host := l.arrivals[f.host] + [usec]])
    case EndTransit => l
    case Reset => EmptyLedger(l.next)
  }

  // ----- the table and the ledger agree -----

  /** A sequence entry is in transit exactly for a flight, with its hop and number. */
  ghost predicate FlightsAgree(t: Table, l: Ledger)
    requires t.Valid() && Shaped(l)
  {
    && t.nextSequence == l.next
    && (forall q :: q in l.flying ==> 0 <= q < MAX_SEQUENCE)
    && (forall q :: 0 <= q < MAX_SEQUENCE ==> (t.sequences[q].transit <==> q in l.flying))
    && (forall q :: q in l.flying ==>
          t.sequences[q].index == l.flying[q].host && t.sequences[q].savedSeq == l.flying[q].number)
  }

  /** Flights are distinct unanswered transmissions. */
  ghost predicate FlightsOpen(l: Ledger)
    requires Shaped(l)
  {
    && (forall q :: q in l.flying ==>
          var f := l.flying[q];
          f.host < MAX_HOST && 1 <= f.number <= |l.times[f.host]| && l.times[f.host][f.number - 1] == NO_ANSWER)
    && (forall p, q :: p in l.flying && q in l.flying && l.flying[p] == l.flying[q] ==> p == q)
  }

  function Unanswered(times: seq<int>): set<nat> { set i: nat | i < |times| && times[i] == NO_ANSWER }

  ghost predicate CountersAgree(h: Host, times: seq<int>, arrivals: seq<nat>) {
    && h.xmit == |times|
    && h.stats == After(arrivals)
    && |Unanswered(times)| + |arrivals| == |times|
    && (forall i :: 0 <= i < |times| ==> times[i] >= NO_ANSWER)
    && (h.transit ==> |arrivals| < |times|)
  }

  /** Where the window stands: it moves with the rounds, the transmissions with the rounds that had one. */
  ghost predicate OffsetAgrees(h: Host, round: nat, probed: bool, skipped: nat)
    requires h.Valid()
  {
    && (h.Filled() <==> probed)
    && h.savedSeqOffset == round - (SAVED_PINGS - 2)
    && h.xmit == round - skipped + if probed then 1 else 0
  }

  /**
   * What slot i shows.  The newest slot belongs to the current round, the one before to the round
   * before; a slot is marked by the transmission of its round, but a reply to transmission number n
   * goes where round number n - 1 stands.
   */
  function Slot(times: seq<int>, rounds: seq<int>, round: nat, i: nat): int {
    var r := round - (SAVED_PINGS - 1) + i;
    if 0 <= r < |times| && times[r] != NO_ANSWER then times[r]
    else if r in rounds then NO_ANSWER
    else EMPTY_SLOT
  }

  ghost predicate WindowAgrees(h: Host, times: seq<int>, rounds: seq<int>, round: nat)
    requires h.Valid()
  {
    forall i :: 0 <= i < SAVED_PINGS ==> h.saved[i] == Slot(times, rounds, round, i)
  }

  /** Until a hop is skipped, its transmissions keep step with the rounds. */
  ghost predicate RoundsAgree(times: seq<int>, rounds: seq<int>, round: nat, probed: bool, skipped: nat) {
    && |rounds| == |times|
    && (forall k :: 0 <= k < |rounds| ==> 0 <= rounds[k] <= round)
    && (probed <==> round in rounds)
    && (skipped == 0 ==> forall k :: 0 <= k < |rounds| ==> rounds[k] == k)
  }

  ghost predicate HostAgrees(h: Host, times: seq<int>, rounds: seq<int>, arrivals: seq<nat>,
                             round: nat, probed: bool, skipped: nat)
    requires h.Valid()
  {
    && CountersAgree(h, times, arrivals)
    && OffsetAgrees(h, round, probed, skipped)
    && RoundsAgree(times, rounds, round, probed, skipped)
    && WindowAgrees(h, times, rounds, round)
  }

  ghost predicate Agree(t: Table, l: Ledger) {
    && t.Valid() && Shaped(l) && FlightsAgree(t, l) && FlightsOpen(l)
    && forall h :: 0 <= h < MAX_HOST ==> HostAgrees(t.hosts[h], l.times[h], l.rounds[h], l.arrivals[h], l.round, h in l.probed, l.skipped[h])
  }

  // ----- one hop at a time -----

  lemma ShiftAgrees(h: Host, times: seq<int>, rounds: seq<int>, arrivals: seq<nat>,
                                       round: nat, probed: bool, skipped: nat)
    requires h.Valid() && HostAgrees(h, times, rounds, arrivals, round, probed, skipped)
    ensures Shifted(h).Valid()
    ensures HostAgrees(Shifted(h), times, rounds, arrivals, round + 1, false, skipped + if probed then 0 else 1)
  {
    hide After, Unanswered;
    var r := Shifted(h);
    forall i | 0 <= i < SAVED_PINGS
      ensures r.saved[i] == Slot(times, rounds, round + 1, i)
    {
      if i < SAVED_PINGS - 1 {
        assert r.saved[i] == h.saved[i + 1];
        assert Slot(times, rounds, round + 1, i) == Slot(times, rounds, round, i + 1);
      }
    }
  }

  lemma UnansweredMore(times: seq<int>)
    ensures |Unanswered(times + [NO_ANSWER])| == |Unanswered(times)| + 1
  {
    var more := Unanswered(times + [NO_ANSWER]);
    forall i: nat
      ensures i in more <==> i in Unanswered(times) || i == |times|
    {}
    assert more == Unanswered(times) + {|times|};
  }

  lemma UnansweredLess(times: seq<int>, k: nat, t: nat)
    requires k < |times| && times[k] == NO_ANSWER
    ensures |Unanswered(times[k := t])| == |Unanswered(times)| - 1
  {
    assert k in Unanswered(times);
    assert Unanswered(times[k := t]) == Unanswered(times) - {k};
  }

  /** The hop's own transmission, once its newest slot is free. */
  function Transmitted(h: Host): Host
    requires |h.saved| == SAVED_PINGS
  {
    h.(xmit := h.xmit + 1, transit := true, up := h.up && !h.sent, sent := true,
       saved := h.saved[SAVED_PINGS - 1 := NO_ANSWER])
  }

  lemma TransmitAgrees(h: Host, times: seq<int>, rounds: seq<int>, arrivals: seq<nat>,
                                          round: nat, skipped: nat)
    requires h.Valid() && HostAgrees(h, times, rounds, arrivals, round, false, skipped)
    ensures Transmitted(h).Valid()
    ensures HostAgrees(Transmitted(h), times + [NO_ANSWER], rounds + [round], arrivals, round, true, skipped)
  {
    hide After, Unanswered;
    UnansweredMore(times);
    var r := Transmitted(h);
    forall i | 0 <= i < SAVED_PINGS
      ensures r.saved[i] == Slot(times + [NO_ANSWER], rounds + [round], round, i)
    {
      assert h.saved[i] == Slot(times, rounds, round, i);
    }
  }

  lemma ReplyAgrees(h: Host, times: seq<int>, rounds: seq<int>, arrivals: seq<nat>,
                                       round: nat, probed: bool, skipped: nat,
                                       number: nat, err: int, mpls: seq<Label>, addr: int, usec: nat)
    requires h.Valid() && HostAgrees(h, times, rounds, arrivals, round, probed, skipped)
    requires 1 <= number <= |times| && times[number - 1] == NO_ANSWER
    ensures HostAgrees(HostReplied(h, number, err, mpls, addr, usec),
                       times[number - 1 := usec], rounds, arrivals + [usec], round, probed, skipped)
  {
    hide After, Unanswered, Replied, PathSlot;
    UnansweredLess(times, number - 1, usec);
    AfterOneMore(arrivals, usec);
    assert |Unanswered(times)| > 0 by { SomeUnanswered(times, number - 1); }
    var r := HostReplied(h, number, err, mpls, addr, usec);
    forall i | 0 <= i < SAVED_PINGS
      ensures r.saved[i] == Slot(times[number - 1 := usec], rounds, round, i)
    {
      assert h.saved[i] == Slot(times, rounds, round, i);
    }
  }

  lemma SomeUnanswered(times: seq<int>, k: nat)
    requires k < |times| && times[k] == NO_ANSWER
    ensures |Unanswered(times)| > 0
  {
    assert k in Unanswered(times);
  }

  lemma AfterOneMore(arrivals: seq<nat>, usec: nat)
    ensures After(arrivals + [usec]) == Replied(After(arrivals), usec)
  {
    assert (arrivals + [usec])[..|arrivals|] == arrivals;
  }

  // ----- whole events -----

  lemma SentAgrees(t: Table, l: Ledger, index: nat)
    requires Agree(t, l) && index < MAX_HOST
    ensures Agree(Sent(t, index), Noted(l, Send(index)))
  {
    hide HostAgrees, FlightsAgree, FlightsOpen, Shifted, Transmitted;
    StaysValid(t, Send(index));
    var r, m := Sent(t, index), Noted(l, Send(index));
    SentFlights(t, l, index);
    forall g | 0 <= g < MAX_HOST
      ensures HostAgrees(r.hosts[g], m.times[g], m.rounds[g], m.arrivals[g], m.round, g in m.probed, m.skipped[g])
    {
      SentHost(t, l, index, g);
    }
  }

  /** What a send does to hop g's record. */
  lemma SentHost(t: Table, l: Ledger, index: nat, g: nat)
    requires Agree(t, l) && index < MAX_HOST && g < MAX_HOST
    ensures Sent(t, index).hosts[g].Valid()
    ensures var m := Noted(l, Send(index));
            HostAgrees(Sent(t, index).hosts[g], m.times[g], m.rounds[g], m.arrivals[g], m.round, g in m.probed, m.skipped[g])
  {
    hide CountersAgree, WindowAgrees, FlightsAgree, FlightsOpen, Shifted, Transmitted;
    var h := t.hosts[g];
    var newRound := index in l.probed;
    assert HostAgrees(t.hosts[index], l.times[index], l.rounds[index], l.arrivals[index], l.round, newRound, l.skipped[index]);
    assert t.hosts[index].Filled() <==> newRound;
    assert HostAgrees(h, l.times[g], l.rounds[g], l.arrivals[g], l.round, g in l.probed, l.skipped[g]);
    SentHostIs(t, index, g);
    if newRound {
      ShiftAgrees(h, l.times[g], l.rounds[g], l.arrivals[g], l.round, g in l.probed, l.skipped[g]);
      if g == index {
        TransmitAgrees(Shifted(h), l.times[g], l.rounds[g], l.arrivals[g], l.round + 1, l.skipped[g]);
      }
    } else if g == index {
      TransmitAgrees(h, l.times[g], l.rounds[g], l.arrivals[g], l.round, l.skipped[g]);
    }
  }

  lemma SentHostIs(t: Table, index: nat, g: nat)
    requires t.Valid() && index < MAX_HOST && g < MAX_HOST
    ensures var base := if t.hosts[index].Filled() then Shifted(t.hosts[g]) else t.hosts[g];
            Sent(t, index).hosts[g] == if g == index then Transmitted(base) else base
  {}

  lemma SentFlights(t: Table, l: Ledger, index: nat)
    requires Agree(t, l) && index < MAX_HOST && Sent(t, index).Valid()
    ensures FlightsAgree(Sent(t, index), Noted(l, Send(index)))
    ensures FlightsOpen(Noted(l, Send(index)))
  {
    hide CountersAgree, WindowAgrees, OffsetAgrees, SaveXmit, HostAgrees;
    assert t.hosts[index].xmit == |l.times[index]| by {
      XmitCounts(t, l, index);
    }
  }

  lemma XmitCounts(t: Table, l: Ledger, h: nat)
    requires Agree(t, l) && h < MAX_HOST
    ensures t.hosts[h].xmit == |l.times[h]|
  {
    assert HostAgrees(t.hosts[h], l.times[h], l.rounds[h], l.arrivals[h], l.round, h in l.probed, l.skipped[h]);
  }

  lemma AnsweredAgrees(t: Table, l: Ledger, e: HopEvent)
    requires Agree(t, l) && e.Reply?
    ensures Agree(Happened(t, e), Noted(l, e))
  {
    hide HostAgrees, HostReplied;
    StaysValid(t, e);
    if e.seqNum in l.flying {
      var f := l.flying[e.seqNum];
      var h := t.hosts[f.host];
      assert HostAgrees(h, l.times[f.host], l.rounds[f.host], l.arrivals[f.host], l.round, f.host in l.probed, l.skipped[f.host]);
      ReplyAgrees(h, l.times[f.host], l.rounds[f.host], l.arrivals[f.host], l.round, f.host in l.probed, l.skipped[f.host],
                  f.number, e.err, e.mpls, e.addr, e.usec);
    }
  }

  lemma TransitEndedAgrees(t: Table, l: Ledger)
    requires Agree(t, l)
    ensures Agree(TransitEnded(t), l)
  {
    hide WindowAgrees, OffsetAgrees, After, Unanswered;
    StaysValid(t, EndTransit);
    var r := TransitEnded(t);
    forall g | 0 <= g < MAX_HOST
      ensures HostAgrees(r.hosts[g], l.times[g], l.rounds[g], l.arrivals[g], l.round, g in l.probed, l.skipped[g])
    {
      assert HostAgrees(t.hosts[g], l.times[g], l.rounds[g], l.arrivals[g], l.round, g in l.probed, l.skipped[g]);
      TransitCleared(t.hosts[g], l.times[g], l.rounds[g], l.arrivals[g], l.round, g in l.probed, l.skipped[g]);
    }
  }

  lemma TransitCleared(h: Host, times: seq<int>, rounds: seq<int>, arrivals: seq<nat>, round: nat, probed: bool, skipped: nat)
    requires h.Valid() && HostAgrees(h, times, rounds, arrivals, round, probed, skipped)
    ensures HostAgrees(h.(transit := false), times, rounds, arrivals, round, probed, skipped)
  {
    hide After, Unanswered;
  }

  lemma FreshHostAgrees()
    ensures FRESH_HOST.Valid() && HostAgrees(FRESH_HOST, [], [], [], 0, false, 0)
  {
    assert Unanswered([]) == {};
    assert forall i :: 0 <= i < SAVED_PINGS ==> FRESH_HOST.saved[i] == EMPTY_SLOT;
  }

  lemma ResetAgrees(t: Table, next: int)
    requires |t.sequences| == MAX_SEQUENCE && t.nextSequence == next && MIN_SEQUENCE <= next < MAX_SEQUENCE
    requires forall q :: 0 <= q < MAX_SEQUENCE ==> t.sequences[q].index < MAX_HOST
    ensures Agree(ResetTable(t), EmptyLedger(next))
  {
    hide HostAgrees, FRESH_HOST;
    FreshHostAgrees();
  }

  /** Every event keeps the hop table and the ledger in agreement. */
  lemma EventAgrees(t: Table, l: Ledger, e: HopEvent)
    requires Agree(t, l) && EventOk(e)
    ensures Agree(Happened(t, e), Noted(l, e))
  {
    match e
    case Send(index) => SentAgrees(t, l, index);
    case Reply(seqNum, err, mpls, addr, usec) => AnsweredAgrees(t, l, e);
    case EndTransit => TransitEndedAgrees(t, l);
    case Reset => ResetAgrees(t, l.next);
  }

  // ----- whole runs -----

  predicate EventsOk(es: seq<HopEvent>) { forall i :: 0 <= i < |es| ==> EventOk(es[i]) }

  function FirstTable(): Table {
    Table(seq(MAX_HOST, _ => FRESH_HOST), seq(MAX_SEQUENCE, _ => SequenceEntry(0, false, 0)), MIN_SEQUENCE)
  }

  function TableAfter(es: seq<HopEvent>): (t: Table)
    requires EventsOk(es)
    ensures t.Valid()
  {
    if es == [] then FirstTable()
    else
      var before := TableAfter(es[..|es| - 1]);
      StaysValid(before, es[|es| - 1]);
      Happened(before, es[|es| - 1])
  }

  function LedgerAfter(es: seq<HopEvent>): (l: Ledger)
    requires EventsOk(es)
    ensures |l.times| == |l.rounds| == |l.arrivals| == |l.skipped| == MAX_HOST
  {
    if es == [] then EmptyLedger(MIN_SEQUENCE) else Noted(LedgerAfter(es[..|es| - 1]), es[|es| - 1])
  }

  /** In every run of sends, replies, duplicates, late replies, wrap-arounds and resets. */
  lemma {:induction false} TableAgreesWithLedger(es: seq<HopEvent>)
    requires EventsOk(es)
    ensures Agree(TableAfter(es), LedgerAfter(es))
    decreases |es|
  {
    hide Agree, Happened, Noted;
    if es == [] {
      FirstAgrees();
    } else {
      TableAgreesWithLedger(es[..|es| - 1]);
      EventAgrees(TableAfter(es[..|es| - 1]), LedgerAfter(es[..|es| - 1]), es[|es| - 1]);
    }
  }

  lemma FirstAgrees()
    ensures Agree(FirstTable(), EmptyLedger(MIN_SEQUENCE))
  {
    hide HostAgrees, FRESH_HOST;
    FreshHostAgrees();
  }

  /** The sequence numbers in transit for a hop. */
  function InTransit(t: Table, h: nat): set<int> {
    set q: int | 0 <= q < |t.sequences| && t.sequences[q].transit && t.sequences[q].index == h
  }

  lemma InTransitAreUnanswered(t: Table, l: Ledger, h: nat)
    requires Agree(t, l) && h < MAX_HOST
    ensures |InTransit(t, h)| <= |Unanswered(l.times[h])|
  {
    hide HostAgrees;
    var s := InTransit(t, h);
    var f: map<int, nat> := map q | q in s :: l.flying[q].number - 1;
    InjectionIsSmaller(s, f, Unanswered(l.times[h]));
  }

  /**
   * Conservation: in every run, what came back and what is in transit never exceed what was sent,
   * so no drop count is negative and every loss lies between 0 and 100 percent.
   */
  lemma NothingIsOvercounted(es: seq<HopEvent>, h: nat)
    requires EventsOk(es) && h < MAX_HOST
    ensures var t, host := TableAfter(es), TableAfter(es).hosts[h];
            && host.stats.returned + |InTransit(t, h)| <= host.xmit
            && (host.transit ==> host.stats.returned < host.xmit)
            && Drop(host) >= 0
            && 0 <= Loss(host) <= 100_000
  {
    hide TableAfter, LedgerAfter;
    TableAgreesWithLedger(es);
    var t, l := TableAfter(es), LedgerAfter(es);
    var host := t.hosts[h];
    InTransitAreUnanswered(t, l, h);
    assert HostAgrees(host, l.times[h], l.rounds[h], l.arrivals[h], l.round, h in l.probed, l.skipped[h]);
    ReturnedCounts(l.arrivals[h]);
    var settled := if host.transit then host.xmit - 1 else host.xmit;
    if settled > 0 {
      RatioBounded(settled - host.stats.returned, settled);
    }
  }

  lemma {:induction false} ReturnedCounts(arrivals: seq<nat>)
    ensures After(arrivals).returned == |arrivals|
    decreases |arrivals|
  {
    hide NextMean;
    if arrivals != [] {
      ReturnedCounts(arrivals[..|arrivals| - 1]);
    }
  }

  lemma RatioBounded(part: nat, whole: nat)
    requires part <= whole && whole > 0
    ensures 0 <= 100_000 * part / whole <= 100_000
  {
    Quotient(100_000 * part, whole);
    Scale(100_000, part, whole);
    Squeezed(whole, 0, 100_000 * part / whole, 100_000, 100_000 * part);
  }

  /**
   * Drop and loss are those of the unanswered transmissions, leaving out one in transit: the loss is
   * their share in thousandths of a percent, rounded down.
   */
  lemma LossIsOfUnanswered(es: seq<HopEvent>, h: nat)
    requires EventsOk(es) && h < MAX_HOST
    ensures var host, times := TableAfter(es).hosts[h], LedgerAfter(es).times[h];
            var waiting := if host.transit then 1 else 0;
            var lost, settled := |Unanswered(times)| - waiting, |times| - waiting;
            && (host.transit ==> host.xmit > 0) && Drop(host) == lost && settled >= 0
            && (settled == 0 ==> Loss(host) == 0)
            && Loss(host) * settled <= 100_000 * lost < (Loss(host) + 1) * settled + (if settled == 0 then 1 else 0)
  {
    hide TableAfter, LedgerAfter, After;
    FiguresAreOfArrivals(es, h);
    NothingIsOvercounted(es, h);
    var host, times := TableAfter(es).hosts[h], LedgerAfter(es).times[h];
    ReturnedCounts(LedgerAfter(es).arrivals[h]);
    var waiting := if host.transit then 1 else 0;
    var lost, settled := |Unanswered(times)| - waiting, |times| - waiting;
    if settled > 0 {
      Quotient(100_000 * lost, settled);
      assert settled * Loss(host) == Loss(host) * settled;
      assert settled * Loss(host) + settled == (Loss(host) + 1) * settled;
    }
  }

  /** The counters and figures of a hop are those of its replies in order of arrival. */
  lemma FiguresAreOfArrivals(es: seq<HopEvent>, h: nat)
    requires EventsOk(es) && h < MAX_HOST
    ensures var host, l := TableAfter(es).hosts[h], LedgerAfter(es);
            && host.xmit == |l.times[h]|
            && host.stats == After(l.arrivals[h])
            && |l.arrivals[h]| == |l.times[h]| - |Unanswered(l.times[h])|
  {
    hide TableAfter, LedgerAfter;
    TableAgreesWithLedger(es);
    var l := LedgerAfter(es);
    assert HostAgrees(TableAfter(es).hosts[h], l.times[h], l.rounds[h], l.arrivals[h], l.round, h in l.probed, l.skipped[h]);
  }

  /** Every slot of every hop in every run, skipped or not. */
  lemma SlotsShow(es: seq<HopEvent>, h: nat, i: nat)
    requires EventsOk(es) && h < MAX_HOST && i < SAVED_PINGS
    ensures var l := LedgerAfter(es);
            TableAfter(es).hosts[h].saved[i] == Slot(l.times[h], l.rounds[h], l.round, i)
  {
    hide TableAfter, LedgerAfter;
    TableAgreesWithLedger(es);
    var l := LedgerAfter(es);
    assert HostAgrees(TableAfter(es).hosts[h], l.times[h], l.rounds[h], l.arrivals[h], l.round, h in l.probed, l.skipped[h]);
  }

  /** Where a hop stands among the rounds. */
  lemma RoundsKnown(es: seq<HopEvent>, h: nat)
    requires EventsOk(es) && h < MAX_HOST
    ensures var host, l := TableAfter(es).hosts[h], LedgerAfter(es);
            && host.xmit == |l.times[h]| == |l.rounds[h]|
            && host.savedSeqOffset == l.round - (SAVED_PINGS - 2)
            && host.xmit == l.round - l.skipped[h] + (if h in l.probed then 1 else 0)
            && (h in l.probed <==> l.round in l.rounds[h])
            && (l.skipped[h] == 0 ==> forall k :: 0 <= k < |l.rounds[h]| ==> l.rounds[h][k] == k)
  {
    hide TableAfter, LedgerAfter;
    TableAgreesWithLedger(es);
    var l := LedgerAfter(es);
    assert HostAgrees(TableAfter(es).hosts[h], l.times[h], l.rounds[h], l.arrivals[h], l.round, h in l.probed, l.skipped[h]);
  }

  /**
   * The sliding window: for a hop never skipped in a round since the reset, the slot of each of
   * its latest transmissions shows that transmission's round trip time, or NO_ANSWER.
   */
  lemma WindowShowsHistory(es: seq<HopEvent>, h: nat, n: nat)
    requires EventsOk(es) && h < MAX_HOST && LedgerAfter(es).skipped[h] == 0
    requires var newest := if h in LedgerAfter(es).probed then SAVED_PINGS - 1 else SAVED_PINGS - 2;
             1 <= n <= TableAfter(es).hosts[h].xmit <= n + newest
    ensures var host, l := TableAfter(es).hosts[h], LedgerAfter(es);
            var newest := if h in l.probed then SAVED_PINGS - 1 else SAVED_PINGS - 2;
            && n <= |l.times[h]|
            && host.savedSeqOffset == host.xmit - newest
            && host.saved[newest - (host.xmit - n)] == l.times[h][n - 1]
  {
    hide TableAfter, LedgerAfter;
    RoundsKnown(es, h);
    var l, host := LedgerAfter(es), TableAfter(es).hosts[h];
    var i := (if h in l.probed then SAVED_PINGS - 1 else SAVED_PINGS - 2) - (host.xmit - n);
    SlotsShow(es, h, i);
    assert l.rounds[h][n - 1] == n - 1;
  }

  /**
   * Exactly when the newest slot tells the truth: for a hop probed in this round it shows the hop's
   * newest transmission if and only if the hop was never skipped or that transmission has no answer.
   */
  lemma NewestSlotIff(es: seq<HopEvent>, h: nat)
    requires EventsOk(es) && h < MAX_HOST && h in LedgerAfter(es).probed
    ensures var host, l := TableAfter(es).hosts[h], LedgerAfter(es);
            && host.xmit == |l.times[h]| > 0
            && (host.saved[SAVED_PINGS - 1] == l.times[h][host.xmit - 1]
                <==> l.skipped[h] == 0 || l.times[h][host.xmit - 1] == NO_ANSWER)
  {
    hide TableAfter, LedgerAfter;
    RoundsKnown(es, h);
    SlotsShow(es, h, SAVED_PINGS - 1);
  }

  /**
   * The reply to a hop's newest transmission lands `skipped` slots before the newest one, or nowhere;
   * so it reaches the newest slot if and only if the hop was never skipped.
   */
  lemma NewestReplyLands(es: seq<HopEvent>, e: HopEvent, h: nat)
    requires EventsOk(es) && h < MAX_HOST && h in LedgerAfter(es).probed && e.Reply?
    requires var l := LedgerAfter(es);
             e.seqNum in l.flying && l.flying[e.seqNum] == Flight(h, |l.times[h]|)
    ensures var before, after, skipped := TableAfter(es).hosts[h].saved, Happened(TableAfter(es), e).hosts[h].saved,
                                          LedgerAfter(es).skipped[h];
            && |before| == |after| == SAVED_PINGS
            && after == (if skipped < SAVED_PINGS then before[SAVED_PINGS - 1 - skipped := e.usec] else before)
            && (after[SAVED_PINGS - 1] == e.usec <==> skipped == 0)
  {
    hide TableAfter, LedgerAfter, Replied, HostAgrees;
    TableAgreesWithLedger(es);
    RoundsKnown(es, h);
    SlotsShow(es, h, SAVED_PINGS - 1);
    assert LedgerAfter(es).times[h][|LedgerAfter(es).times[h]| - 1] == NO_ANSWER;
  }

  lemma OneMoreNoted(log: seq<HopEvent>, e: HopEvent)
    requires EventsOk(log) && EventOk(e)
    ensures EventsOk(log + [e]) && LedgerAfter(log + [e]) == Noted(LedgerAfter(log), e)
    ensures TableAfter(log + [e]) == Happened(TableAfter(log), e)
  {
    hide Noted, Happened;
    assert (log + [e])[..|log|] == log;
  }

  /**
   * A run in which the newest slot is wrong: hop 1 is left out of one round, and the reply to its
   * second transmission appears one slot too early while the newest slot still shows no answer.
   */
  lemma SkippedHopExample(usec: nat)
    ensures var es := [Send(0), Send(1), Send(0), Send(0), Send(1), Reply(MIN_SEQUENCE + 4, 0, [], 1, usec)];
            && EventsOk(es) && LedgerAfter(es).skipped[1] == 1 && LedgerAfter(es).times[1] == [NO_ANSWER, usec]
            && TableAfter(es).hosts[1].saved[SAVED_PINGS - 1] == NO_ANSWER
            && TableAfter(es).hosts[1].saved[SAVED_PINGS - 2] == usec
  {
    hide TableAfter, LedgerAfter, Happened;
    var e := Reply(MIN_SEQUENCE + 4, 0, [], 1, usec);
    var es := [Send(0), Send(1), Send(0), Send(0), Send(1), e];
    EmptyLog();
    OneMoreNoted([], Send(0));
    var e1 := [] + [Send(0)];
    OneMoreNoted(e1, Send(1));
    var e2 := e1 + [Send(1)];
    OneMoreNoted(e2, Send(0));
    var e3 := e2 + [Send(0)];
    OneMoreNoted(e3, Send(0));
    var e4 := e3 + [Send(0)];
    OneMoreNoted(e4, Send(1));
    var e5 := e4 + [Send(1)];
    OneMoreNoted(e5, e);
    assert e5 + [e] == es;
    var l2, l4, l5, l := LedgerAfter(e2), LedgerAfter(e4), LedgerAfter(e5), LedgerAfter(es);
    assert l2.probed == {0, 1} && l2.times[1] == [NO_ANSWER] && l2.rounds[1] == [0] && l2.round == 0;
    assert l4.round == 2 && l4.probed == {0} && l4.skipped[1] == 1 && l4.next == MIN_SEQUENCE + 4;
    assert l5.times[1] == [NO_ANSWER, NO_ANSWER] && l5.rounds[1] == [0, 2] && l5.skipped[1] == 1 && l5.round == 2;
    assert l.times[1] == [NO_ANSWER, usec] && l.rounds[1] == [0, 2] && l.round == 2;
    SlotsShow(es, 1, SAVED_PINGS - 1);
    SlotsShow(es, 1, SAVED_PINGS - 2);
  }

  lemma EmptyLog()
    ensures EventsOk([]) && LedgerAfter([]) == EmptyLedger(MIN_SEQUENCE)
  {}

  /** A reply to a transmission that has left the window changes no slot. */
  lemma LateRepliesLeaveTheWindow(t: Table, e: HopEvent, h: nat)
    requires t.Valid() && e.Reply? && Expected(t, e.seqNum) && h < MAX_HOST
    requires t.sequences[e.seqNum].savedSeq < t.hosts[t.sequences[e.seqNum].index].savedSeqOffset
    ensures Happened(t, e).hosts[h].saved == t.hosts[h].saved
  {
    hide Replied;
  }
}
