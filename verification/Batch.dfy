/**
 * Batch scheduling (net_send_batch of ui/net.c): one hop per call, hop after hop, until the round
 * ends.  Replies may arrive, and the table may be reset, between any two calls.
 */
module Batch {
  import opened Mpls
  import opened RunningStats
  import opened Hops
  import opened HopLedger
  import opened HopTable
  import CommandLine
  import opened CmdParse
  import opened CInt
  import opened Options
  import HopPaths

  /** The fields of `struct mtr_ctl` that schedule probes; addresses are abstract numbers. */
  datatype Control = Control(fstTtl: nat, maxTtl: nat, maxUnknown: int, remote: int) {
    predicate Valid() { 1 <= fstTtl <= maxTtl <= MAX_HOST }
  }

  /** The count of unknown hops from `i` up to `at`; the target among them forces a large count. */
  function UnknownHops(c: Control, hosts: seq<Host>, from: nat, at: nat): int
    requires from <= at <= |hosts|
  {
    if from == at then 0
    else
      var before := UnknownHops(c, hosts, from, at - 1);
      var counted := if hosts[at - 1].addr == UNSPECIFIED then before + 1 else before;
      if hosts[at - 1].addr == c.remote then MAX_HOST else counted
  }

  /** Whether the round ends with the probe to hop `at`. */
  function RoundEnds(c: Control, hosts: seq<Host>, at: nat): bool
    requires c.Valid() && c.fstTtl - 1 <= at < |hosts|
  {
    hosts[at].addr == c.remote
    || UnknownHops(c, hosts, c.fstTtl - 1, at) > c.maxUnknown
    || at >= c.maxTtl - 1
  }

  function Silent(hosts: seq<Host>, from: nat, at: nat): set<nat>
    requires at <= |hosts|
  {
    set i: nat | from <= i < at && hosts[i].addr == UNSPECIFIED
  }

  ghost predicate Reached(c: Control, hosts: seq<Host>, from: nat, at: nat)
    requires at <= |hosts|
  {
    exists i :: from <= i < at && hosts[i].addr == c.remote
  }

  /** The last hop before `at` that is the target. */
  ghost predicate LastReached(c: Control, hosts: seq<Host>, at: nat, i: nat)
    requires at <= |hosts|
  {
    c.fstTtl - 1 <= i < at && hosts[i].addr == c.remote && !Reached(c, hosts, i + 1, at)
  }

  /** What net_send_batch counts: the silent hops since the last target, on top of MAX_HOST if there is one. */
  ghost predicate Counts(c: Control, hosts: seq<Host>, at: nat, count: int)
    requires c.Valid() && at <= |hosts|
  {
    && (!Reached(c, hosts, c.fstTtl - 1, at) ==> count == |Silent(hosts, c.fstTtl - 1, at)|)
    && (forall i: nat :: LastReached(c, hosts, at, i) ==> count == MAX_HOST + |Silent(hosts, i + 1, at)|)
  }

  lemma SilentOneMore(hosts: seq<Host>, from: nat, at: nat)
    requires from < at <= |hosts|
    ensures |Silent(hosts, from, at)| == |Silent(hosts, from, at - 1)| + if hosts[at - 1].addr == UNSPECIFIED then 1 else 0
  {
    assert hosts[at - 1].addr == UNSPECIFIED ==> Silent(hosts, from, at) == Silent(hosts, from, at - 1) + {at - 1};
    assert hosts[at - 1].addr != UNSPECIFIED ==> Silent(hosts, from, at) == Silent(hosts, from, at - 1);
  }

  lemma NoneSilent(hosts: seq<Host>, at: nat)
    requires at <= |hosts|
    ensures |Silent(hosts, at, at)| == 0
  {
    assert Silent(hosts, at, at) == {};
  }

  lemma {:induction false} UnknownHopsCounts(c: Control, hosts: seq<Host>, at: nat)
    requires c.Valid() && c.fstTtl - 1 <= at <= |hosts|
    ensures Counts(c, hosts, at, UnknownHops(c, hosts, c.fstTtl - 1, at))
    decreases at
  {
    hide Silent;
    var first := c.fstTtl - 1;
    NoneSilent(hosts, at);
    if first < at {
      UnknownHopsCounts(c, hosts, at - 1);
      SilentOneMore(hosts, first, at);
      forall i: nat | LastReached(c, hosts, at, i)
        ensures UnknownHops(c, hosts, first, at) == MAX_HOST + |Silent(hosts, i + 1, at)|
      {
        if i < at - 1 {
          assert !Reached(c, hosts, i + 1, at - 1);
          assert LastReached(c, hosts, at - 1, i);
          SilentOneMore(hosts, i + 1, at);
        }
      }
    }
  }

  lemma {:induction false} SomeLastReached(c: Control, hosts: seq<Host>, at: nat)
    requires c.Valid() && at <= |hosts| && Reached(c, hosts, c.fstTtl - 1, at)
    ensures exists i: nat :: LastReached(c, hosts, at, i)
    decreases at
  {
    if hosts[at - 1].addr == c.remote {
      assert LastReached(c, hosts, at, at - 1);
    } else {
      SomeLastReached(c, hosts, at - 1);
      var i: nat :| LastReached(c, hosts, at - 1, i);
      assert LastReached(c, hosts, at, i);
    }
  }

  /**
   * Exactly when a round ends: at the target, at the last hop allowed, or when more than maxUnknown
   * is counted; a target passed earlier counts for MAX_HOST, and only the silent hops after it add
   * to that.
   */
  lemma RoundEndsIff(c: Control, hosts: seq<Host>, at: nat)
    requires c.Valid() && c.fstTtl - 1 <= at < |hosts|
    ensures Reached(c, hosts, c.fstTtl - 1, at) ==> (exists i: nat :: LastReached(c, hosts, at, i))
    ensures forall i: nat :: LastReached(c, hosts, at, i) ==>
              (RoundEnds(c, hosts, at) <==>
                hosts[at].addr == c.remote || at >= c.maxTtl - 1
                || MAX_HOST + |Silent(hosts, i + 1, at)| > c.maxUnknown)
    ensures !Reached(c, hosts, c.fstTtl - 1, at) ==>
              (RoundEnds(c, hosts, at) <==>
                hosts[at].addr == c.remote || at >= c.maxTtl - 1
                || |Silent(hosts, c.fstTtl - 1, at)| > c.maxUnknown)
  {
    UnknownHopsCounts(c, hosts, at);
    if Reached(c, hosts, c.fstTtl - 1, at) {
      SomeLastReached(c, hosts, at);
    }
  }

  /** The target passed earlier in the round ends it at the latest with this hop. */
  ghost predicate PassedTargetsEnd(c: Control)
    requires c.Valid()
  {
    forall hosts, at :: |hosts| == MAX_HOST && c.fstTtl - 1 <= at < c.maxTtl && Reached(c, hosts, c.fstTtl - 1, at) ==>
      RoundEnds(c, hosts, at)
  }

  /** That is the intention; it holds iff the limit is below MAX_HOST, or there are fewer than three hops. */
  lemma PassedTargetsEndIff(c: Control)
    requires c.Valid()
    ensures PassedTargetsEnd(c) <==> c.maxUnknown < MAX_HOST || c.maxTtl < c.fstTtl + 2
  {
    if c.maxUnknown < MAX_HOST || c.maxTtl < c.fstTtl + 2 {
      forall hosts, at | |hosts| == MAX_HOST && c.fstTtl - 1 <= at < c.maxTtl && Reached(c, hosts, c.fstTtl - 1, at)
        ensures RoundEnds(c, hosts, at)
      {
        UnknownHopsCounts(c, hosts, at);
        SomeLastReached(c, hosts, at);
      }
    } else {
      var first := c.fstTtl - 1;
      var other := FRESH_HOST.(addr := c.remote + 1);
      var hosts := seq(MAX_HOST, i => if i == first then FRESH_HOST.(addr := c.remote) else other);
      assert hosts[first].addr == c.remote && hosts[first + 1].addr != c.remote;
      assert Reached(c, hosts, first, first + 1);
      assert UnknownHops(c, hosts, first, first) == 0;
      assert UnknownHops(c, hosts, first, first + 1) == MAX_HOST;
      assert !RoundEnds(c, hosts, first + 1);
    }
  }

  /** With a limit of 300 the round goes on past a target at the first hop. */
  lemma PassedTargetExample(hosts: seq<Host>)
    requires |hosts| == MAX_HOST && hosts[0].addr == 1 && hosts[1].addr == UNSPECIFIED
    ensures var c := Control(1, 30, 300, 1);
            c.Valid() && Reached(c, hosts, 0, 1) && !RoundEnds(c, hosts, 1)
  {
    var c := Control(1, 30, 300, 1);
    assert UnknownHops(c, hosts, 0, 0) == 0;
    assert UnknownHops(c, hosts, 0, 1) == MAX_HOST;
  }

  /** The line is the command of the request under this number and with this time to live. */
  ghost predicate CommandFor(line: string, request: CommandLine.Control, seqNum: int, timeToLive: int) {
    var c := request.(sequence := seqNum, ttl := timeToLive);
    c.Valid() && |CommandLine.CommandWords(c)| > 0 && line == Join(CommandLine.CommandWords(c)) + "\n"
  }

  /** A reply under the number a hop was probed with is a reply to that hop. */
  lemma NumberIsTheHops(log: seq<HopEvent>, h: nat, err: int, mpls: seq<Label>, addr: int, usec: nat)
    requires EventsOk(log) && h < MAX_HOST
    ensures EventsOk(log + [Send(h)])
    ensures HopPaths.Answers(log + [Send(h)], Reply(TableAfter(log).nextSequence, err, mpls, addr, usec)) == Some(h)
  {
    hide TableAfter, LedgerAfter;
    OneMoreNoted(log, Send(h));
    TableAgreesWithLedger(log);
    TableAgreesWithLedger(log + [Send(h)]);
  }

  class Sender {
    const table: NetTable
    var batchAt: int
    var numHosts: int

    ghost predicate Valid(c: Control)
      reads this, table, table.host, table.sequence
    {
      c.Valid() && table.Valid() && c.fstTtl - 1 <= batchAt < c.maxTtl
    }

    constructor (c: Control)
      requires c.Valid()
      ensures Valid(c) && batchAt == c.fstTtl - 1 && table.View() == FirstTable()
      ensures fresh(table) && fresh(table.host) && fresh(table.sequence)
    {
      table := new NetTable();
      batchAt, numHosts := c.fstTtl - 1, 10;
    }

    /** net_reset */
    method Reset(c: Control)
      requires c.Valid() && table.Valid()
      modifies this, table.host, table.sequence
      ensures Valid(c) && batchAt == c.fstTtl - 1 && table.View() == ResetTable(old(table.View()))
    {
      batchAt := c.fstTtl - 1;
      numHosts := 10;
      table.Clear();
    }

    /**
     * net_send_query: the command for a probe of hop `index`, under the next sequence number and with
     * the time to live that ends at that hop; `request` says everything else.
     */
    method SendQuery(index: nat, request: CommandLine.Control) returns (line: string)
      requires table.Valid() && index < MAX_HOST && request.Valid()
      modifies table, table.host, table.sequence
      ensures table.Valid() && table.View() == Sent(old(table.View()), index)
      ensures CommandFor(line, request, old(table.nextSequence), index + 1)
    {
      hide CommandLine.CommandWords, Sent;
      var seqNum := table.NewSequence(index);
      var timeToLive := index + 1;
      CommandLine.BaseStarts(request.(sequence := seqNum, ttl := timeToLive));
      line := CommandLine.SendProbeCommand(request.(sequence := seqNum, ttl := timeToLive));
    }

    /** Probe the next hop; returns 1 when that ends the round. */
    method SendBatch(c: Control, request: CommandLine.Control) returns (done: int, line: string)
      requires Valid(c) && request.Valid()
      modifies this, table, table.host, table.sequence
      ensures CommandFor(line, request, old(table.nextSequence), old(batchAt) + 1)
      ensures Valid(c) && table.View() == Sent(old(table.View()), old(batchAt))
      ensures done == 1 <==> RoundEnds(c, table.host[..], old(batchAt))
      ensures batchAt == if done == 1 then c.fstTtl - 1 else old(batchAt) + 1
      ensures done == 1 ==> numHosts == old(batchAt) + 1
    {
      hide CommandFor;
      line := SendQuery(batchAt, request);
      var nUnknown := 0;
      ghost var hosts := table.host[..];
      var i := c.fstTtl - 1;
      while i < batchAt
        invariant c.fstTtl - 1 <= i <= batchAt
        invariant nUnknown == UnknownHops(c, hosts, c.fstTtl - 1, i)
      {
        if table.host[i].addr == UNSPECIFIED {
          nUnknown := nUnknown + 1;
        }
        if table.host[i].addr == c.remote {
          nUnknown := MAX_HOST;
        }
        i := i + 1;
      }
      if table.host[batchAt].addr == c.remote || nUnknown > c.maxUnknown || batchAt >= c.maxTtl - 1 {
        numHosts := batchAt + 1;
        batchAt := c.fstTtl - 1;
        done := 1;
        return;
      }
      batchAt := batchAt + 1;
      done := 0;
    }
  }

  // ----- runs -----

  /** A call of net_send_batch, or something else that happens to the table. */
  datatype BatchEvent = Probe | Other(event: HopEvent)

  predicate BatchEventOk(e: BatchEvent) { e.Other? ==> !e.event.Send? }
  predicate BatchEventsOk(es: seq<BatchEvent>) { forall i :: 0 <= i < |es| ==> BatchEventOk(es[i]) }

  /** What a run did to the table, and where the next batch probe goes. */
  datatype Schedule = Schedule(log: seq<HopEvent>, at: nat)

  function Scheduled(c: Control, s: Schedule, e: BatchEvent): (r: Schedule)
    requires c.Valid() && EventsOk(s.log) && BatchEventOk(e) && c.fstTtl - 1 <= s.at < c.maxTtl
    ensures EventsOk(r.log) && c.fstTtl - 1 <= r.at < c.maxTtl
  {
    match e
    case Probe =>
      var log := s.log + [Send(s.at)];
      Schedule(log, if RoundEnds(c, TableAfter(log).hosts, s.at) then c.fstTtl - 1 else s.at + 1)
    case Other(event) =>
      Schedule(s.log + [event], if event.Reset? then c.fstTtl - 1 else s.at)
  }

  function RunFrom(c: Control, s: Schedule, es: seq<BatchEvent>): (r: Schedule)
    requires c.Valid() && EventsOk(s.log) && BatchEventsOk(es) && c.fstTtl - 1 <= s.at < c.maxTtl
    ensures EventsOk(r.log) && c.fstTtl - 1 <= r.at < c.maxTtl
    decreases |es|
  {
    if es == [] then s else Scheduled(c, RunFrom(c, s, es[..|es| - 1]), es[|es| - 1])
  }

  function Start(c: Control): Schedule
    requires c.Valid()
  {
    Schedule([], c.fstTtl - 1)
  }

  /** How many batch probes a run contains. */
  function Probes(es: seq<BatchEvent>): nat {
    if es == [] then 0 else Probes(es[..|es| - 1]) + if es[|es| - 1].Probe? then 1 else 0
  }

  predicate NoReset(es: seq<BatchEvent>) { forall i :: 0 <= i < |es| ==> !(es[i].Other? && es[i].event.Reset?) }

  /** The round ended at some probe of the run. */
  ghost predicate RoundEnded(c: Control, s: Schedule, es: seq<BatchEvent>)
    requires c.Valid() && EventsOk(s.log) && BatchEventsOk(es) && c.fstTtl - 1 <= s.at < c.maxTtl
    decreases |es|
  {
    es != [] &&
    var front := es[..|es| - 1];
    RoundEnded(c, s, front)
    || (es[|es| - 1].Probe? && RunFrom(c, s, es).at == c.fstTtl - 1)
  }

  /**
   * While the round has not ended, each probe goes one hop further, whatever replies arrive; so a
   * round of more than maxTTL - fstTTL calls has ended.
   */
  lemma {:induction false} RoundsAdvance(c: Control, s: Schedule, es: seq<BatchEvent>)
    requires c.Valid() && EventsOk(s.log) && BatchEventsOk(es) && c.fstTtl - 1 <= s.at < c.maxTtl
    requires NoReset(es) && !RoundEnded(c, s, es)
    ensures RunFrom(c, s, es).at == s.at + Probes(es)
    decreases |es|
  {
    hide RoundEnds;
    if es != [] {
      RoundsAdvance(c, s, es[..|es| - 1]);
    }
  }

  lemma RoundsEnd(c: Control, s: Schedule, es: seq<BatchEvent>)
    requires c.Valid() && EventsOk(s.log) && BatchEventsOk(es) && s.at == c.fstTtl - 1 < c.maxTtl
    requires NoReset(es) && Probes(es) >= c.maxTtl - c.fstTtl + 1
    ensures RoundEnded(c, s, es)
  {
    if !RoundEnded(c, s, es) {
      RoundsAdvance(c, s, es);
    }
  }

  /** Before each call: the hops of this round so far are exactly those probed. */
  ghost predicate RoundSoFar(c: Control, s: Schedule)
    requires c.Valid() && EventsOk(s.log)
  {
    var l, first := LedgerAfter(s.log), c.fstTtl - 1;
    && l.skipped[first] == 0
    && (if s.at == first then l.probed == {} || first in l.probed
        else forall h :: h in l.probed <==> first <= h < s.at)
  }

  lemma RoundKept(c: Control, s: Schedule, e: BatchEvent)
    requires c.Valid() && EventsOk(s.log) && BatchEventOk(e) && c.fstTtl - 1 <= s.at < c.maxTtl
    requires RoundSoFar(c, s)
    ensures RoundSoFar(c, Scheduled(c, s, e))
  {
    hide RoundEnds, TableAfter, LedgerAfter;
    OneMoreNoted(s.log, if e.Probe? then Send(s.at) else e.event);
  }

  /** In every run the first hop is probed in every round. */
  lemma {:induction false} FirstHopIsNeverSkipped(c: Control, es: seq<BatchEvent>)
    requires c.Valid() && BatchEventsOk(es)
    ensures RoundSoFar(c, RunFrom(c, Start(c), es))
    decreases |es|
  {
    hide RoundSoFar, Scheduled;
    if es == [] {
      StartsRound(c);
    } else {
      FirstHopIsNeverSkipped(c, es[..|es| - 1]);
      RoundKept(c, RunFrom(c, Start(c), es[..|es| - 1]), es[|es| - 1]);
    }
  }

  lemma StartsRound(c: Control)
    requires c.Valid()
    ensures RoundSoFar(c, Start(c))
  {}

  /** ... so its window always shows its latest transmissions. */
  lemma FirstHopWindowIsAligned(c: Control, es: seq<BatchEvent>, n: nat)
    requires c.Valid() && BatchEventsOk(es)
    requires var log, first := RunFrom(c, Start(c), es).log, c.fstTtl - 1;
             first in LedgerAfter(log).probed
             && 1 <= n <= TableAfter(log).hosts[first].xmit < n + SAVED_PINGS
    ensures var log, first := RunFrom(c, Start(c), es).log, c.fstTtl - 1;
            var host := TableAfter(log).hosts[first];
            && n <= |LedgerAfter(log).times[first]|
            && host.saved[SAVED_PINGS - 1 - (host.xmit - n)] == LedgerAfter(log).times[first][n - 1]
  {
    hide TableAfter, LedgerAfter, RunFrom;
    FirstHopIsNeverSkipped(c, es);
    WindowShowsHistory(RunFrom(c, Start(c), es).log, c.fstTtl - 1, n);
  }
}
