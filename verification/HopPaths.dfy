/**
 * Who answered: the addresses, labels, errors and state flags of a hop, from the log of what was sent
 * and what came back, and the proof that the hop table of ui/net.c agrees with it in every run.
 */
module HopPaths {
  import opened Options
  import opened Mpls
  import opened RunningStats
  import opened Hops
  import opened HopLedger

  /** A reply to a hop. */
  datatype Arrival = Arrival(addr: int, labels: seq<Label>, err: int)

  /** The hop an event answers, if it is a reply to something in flight. */
  function Answers(log: seq<HopEvent>, e: HopEvent): Option<nat>
    requires EventsOk(log)
  {
    var l := LedgerAfter(log);
    if e.Reply? && e.seqNum in l.flying && Known(l, l.flying[e.seqNum]) then Some(l.flying[e.seqNum].host) else None
  }

  /** The replies to a hop since the reset, in order of arrival. */
  function RepliesTo(log: seq<HopEvent>, h: nat): seq<Arrival>
    requires EventsOk(log)
  {
    if log == [] || log[|log| - 1].Reset? then []
    else
      var front, e := log[..|log| - 1], log[|log| - 1];
      RepliesTo(front, h) + if Answers(front, e) == Some(h) then [Arrival(e.addr, e.mpls, e.err)] else []
  }

  /** How often a hop was probed since its latest reply, or since the reset. */
  function SendsSince(log: seq<HopEvent>, h: nat): nat
    requires EventsOk(log)
  {
    if log == [] || log[|log| - 1].Reset? then 0
    else
      var front, e := log[..|log| - 1], log[|log| - 1];
      if e == Send(h) then SendsSince(front, h) + 1
      else if Answers(front, e) == Some(h) then 0
      else SendsSince(front, h)
  }

  /** Probed since its latest reply, the latest end of transit and the reset. */
  predicate Awaiting(log: seq<HopEvent>, h: nat)
    requires EventsOk(log)
  {
    log != [] && !log[|log| - 1].Reset? && !log[|log| - 1].EndTransit? &&
    var front, e := log[..|log| - 1], log[|log| - 1];
    e == Send(h) || (Answers(front, e) != Some(h) && Awaiting(front, h))
  }

  // ----- first arrivals -----

  /** The first reply from its address. */
  predicate IsFirst(rs: seq<Arrival>, k: nat)
    requires k < |rs|
  {
    rs[k].addr != UNSPECIFIED && forall j :: 0 <= j < k ==> rs[j].addr != rs[k].addr
  }

  /** The positions of first replies, in order. */
  function Firsts(rs: seq<Arrival>): (fs: seq<nat>)
    ensures forall j :: 0 <= j < |fs| ==> fs[j] < |rs|
  {
    if rs == [] then []
    else
      var n := |rs| - 1;
      Firsts(rs[..n]) + if IsFirst(rs, n) then [n] else []
  }

  /** Exactly the first replies, each once, in order of arrival. */
  lemma {:induction false} FirstsAre(rs: seq<Arrival>)
    ensures forall k :: k in Firsts(rs) <==> 0 <= k < |rs| && IsFirst(rs, k)
    ensures forall i, j :: 0 <= i < j < |Firsts(rs)| ==> Firsts(rs)[i] < Firsts(rs)[j]
    decreases |rs|
  {
    if rs != [] {
      var n := |rs| - 1;
      FirstsAre(rs[..n]);
      assert forall k :: 0 <= k < n ==> (IsFirst(rs[..n], k) <==> IsFirst(rs, k));
    }
  }

  /** The first replies themselves: a path each. */
  function Paths(rs: seq<Arrival>): (ps: seq<Arrival>)
    ensures |ps| == |Firsts(rs)|
    ensures forall j :: 0 <= j < |ps| ==> ps[j] == rs[Firsts(rs)[j]]
  {
    seq(|Firsts(rs)|, j requires 0 <= j < |Firsts(rs)| => rs[Firsts(rs)[j]])
  }

  lemma PathsOneMore(rs: seq<Arrival>, a: Arrival)
    ensures Paths(rs + [a]) == Paths(rs) + if IsFirst(rs + [a], |rs|) then [a] else []
  {
    var all := rs + [a];
    assert all[..|rs|] == rs;
    assert forall j :: 0 <= j < |Firsts(rs)| ==> all[Firsts(rs)[j]] == rs[Firsts(rs)[j]];
  }

  predicate Seen(ps: seq<Arrival>, addr: int) { exists j :: 0 <= j < |ps| && ps[j].addr == addr }

  /** Every address that answered has exactly one path, and every path an address that answered. */
  ghost predicate Covers(ps: seq<Arrival>, rs: seq<Arrival>) {
    && (forall j :: 0 <= j < |ps| ==> ps[j].addr != UNSPECIFIED && Seen(rs, ps[j].addr))
    && (forall i, j :: 0 <= i < j < |ps| ==> ps[i].addr != ps[j].addr)
    && (forall k :: 0 <= k < |rs| && rs[k].addr != UNSPECIFIED ==> Seen(ps, rs[k].addr))
  }

  lemma SeenOneMore(ps: seq<Arrival>, a: Arrival)
    ensures forall addr :: Seen(ps + [a], addr) <==> Seen(ps, addr) || a.addr == addr
  {
    var all := ps + [a];
    forall addr | Seen(ps, addr) || a.addr == addr
      ensures Seen(all, addr)
    {
      if Seen(ps, addr) {
        var j :| 0 <= j < |ps| && ps[j].addr == addr;
        assert all[j].addr == addr;
      } else {
        assert all[|ps|].addr == addr;
      }
    }
  }

  lemma FirstIffNew(rs: seq<Arrival>, a: Arrival)
    ensures IsFirst(rs + [a], |rs|) <==> a.addr != UNSPECIFIED && !Seen(rs, a.addr)
  {
    assert forall j :: 0 <= j < |rs| ==> (rs + [a])[j] == rs[j];
  }

  lemma CoversOneMore(ps: seq<Arrival>, rs: seq<Arrival>, a: Arrival)
    requires Covers(ps, rs)
    ensures Covers(if a.addr != UNSPECIFIED && !Seen(rs, a.addr) then ps + [a] else ps, rs + [a])
    ensures a.addr != UNSPECIFIED ==> (Seen(rs, a.addr) <==> Seen(ps, a.addr))
  {
    SeenOneMore(ps, a);
    SeenOneMore(rs, a);
    assert a.addr != UNSPECIFIED && Seen(rs, a.addr) ==> Seen(ps, a.addr);
    hide Seen;
  }

  lemma {:induction false} PathsCover(rs: seq<Arrival>)
    ensures Covers(Paths(rs), rs)
    decreases |rs|
  {
    if rs == [] {
      assert Paths(rs) == [];
    } else {
      hide Covers, Paths, IsFirst;
      var n := |rs| - 1;
      var front, a := rs[..n], rs[n];
      assert rs == front + [a];
      PathsCover(front);
      PathsOneMore(front, a);
      FirstIffNew(front, a);
      CoversOneMore(Paths(front), front, a);
      assert Paths(front) + [] == Paths(front);
    }
  }

  // ----- the table agrees -----

  /** The addresses and labels a hop shows for its paths; before the first, the latest labels. */
  ghost predicate PathsAgree(h: Host, rs: seq<Arrival>)
    requires h.Valid()
  {
    var ps := Paths(rs);
    && h.addr == (if ps == [] then UNSPECIFIED else ps[0].addr)
    && h.mpls == (if ps != [] then ps[0].labels else if rs != [] then rs[|rs| - 1].labels else [])
    && (forall j :: 0 <= j < MAX_PATH ==> h.addrs[j] == if j < |ps| then ps[j].addr else UNSPECIFIED)
    && (forall j :: 0 <= j < MAX_PATH && j < |ps| ==> h.mplss[j] == ps[j].labels)
    && h.err == (if rs == [] then 0 else rs[|rs| - 1].err)
  }

  /** Up: it has answered, and at most the latest probe since is unanswered. */
  ghost predicate FlagsAgree(h: Host, replied: bool, since: nat, awaiting: bool) {
    && (h.up <==> replied && since <= 1) && (h.sent <==> since > 0) && (h.transit <==> awaiting)
  }

  /** The slot of an address: its own if it has one, else the first free one, if any. */
  lemma SlotOf(addrs: seq<int>, ps: seq<Arrival>, addr: int)
    requires |addrs| == MAX_PATH && forall j :: 0 <= j < MAX_PATH ==> addrs[j] == if j < |ps| then ps[j].addr else UNSPECIFIED
    requires forall j :: 0 <= j < |ps| ==> ps[j].addr != UNSPECIFIED
    ensures var i := PathSlot(addrs, addr);
            && (addr != UNSPECIFIED && !Seen(ps, addr) ==> i == if |ps| < MAX_PATH then |ps| else MAX_PATH)
            && (addr == UNSPECIFIED || Seen(ps, addr) ==> i == MAX_PATH || addrs[i] == addr)
  {
    var i := PathSlot(addrs, addr);
    if addr != UNSPECIFIED && Seen(ps, addr) {
      var j :| 0 <= j < |ps| && ps[j].addr == addr;
      assert j < MAX_PATH ==> addrs[j] == addr;
    } else if addr != UNSPECIFIED {
      assert i < |ps| ==> ps[i].addr != addr;
      assert |ps| < i ==> addrs[|ps|] == UNSPECIFIED;
    }
    hide PathSlot;
  }

  lemma FirstPathAgrees(h: Host, rs: seq<Arrival>, a: Arrival)
    requires h.Valid() && PathsAgree(h, rs) && Paths(rs) == []
    requires Paths(rs + [a]) == if a.addr != UNSPECIFIED then [a] else []
    ensures PathsAgree(RecordPath(h.(err := a.err), a.addr, a.labels), rs + [a])
  {
    hide Paths, PathSlot;
  }

  lemma LaterPathAgrees(h: Host, rs: seq<Arrival>, a: Arrival, ps: seq<Arrival>)
    requires h.Valid() && PathsAgree(h, rs) && Paths(rs) == ps && ps != [] && ps[0].addr != UNSPECIFIED
    requires var added, i := a.addr != UNSPECIFIED && !Seen(ps, a.addr), PathSlot(h.addrs, a.addr);
             && Paths(rs + [a]) == (if added then ps + [a] else ps)
             && (if added then i == (if |ps| < MAX_PATH then |ps| else MAX_PATH) else i == MAX_PATH || h.addrs[i] == a.addr)
    ensures PathsAgree(RecordPath(h.(err := a.err), a.addr, a.labels), rs + [a])
  {
    hide Paths, PathSlot, Seen;
  }

  /** How the paths grow: by a reply from an address not seen before. */
  lemma PathsGrow(rs: seq<Arrival>, a: Arrival)
    ensures var ps := Paths(rs);
            && Paths(rs + [a]) == (if a.addr != UNSPECIFIED && !Seen(ps, a.addr) then ps + [a] else ps)
            && forall j :: 0 <= j < |ps| ==> ps[j].addr != UNSPECIFIED
  {
    PathsOneMore(rs, a);
    PathsCover(rs);
    FirstIffNew(rs, a);
    CoversOneMore(Paths(rs), rs, a);
    hide Paths, Seen, IsFirst;
    assert Paths(rs) + [] == Paths(rs);
  }

  lemma RecordPathAgrees(h: Host, rs: seq<Arrival>, a: Arrival)
    requires h.Valid() && PathsAgree(h, rs)
    ensures PathsAgree(RecordPath(h.(err := a.err), a.addr, a.labels), rs + [a])
  {
    hide Paths, PathSlot, Seen, RecordPath;
    var ps := Paths(rs);
    PathsGrow(rs, a);
    SlotOf(h.addrs, ps, a.addr);
    if ps == [] {
      NothingSeen(a.addr);
      assert [] + [a] == [a];
      FirstPathAgrees(h, rs, a);
    } else {
      hide PathsAgree;
      LaterPathAgrees(h, rs, a, ps);
    }
  }

  lemma NothingSeen(addr: int)
    ensures !Seen([], addr)
  {}

  // ----- whole runs -----

  ghost predicate HopAgrees(h: Host, log: seq<HopEvent>, i: nat)
    requires h.Valid() && EventsOk(log)
  {
    && PathsAgree(h, RepliesTo(log, i))
    && FlagsAgree(h, RepliesTo(log, i) != [], SendsSince(log, i), Awaiting(log, i))
  }

  /** What an event does to hop i, if it concerns the hop. */
  lemma EventOnHop(log: seq<HopEvent>, e: HopEvent, i: nat)
    requires EventsOk(log) && EventOk(e) && i < MAX_HOST
    ensures var t := TableAfter(log);
            var before, after := t.hosts[i], Happened(t, e).hosts[i];
            match e
            case Reset => after == FRESH_HOST
            case EndTransit => after == before.(transit := false)
            case Send(index) =>
              after.(saved := [], savedSeqOffset := 0)
              == if index == i then
                   before.(saved := [], savedSeqOffset := 0, xmit := before.xmit + 1, transit := true,
                           up := before.up && !before.sent, sent := true)
                 else before.(saved := [], savedSeqOffset := 0)
            case Reply(_, err, mpls, addr, usec) =>
              if Answers(log, e) == Some(i) then
                var r := RecordPath(before.(err := err), addr, mpls);
                && after.addr == r.addr && after.addrs == r.addrs && after.mpls == r.mpls && after.mplss == r.mplss
                && after.err == r.err && !after.sent && after.up && !after.transit
              else after == before
  {
    hide TableAfter, LedgerAfter, HostAgrees, Replied, RecordPath, PathSlot;
    TableAgreesWithLedger(log);
    if e.Send? {
      SentHostIs(TableAfter(log), e.index, i);
    }
  }

  lemma LogGrows(log: seq<HopEvent>, e: HopEvent, i: nat)
    requires EventsOk(log) && EventOk(e)
    ensures EventsOk(log + [e])
    ensures RepliesTo(log + [e], i) == if e.Reset? then [] else
              if Answers(log, e) == Some(i) then RepliesTo(log, i) + [Arrival(e.addr, e.mpls, e.err)] else RepliesTo(log, i)
    ensures SendsSince(log + [e], i) == if e.Reset? then 0 else if e == Send(i) then SendsSince(log, i) + 1
                                        else if Answers(log, e) == Some(i) then 0 else SendsSince(log, i)
    ensures Awaiting(log + [e], i) <==> !e.Reset? && !e.EndTransit?
                                        && (e == Send(i) || (Answers(log, e) != Some(i) && Awaiting(log, i)))
  {
    hide Answers;
    var all := log + [e];
    assert all[..|all| - 1] == log && all[|all| - 1] == e;
  }

  lemma EventKeepsHop(log: seq<HopEvent>, e: HopEvent, i: nat)
    requires EventsOk(log) && EventOk(e) && i < MAX_HOST && HopAgrees(TableAfter(log).hosts[i], log, i)
    ensures Happened(TableAfter(log), e).Valid() && EventsOk(log + [e])
    ensures HopAgrees(Happened(TableAfter(log), e).hosts[i], log + [e], i)
  {
    hide TableAfter, RepliesTo, SendsSince, Awaiting, Answers, Happened, RecordPath, PathsAgree;
    StaysValid(TableAfter(log), e);
    LogGrows(log, e, i);
    EventOnHop(log, e, i);
    NoReplies();
    var before, after := TableAfter(log).hosts[i], Happened(TableAfter(log), e).hosts[i];
    if e.Reply? && Answers(log, e) == Some(i) {
      RecordPathAgrees(before, RepliesTo(log, i), Arrival(e.addr, e.mpls, e.err));
      SamePaths(RecordPath(before.(err := e.err), e.addr, e.mpls), after, RepliesTo(log + [e], i));
    } else if !e.Reset? {
      if !e.Reply? {
        OnlyRepliesAnswer(log, e);
      }
      SamePaths(before, after, RepliesTo(log, i));
    }
  }

  lemma OnlyRepliesAnswer(log: seq<HopEvent>, e: HopEvent)
    requires EventsOk(log) && !e.Reply?
    ensures Answers(log, e) == None
  {
    hide LedgerAfter;
  }

  lemma SamePaths(h: Host, r: Host, rs: seq<Arrival>)
    requires h.Valid() && r.Valid() && r.addr == h.addr && r.addrs == h.addrs && r.mpls == h.mpls && r.mplss == h.mplss && r.err == h.err
    ensures PathsAgree(h, rs) <==> PathsAgree(r, rs)
  {
    hide Paths;
  }

  lemma NoReplies()
    ensures FRESH_HOST.Valid() && PathsAgree(FRESH_HOST, []) && FlagsAgree(FRESH_HOST, false, 0, false)
  {
    assert Paths([]) == [];
  }

  /**
   * In every run: a hop shows the address and labels of its first reply from a specified address, the
   * first eight distinct addresses in order of arrival with the labels of their first replies, and the
   * error of its latest reply; its flags say what they should.
   */
  lemma {:induction false} HopsShowWhoAnswered(es: seq<HopEvent>, i: nat)
    requires EventsOk(es) && i < MAX_HOST
    ensures HopAgrees(TableAfter(es).hosts[i], es, i)
    decreases |es|
  {
    if es == [] {
      NoReplies();
      assert TableAfter([]).hosts[i] == FRESH_HOST;
    } else {
      hide HopAgrees, TableAfter;
      var front, e := es[..|es| - 1], es[|es| - 1];
      assert es == front + [e];
      HopsShowWhoAnswered(front, i);
      EventKeepsHop(front, e, i);
      OneMoreNoted(front, e);
    }
  }

  /** The end of transit leaves no hop waiting, whatever happened before. */
  lemma EndTransitClearsAll(es: seq<HopEvent>, i: nat)
    requires EventsOk(es) && i < MAX_HOST
    ensures EventsOk(es + [EndTransit]) && !TableAfter(es + [EndTransit]).hosts[i].transit
  {
    hide TableAfter;
    HopsShowWhoAnswered(es + [EndTransit], i);
    LogGrows(es, EndTransit, i);
  }
}
