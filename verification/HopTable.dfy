/** The static arrays of ui/net.c and the functions that update them, each refining module Hops. */
module HopTable {
  import opened CInt
  import opened Mpls
  import opened RunningStats
  import opened Hops

  class NetTable {
    const host: array<Host>
    const sequence: array<SequenceEntry>
    var nextSequence: int

    ghost predicate Valid()
      reads this, host, sequence
    {
      host.Length == MAX_HOST && sequence.Length == MAX_SEQUENCE && View().Valid()
    }

    ghost function View(): Table
      reads this, host, sequence
    {
      Table(host[..], sequence[..], nextSequence)
    }

    constructor ()
      ensures Valid() && fresh(host) && fresh(sequence)
      ensures View() == Table(seq(MAX_HOST, _ => FRESH_HOST), seq(MAX_SEQUENCE, _ => SequenceEntry(0, false, 0)), MIN_SEQUENCE)
    {
      host := new Host[MAX_HOST](_ => FRESH_HOST);
      sequence := new SequenceEntry[MAX_SEQUENCE](_ => SequenceEntry(0, false, 0));
      nextSequence := MIN_SEQUENCE;
      new;
      assert host[..] == seq(MAX_HOST, _ => FRESH_HOST);
      assert sequence[..] == seq(MAX_SEQUENCE, _ => SequenceEntry(0, false, 0));
    }

    /** net_save_increment: every window moves one slot. */
    method SaveIncrement()
      requires Valid()
      modifies host
      ensures host[..] == ShiftedAll(old(host[..]))
    {
      ghost var before := host[..];
      var at := 0;
      while at < MAX_HOST
        invariant 0 <= at <= MAX_HOST
        invariant forall h :: 0 <= h < at ==> host[h] == Shifted(before[h])
        invariant forall h :: at <= h < MAX_HOST ==> host[h] == before[h]
      {
        host[at] := host[at].(saved := host[at].saved[1..] + [EMPTY_SLOT]);
        host[at] := host[at].(savedSeqOffset := host[at].savedSeqOffset + 1);
        at := at + 1;
      }
    }

    /** net_save_xmit */
    method SaveXmit(at: nat)
      requires Valid() && at < MAX_HOST
      modifies host
      ensures host[..] == Hops.SaveXmit(old(host[..]), at)
    {
      if host[at].saved[SAVED_PINGS - 1] != EMPTY_SLOT {
        SaveIncrement();
      }
      assert host[at] == host[..][at];
      host[at] := host[at].(saved := host[at].saved[SAVED_PINGS - 1 := NO_ANSWER]);
    }

    /** net_save_return */
    method SaveReturn(at: nat, number: int, ms: int)
      requires Valid() && at < MAX_HOST
      modifies host
      ensures host[..] == old(host[..])[at := Hops.SaveReturn(old(host[at]), number, ms)]
    {
      var idx := number - host[at].savedSeqOffset;
      if idx < 0 || idx >= SAVED_PINGS {
        return;
      }
      host[at] := host[at].(saved := host[at].saved[idx := ms]);
    }

    /** save_sequence */
    method SaveSequence(index: nat, seqNum: nat)
      requires Valid() && index < MAX_HOST && seqNum < MAX_SEQUENCE
      modifies host, sequence
      ensures var h := old(host[index]);
              && sequence[..] == old(sequence[..])[seqNum := SequenceEntry(index, true, h.xmit + 1)]
              && host[..] == Hops.SaveXmit(
                   old(host[..])[index := h.(xmit := h.xmit + 1, transit := true, up := h.up && !h.sent, sent := true)], index)
    {
      ghost var h := host[index];
      sequence[seqNum] := sequence[seqNum].(index := index);
      sequence[seqNum] := sequence[seqNum].(transit := true);
      host[index] := host[index].(xmit := host[index].xmit + 1);
      sequence[seqNum] := sequence[seqNum].(savedSeq := host[index].xmit);
      host[index] := host[index].(transit := true);
      if host[index].sent {
        host[index] := host[index].(up := false);
      }
      host[index] := host[index].(sent := true);
      assert host[..] == old(host[..])[index := h.(xmit := h.xmit + 1, transit := true, up := h.up && !h.sent, sent := true)];
      SaveXmit(index);
    }

    /** new_sequence */
    method NewSequence(index: nat) returns (seqNum: int)
      requires Valid() && index < MAX_HOST
      modifies this, host, sequence
      ensures Valid() && View() == Sent(old(View()), index) && seqNum == old(nextSequence)
    {
      XmitStaysValid(View(), index);
      seqNum := nextSequence;
      nextSequence := nextSequence + 1;
      if nextSequence >= MAX_SEQUENCE {
        nextSequence := MIN_SEQUENCE;
      }
      SaveSequence(index, seqNum);
    }

    /** mark_sequence_complete: -1 for a number that is not in transit. */
    method MarkSequenceComplete(seqNum: int) returns (index: int)
      requires Valid()
      modifies sequence
      ensures index < 0 <==> !Expected(old(View()), seqNum)
      ensures index < 0 ==> sequence[..] == old(sequence[..])
      ensures index >= 0 ==> index == old(sequence[seqNum]).index
                             && sequence[..] == old(sequence[..])[seqNum := old(sequence[seqNum]).(transit := false)]
    {
      if seqNum < 0 || seqNum >= MAX_SEQUENCE {
        return -1;
      }
      if !sequence[seqNum].transit {
        return -1;
      }
      sequence[seqNum] := sequence[seqNum].(transit := false);
      index := sequence[seqNum].index;
    }

    /** The multipath list of a hop; the bound is tested before the slot is read. */
    method RecordPathOf(index: nat, addr: int, mpls: seq<Label>)
      requires Valid() && index < MAX_HOST
      modifies host
      ensures host[..] == old(host[..])[index := RecordPath(old(host[index]), addr, mpls)]
    {
      if host[index].addr == UNSPECIFIED {
        host[index] := host[index].(addr := addr);
        host[index] := host[index].(mpls := mpls);
        host[index] := host[index].(addrs := host[index].addrs[0 := addr]);
        host[index] := host[index].(mplss := host[index].mplss[0 := mpls]);
      } else {
        var i := 0;
        while i < MAX_PATH
          invariant 0 <= i <= MAX_PATH
          invariant forall j :: 0 <= j < i ==> host[index].addrs[j] != addr && host[index].addrs[j] != UNSPECIFIED
          invariant host[..] == old(host[..])
        {
          if host[index].addrs[i] == addr || host[index].addrs[i] == UNSPECIFIED {
            break;
          }
          i := i + 1;
        }
        assert i == PathSlot(host[index].addrs, addr);
        if i < MAX_PATH && host[index].addrs[i] != addr {
          host[index] := host[index].(addrs := host[index].addrs[i := addr]);
          host[index] := host[index].(mplss := host[index].mplss[i := mpls]);
        }
      }
    }

    /** net_process_ping */
    method ProcessPing(seqNum: int, err: int, mpls: seq<Label>, addr: int, usec: nat)
      requires Valid()
      modifies host, sequence
      ensures Valid() && View() == Answered(old(View()), seqNum, err, mpls, addr, usec)
    {
      hide Replied, RecordPath, Hops.SaveReturn;
      StaysValid(View(), Reply(seqNum, err, mpls, addr, usec));
      var index := MarkSequenceComplete(seqNum);
      if index < 0 {
        return;
      }
      host[index] := host[index].(err := err);
      RecordPathOf(index, addr, mpls);
      var stats := RecordReply(host[index].stats, usec);
      host[index] := host[index].(stats := stats);
      host[index] := host[index].(sent := false, up := true, transit := false);
      SaveReturn(index, sequence[seqNum].savedSeq, usec);
    }

    /** net_end_transit */
    method EndTransit()
      requires Valid()
      modifies host
      ensures Valid() && View() == TransitEnded(old(View()))
    {
      ghost var before := host[..];
      StaysValid(View(), HopEvent.EndTransit);
      var at := 0;
      while at < MAX_HOST
        invariant 0 <= at <= MAX_HOST
        invariant forall h :: 0 <= h < at ==> host[h] == before[h].(transit := false)
        invariant forall h :: at <= h < MAX_HOST ==> host[h] == before[h]
      {
        host[at] := host[at].(transit := false);
        at := at + 1;
      }
      assert host[..] == TransitEnded(old(View())).hosts;
    }

    /** The part of net_reset that concerns the arrays; the next sequence number is kept. */
    method Clear()
      requires Valid()
      modifies host, sequence
      ensures Valid() && View() == ResetTable(old(View()))
    {
      hide FRESH_HOST;
      ghost var before := sequence[..];
      StaysValid(View(), HopEvent.Reset);
      var at := 0;
      while at < MAX_HOST
        invariant 0 <= at <= MAX_HOST
        invariant forall h :: 0 <= h < at ==> host[h] == FRESH_HOST
        invariant sequence[..] == before
      {
        host[at] := FRESH_HOST;
        at := at + 1;
      }
      at := 0;
      while at < MAX_SEQUENCE
        invariant 0 <= at <= MAX_SEQUENCE
        invariant forall q :: 0 <= q < at ==> sequence[q] == before[q].(transit := false)
        invariant forall q :: at <= q < MAX_SEQUENCE ==> sequence[q] == before[q]
        invariant forall h :: 0 <= h < MAX_HOST ==> host[h] == FRESH_HOST
      {
        sequence[at] := sequence[at].(transit := false);
        at := at + 1;
      }
      assert host[..] == ResetTable(old(View())).hosts;
      assert sequence[..] == ResetTable(old(View())).sequences;
    }

    /** net_drop and net_loss */
    method NetDrop(at: nat) returns (drop: int)
      requires Valid() && at < MAX_HOST
      ensures drop == Drop(host[at])
    {
      drop := host[at].xmit - (if host[at].transit then 1 else 0) - host[at].stats.returned;
    }

    method NetLoss(at: nat) returns (loss: int)
      requires Valid() && at < MAX_HOST && (host[at].transit ==> host[at].xmit > 0)
      ensures loss == Loss(host[at])
    {
      var settled: nat := if host[at].transit then host[at].xmit - 1 else host[at].xmit;
      if settled == 0 {
        return 0;
      }
      loss := TruncDiv(100_000 * (settled - host[at].stats.returned), settled);
    }

    /** The hop that ends the path: the target itself, or one that returned an error. */
    predicate EndsPath(at: nat, remote: int)
      requires at < host.Length
      reads host
    {
      host[at].addr == remote || host[at].err != 0
    }

    predicate LastAnswered(last: nat, maxTtl: nat)
      requires maxTtl <= host.Length
      reads host
    {
      last < maxTtl && host[last].addr != UNSPECIFIED && forall i :: last < i < maxTtl ==> host[i].addr == UNSPECIFIED
    }

    /** net_max: the first hop that ends the path; failing that, one past the last that answered. */
    method NetMax(maxTtl: nat, remote: int) returns (max: nat)
      requires Valid() && maxTtl <= MAX_HOST
      ensures max <= maxTtl
      ensures forall at :: 0 <= at < maxTtl && EndsPath(at, remote) && (forall i :: 0 <= i < at ==> !EndsPath(i, remote))
                ==> max == at + 1
      ensures (forall i :: 0 <= i < maxTtl ==> !EndsPath(i, remote)) ==>
                (forall last: nat :: LastAnswered(last, maxTtl) ==> max == if last + 2 <= maxTtl then last + 2 else maxTtl)
                && ((forall i :: 0 <= i < maxTtl ==> host[i].addr == UNSPECIFIED) ==> max == 0)
    {
      max := 0;
      var at := 0;
      while at < maxTtl
        invariant 0 <= at <= maxTtl
        invariant forall i :: 0 <= i < at ==> !EndsPath(i, remote)
        invariant max == 0 || (2 <= max <= at + 1 && host[max - 2].addr != UNSPECIFIED)
        invariant forall i :: 0 <= i < at && max < i + 2 ==> host[i].addr == UNSPECIFIED
      {
        if host[at].addr == remote {
          assert EndsPath(at, remote);
          return at + 1;
        } else if host[at].err != 0 {
          assert EndsPath(at, remote);
          return at + 1;
        } else if host[at].addr != UNSPECIFIED {
          max := at + 2;
        }
        at := at + 1;
      }
      forall last: nat | LastAnswered(last, maxTtl)
        ensures max == last + 2
      {
        assert max == 0 || host[max - 2].addr != UNSPECIFIED;
      }
      if max > maxTtl {
        max := maxTtl;
      }
    }
  }
}
