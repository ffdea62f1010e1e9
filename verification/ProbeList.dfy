/**
 * The intrusive list of outstanding probes: the LIST macros of portability/queue.h on the heap.
 * `next` points at the following probe; `prev` is the address of the pointer that points here.
 */
module ProbeList {
  import opened ProbeCommand
  import opened Options
  import opened Construct
  import opened Seqs
  import opened TimeVal

  /** An `le_prev` value: the address of the list head, or of a probe's `next` field. */
  datatype Link = HeadFirst | NextOf(probe: ProbeNode)

  /** `struct probe_t` with its Unix part. */
  class ProbeNode {
    var next: ProbeNode?
    var prev: Link
    var sequence: int
    var token: int
    var remoteAddress: Address
    var socket: int
    var timeoutTime: Time
    var departureTime: Time
    ghost var serial: nat          // how many sequence numbers had been issued before this one
    ghost var param: Option<ProbeParam>   // what it was sent for
    ghost var wire: Option<Wire>   // the packet sent for it, if it was ours to build

    constructor (token: int)
      ensures this.token == token && socket == 0 && remoteAddress == Address(false, "")
      ensures timeoutTime == departureTime == Time(0, 0) && param == None && wire == None
    {
      next, prev := null, HeadFirst;
      sequence, socket, remoteAddress := 0, 0, Address(false, "");
      timeoutTime, departureTime := Time(0, 0), Time(0, 0);
      this.token := token;
      serial, param, wire := 0, None, None;
    }
  }

  class List {
    var first: ProbeNode?
    ghost var nodes: seq<ProbeNode>   // the probes on the list, first to last

    /** The pointers spell out exactly `nodes`: no cycle, no sharing, every back link right. */
    ghost predicate Valid()
      reads this, nodes`next, nodes`prev
    {
      && first == (if nodes == [] then null else nodes[0])
      && (forall i {:trigger nodes[i].next} :: 0 <= i < |nodes| ==> nodes[i].next == if i + 1 < |nodes| then nodes[i + 1] else null)
      && (forall i {:trigger nodes[i].prev} :: 0 <= i < |nodes| ==> nodes[i].prev == if i == 0 then HeadFirst else NextOf(nodes[i - 1]))
    }

    /** The back links alone rule out a cycle: no probe is on the list twice. */
    lemma {:induction false} NotTwice(i: nat, j: nat)
      requires Valid() && i < j < |nodes|
      ensures nodes[i] != nodes[j]
      decreases i
    {
      if i > 0 {
        NotTwice(i - 1, j - 1);
      }
      assert nodes[j].prev == NextOf(nodes[j - 1]);
    }

    lemma AllDifferent()
      requires Valid()
      ensures forall i, j :: 0 <= i < j < |nodes| ==> nodes[i] != nodes[j]
    {
      forall i, j | 0 <= i < j < |nodes|
        ensures nodes[i] != nodes[j]
      {
        NotTwice(i, j);
      }
    }

    lemma OnceOnly(k: nat)
      requires Valid() && k < |nodes|
      ensures nodes[k] !in Without(nodes, k)
    {
      AllDifferent();
      WithoutAt(nodes, k);
    }

    lemma HeadOnce()
      requires Valid() && nodes != []
      ensures nodes[0] !in nodes[1..]
    {
      AllDifferent();
    }

    /** LIST_FIRST and LIST_NEXT follow the sequence. */
    lemma FirstIs()
      requires Valid()
      ensures first == if nodes == [] then null else nodes[0]
    {}

    lemma NextIs(k: nat)
      requires Valid() && k < |nodes|
      ensures nodes[k].next == if k + 1 < |nodes| then nodes[k + 1] else null
    {}

    /** LIST_INIT */
    constructor ()
      ensures Valid() && nodes == []
    {
      first, nodes := null, [];
    }

    /** LIST_INSERT_HEAD */
    method InsertHead(elm: ProbeNode)
      requires Valid() && elm !in nodes
      modifies this, nodes`prev, elm`next, elm`prev
      ensures Valid() && nodes == [elm] + old(nodes)
    {
      AllDifferent();
      elm.next := first;
      if elm.next != null {
        first.prev := NextOf(elm);
      }
      first := elm;
      elm.prev := HeadFirst;
      nodes := [elm] + nodes;
    }

    /** LIST_REMOVE; `k` is the position of the element. */
    method Remove(elm: ProbeNode, ghost k: nat)
      requires Valid() && k < |nodes| && nodes[k] == elm
      modifies this, nodes`next, nodes`prev
      ensures Valid() && nodes == Without(old(nodes), k)
      ensures elm.next == old(elm.next)
    {
      hide Without;
      AllDifferent();
      assert nodes[k].next == elm.next && nodes[k].prev == elm.prev;
      if elm.next != null {
        elm.next.prev := elm.prev;
      }
      match elm.prev {
        case HeadFirst => first := elm.next;
        case NextOf(before) => before.next := elm.next;
      }
      WithoutAt(nodes, k);
      nodes := Without(nodes, k);
    }
  }
}
