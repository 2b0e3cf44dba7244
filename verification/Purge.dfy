/** Purging a connection: every queued request is called back, if it has a
    callback, and freed, once; the queues and their counts end up empty. */
module Purge {
  import opened SList

  datatype Pdu = Pdu(xid: int, hasCallback: bool)
  type Entry = Node<Pdu>

  /** struct rpc_queue */
  datatype Queue = Queue(head: Node?<Pdu>, tail: Node?<Pdu>)
  const EmptyQueue := Queue(null, null)

  ghost predicate IsQueue(q: Queue, spine: seq<Entry>)
    reads spine
  {
    && Linked(spine)
    && q.head == First(spine)
    && q.tail == if spine == [] then null else spine[|spine| - 1]
  }

  ghost function First(spine: seq<Entry>): Node?<Pdu> {
    if spine == [] then null else spine[0]
  }

  function Concat(spines: seq<seq<Entry>>): seq<Entry> {
    if spines == [] then [] else spines[0] + Concat(spines[1..])
  }

  /** What is done and what is still to come. */
  ghost function Then(done: seq<Event>, todo: seq<Event>): seq<Event> {
    done + todo
  }

  lemma ConcatFrom(spines: seq<seq<Entry>>, i: nat)
    requires i < |spines|
    ensures Concat(spines[i..]) == spines[i] + Concat(spines[i + 1..])
  {
    assert spines[i..][1..] == spines[i + 1..];
  }

  lemma {:induction false} InConcat(spines: seq<seq<Entry>>, i: nat)
    requires i < |spines|
    ensures forall p :: p in spines[i] ==> p in Concat(spines)
  {
    if i > 0 {
      InConcat(spines[1..], i - 1);
    }
  }

  lemma {:induction false} ConcatEmpty(spines: seq<seq<Entry>>)
    requires forall i :: 0 <= i < |spines| ==> spines[i] == []
    ensures Concat(spines) == []
  {
    if spines != [] {
      ConcatEmpty(spines[1..]);
    }
  }

  lemma DistinctParts(a: seq<Entry>, b: seq<Entry>)
    requires Distinct(a + b)
    ensures Distinct(a) && Distinct(b) && forall p :: p in a ==> p !in b
  {
    var c := a + b;
    assert forall k :: 0 <= k < |a| ==> c[k] == a[k];
    assert forall k :: 0 <= k < |b| ==> c[|a| + k] == b[k];
  }

  /** Different PDUs that are all still allocated. */
  ghost predicate Unfreed(pdus: seq<Entry>, log: seq<Event>) {
    Distinct(pdus) && forall i :: 0 <= i < |pdus| ==> Freed(pdus[i]) !in log
  }

  /** Freeing some of them leaves the others as they are. */
  lemma UnfreedRest(a: seq<Entry>, b: seq<Entry>, log: seq<Event>)
    requires Unfreed(a + b, log)
    ensures Unfreed(a, log) && Unfreed(b, log + Treated(a))
  {
    DistinctParts(a, b);
    forall p: Entry
      ensures Freed(p) in Treated(a) <==> p in a
    {
      TreatedMembers(a, p);
    }
    var c := a + b;
    assert forall k :: 0 <= k < |a| ==> c[k] == a[k];
    assert forall k :: 0 <= k < |b| ==> c[|a| + k] == b[k];
  }

  lemma Further(pdus: seq<Entry>, i: nat, log: seq<Event>)
    requires i < |pdus| && Unfreed(pdus[i..], log)
    ensures Unfreed(pdus[i + 1..], log + Treatment(pdus[i]))
    ensures log + Treated(pdus[i..]) == log + Treatment(pdus[i]) + Treated(pdus[i + 1..])
  {
    var rest := pdus[i..];
    assert rest[1..] == pdus[i + 1..] && rest == [rest[0]] + rest[1..];
    UnfreedRest([rest[0]], rest[1..], log);
    assert [rest[0]][1..] == [];
    assert Treated([rest[0]]) == Treatment(rest[0]) + Treated([]);
  }

  /** What follows a bucket is apart from it. */
  lemma NextBucket(spines: seq<seq<Entry>>, i: nat)
    requires i < |spines| && Distinct(Concat(spines[i..]))
    ensures Concat(spines[i..]) == spines[i] + Concat(spines[i + 1..])
    ensures Treated(Concat(spines[i..])) == Treated(spines[i]) + Treated(Concat(spines[i + 1..]))
    ensures Distinct(spines[i]) && Distinct(Concat(spines[i + 1..]))
    ensures forall p :: p in spines[i] ==> p !in Concat(spines[i + 1..])
    ensures forall j, k :: i < j < |spines| && 0 <= k < |spines[j]| ==> spines[j][k] !in spines[i]
  {
    ConcatFrom(spines, i);
    TreatedConcat(spines[i], Concat(spines[i + 1..]));
    DistinctParts(spines[i], Concat(spines[i + 1..]));
    forall j, k | i < j < |spines| && 0 <= k < |spines[j]|
      ensures spines[j][k] !in spines[i]
    {
      InConcat(spines[i + 1..], j - i - 1);
    }
  }

  /** The PDUs of all the buckets. */
  ghost function Pdus(spines: seq<seq<Entry>>): set<Entry> {
    set j, k | 0 <= j < |spines| && 0 <= k < |spines[j]| :: spines[j][k]
  }

  lemma InBuckets(spines: seq<seq<Entry>>)
    ensures forall p :: p in Pdus(spines) ==> p in Concat(spines)
  {
    forall j, k | 0 <= j < |spines| && 0 <= k < |spines[j]|
      ensures spines[j][k] in Concat(spines)
    {
      InConcat(spines, j);
    }
  }

  /** The buckets from the i-th on hold these PDUs. */
  ghost predicate BucketsFrom(waitpdu: array<Queue>, spines: seq<seq<Entry>>, i: nat)
    reads waitpdu, Pdus(spines)
  {
    && |spines| == waitpdu.Length
    && forall j :: i <= j < |spines| ==> IsQueue(waitpdu[j], spines[j])
  }

  /** What happens to a PDU. */
  datatype Event = Called(pdu: Entry) | Freed(pdu: Entry)

  /** Each PDU is called back, if it has a callback, and then freed, in order. */
  function Treated(pdus: seq<Entry>): seq<Event> {
    if pdus == [] then [] else Treatment(pdus[0]) + Treated(pdus[1..])
  }

  function Treatment(pdu: Entry): seq<Event> {
    if pdu.item.hasCallback then [Called(pdu), Freed(pdu)] else [Freed(pdu)]
  }

  lemma TreatedCons(pdu: Entry, pdus: seq<Entry>)
    ensures Treated([pdu] + pdus) == Treatment(pdu) + Treated(pdus)
  {
    assert ([pdu] + pdus)[1..] == pdus;
  }

  lemma {:induction false} TreatedConcat(a: seq<Entry>, b: seq<Entry>)
    ensures Treated(a + b) == Treated(a) + Treated(b)
  {
    if a == [] {
      assert a + b == b;
    } else {
      hide Treated, Treatment;
      var pdu, rest := a[0], a[1..];
      assert a == [pdu] + rest && a + b == [pdu] + (rest + b);
      TreatedConcat(rest, b);
      TreatedCons(pdu, rest);
      TreatedCons(pdu, rest + b);
      Associate(Treatment(pdu), Treated(rest), Treated(b));
    }
  }

  lemma Associate(a: seq<Event>, b: seq<Event>, c: seq<Event>)
    ensures a + (b + c) == a + b + c
  {
  }

  lemma {:induction false} TreatedMembers(pdus: seq<Entry>, pdu: Entry)
    ensures Freed(pdu) in Treated(pdus) <==> pdu in pdus
    ensures Called(pdu) in Treated(pdus) <==> pdu in pdus && pdu.item.hasCallback
  {
    if pdus != [] {
      TreatedMembers(pdus[1..], pdu);
      assert pdu in pdus <==> pdu == pdus[0] || pdu in pdus[1..];
    }
  }

  predicate CalledFirst(log: seq<Event>, pdu: Entry) {
    forall i, j :: 0 <= i < |log| && 0 <= j < |log| && log[i] == Called(pdu) && log[j] == Freed(pdu) ==> i < j
  }

  /** Each of the PDUs is freed exactly once, called back exactly once if it has a
      callback and never otherwise, and called back before it is freed. */
  lemma {:induction false} ExactlyOnce(pdus: seq<Entry>, pdu: Entry)
    requires Distinct(pdus) && pdu in pdus
    ensures multiset(Treated(pdus))[Freed(pdu)] == 1
    ensures multiset(Treated(pdus))[Called(pdu)] == if pdu.item.hasCallback then 1 else 0
    ensures CalledFirst(Treated(pdus), pdu)
  {
    hide CalledFirst;
    var first, rest := pdus[0], pdus[1..];
    assert pdus == [first] + rest;
    DistinctParts([first], rest);
    TreatedCons(first, rest);
    TreatedMembers(rest, pdu);
    hide Treated;
    if pdu != first {
      ExactlyOnce(rest, pdu);
      LaterOrder(Treatment(first), Treated(rest), pdu);
    } else {
      assert first in [first];
      FirstOrder(Treated(rest), pdu);
    }
  }

  lemma FirstOrder(rest: seq<Event>, pdu: Entry)
    requires Called(pdu) !in rest && Freed(pdu) !in rest
    ensures CalledFirst(Treatment(pdu) + rest, pdu)
    ensures multiset(Treatment(pdu) + rest)[Freed(pdu)] == 1
    ensures multiset(Treatment(pdu) + rest)[Called(pdu)] == if pdu.item.hasCallback then 1 else 0
  {
    var here := Treatment(pdu);
    var all := here + rest;
    assert forall k :: |here| <= k < |all| ==> all[k] in rest;
  }

  lemma LaterOrder(here: seq<Event>, rest: seq<Event>, pdu: Entry)
    requires Called(pdu) !in here && Freed(pdu) !in here && CalledFirst(rest, pdu)
    ensures CalledFirst(here + rest, pdu)
  {
    var all := here + rest;
    assert forall k :: 0 <= k < |here| ==> all[k] in here;
    assert forall k :: |here| <= k < |all| ==> all[k] == rest[k - |here|];
  }

  /** struct rpc_context, as far as its queues go. */
  class Rpc {
    var outqueue: Queue
    var delayQueue: Queue
    const waitpdu: array<Queue>
    var outqueueLen: nat
    var delayQueueLen: nat
    var waitpduLen: nat
    var log: seq<Event>                        // what was done to PDUs, in order
    ghost var out: seq<Entry>
    ghost var delayed: seq<Entry>
    ghost var waiting: seq<seq<Entry>>         // by hash bucket

    constructor (buckets: nat)
      ensures Valid() && All() == [] && log == []
      ensures waitpdu.Length == buckets && fresh(waitpdu)
    {
      outqueue, delayQueue, outqueueLen, delayQueueLen, waitpduLen := EmptyQueue, EmptyQueue, 0, 0, 0;
      log, out, delayed := [], [], [];
      waiting := seq(buckets, _ => []);
      waitpdu := new Queue[buckets](_ => EmptyQueue);
      new;
      ConcatEmpty(waiting);
    }

    /** Every PDU queued anywhere. */
    ghost function All(): seq<Entry>
      reads this`out, this`delayed, this`waiting
    {
      out + delayed + Concat(waiting)
    }

    /** The queues lead through the PDUs they hold, none of which is freed or
        queued twice, and the counts count them. */
    ghost predicate Valid()
      reads this, waitpdu, out, delayed, Pdus(waiting)
    {
      && Unfreed(All(), log)
      && IsQueue(outqueue, out) && IsQueue(delayQueue, delayed)
      && BucketsFrom(waitpdu, waiting, 0)
      && outqueueLen == |out| && delayQueueLen == |delayed| && waitpduLen == |Concat(waiting)|
    }

    /** Calls back and frees every PDU of a queue taken off the context. */
    method Drain(head: Node?<Pdu>, ghost pdus: seq<Entry>)
      requires Linked(pdus) && Unfreed(pdus, log) && head == First(pdus)
      modifies this`log, pdus
      ensures log == old(log) + Treated(pdus)
    {
      var pdu := head;
      ghost var i := 0;
      while pdu != null
        modifies this`log, pdus
        invariant 0 <= i <= |pdus| && pdu == First(pdus[i..])
        invariant forall k {:trigger pdus[k].next} :: i <= k < |pdus| ==> pdus[k].next == After(pdus, k)
        invariant log + Treated(pdus[i..]) == old(log) + Treated(pdus)
        invariant Unfreed(pdus[i..], log)
        decreases |pdus| - i
      {
        hide Treated;
        assert pdu == pdus[i] && Freed(pdu) !in log;
        Further(pdus, i, log);
        var rest := pdu.next;
        pdu.next := null;
        if pdu.item.hasCallback {
          log := log + [Called(pdu)];
        }
        log := log + [Freed(pdu)];
        pdu := rest;
        i := i + 1;
      }
    }

    /** rpc_purge_all_pdus */
    method PurgeAll()
      requires Valid()
      modifies this, waitpdu, out, delayed, Pdus(waiting)
      ensures Valid() && All() == []
      ensures log == old(log) + Treated(old(All()))
    {
      hide Concat, Treated;
      ghost var first, later := out + delayed, Concat(waiting);
      UnfreedRest(first, later, log);
      DistinctParts(first, later);
      InBuckets(waiting);
      TreatedConcat(first, later);
      PurgeInTurn();
      assert log == old(log) + (Treated(first) + Treated(later));
    }

    method PurgeInTurn()
      requires IsQueue(outqueue, out) && IsQueue(delayQueue, delayed) && Unfreed(out + delayed, log)
      requires BucketsFrom(waitpdu, waiting, 0) && Unfreed(Concat(waiting), log + Treated(out + delayed))
      requires waitpduLen == |Concat(waiting)|
      requires forall p :: p in Pdus(waiting) ==> p !in out + delayed
      modifies this, waitpdu, out, delayed, Pdus(waiting)
      ensures Valid() && out == delayed == Concat(waiting) == []
      ensures log == old(log) + Treated(old(out + delayed)) + Treated(old(Concat(waiting)))
    {
      hide Concat, Treated;
      var taken, first := TakeOut();
      Drain(taken, first);
      PurgeBuckets();
      assert All() == [];
    }

    /** The out queue with the delay queue behind it, taken off the context. */
    method TakeOut() returns (head: Node?<Pdu>, ghost pdus: seq<Entry>)
      requires IsQueue(outqueue, out) && IsQueue(delayQueue, delayed) && Distinct(out + delayed)
      modifies this`outqueue, this`delayQueue, this`outqueueLen, this`delayQueueLen, this`out, this`delayed, out
      ensures pdus == old(out + delayed) && Linked(pdus) && head == First(pdus)
      ensures IsQueue(outqueue, out) && IsQueue(delayQueue, delayed)
      ensures out == delayed == [] && outqueueLen == delayQueueLen == 0
    {
      head := outqueue.head;
      Splice();
      if outqueue.tail == null {
        head := delayQueue.head;
      }
      delayQueue, delayQueueLen := EmptyQueue, 0;
      outqueue, outqueueLen := EmptyQueue, 0;
      pdus := out + delayed;
      out, delayed := [], [];
    }

    method Splice()
      requires IsQueue(outqueue, out) && IsQueue(delayQueue, delayed) && Distinct(out + delayed)
      modifies out
      ensures Linked(out + delayed)
    {
      DistinctParts(out, delayed);
      if outqueue.tail != null {
        outqueue.tail.next := delayQueue.head;
      }
      ghost var all := out + delayed;
      forall k | 0 <= k < |all|
        ensures all[k].next == After(all, k)
      {
        if k < |out| {
          assert all[k] == out[k];
          assert old(out[k].next) == After(out, k);
        } else {
          assert all[k] == delayed[k - |out|] && all[k] !in out;
          assert old(delayed[k - |out|].next) == After(delayed, k - |out|);
        }
      }
    }

    method PurgeBucket(i: nat, ghost spines: seq<seq<Entry>>)
      requires i < |spines| && BucketsFrom(waitpdu, spines, i) && Unfreed(Concat(spines[i..]), log)
      modifies this`log, this`waitpduLen, waitpdu, spines[i]
      ensures BucketsFrom(waitpdu, spines, i + 1) && Unfreed(Concat(spines[i + 1..]), log)
      ensures forall j :: 0 <= j < waitpdu.Length ==> waitpdu[j] == if j == i then EmptyQueue else old(waitpdu[j])
      ensures Then(log, Treated(Concat(spines[i + 1..]))) == Then(old(log), Treated(Concat(spines[i..])))
      ensures waitpduLen == 0
    {
      hide Concat, Treated;
      NextBucket(spines, i);
      UnfreedRest(spines[i], Concat(spines[i + 1..]), log);
      var head := waitpdu[i].head;
      waitpdu[i] := EmptyQueue;
      waitpduLen := 0;
      Drain(head, spines[i]);
    }

    /** The buckets, one after the other. */
    method PurgeBuckets()
      requires BucketsFrom(waitpdu, waiting, 0) && Unfreed(Concat(waiting), log)
      requires waitpduLen == |Concat(waiting)|
      modifies this`log, this`waiting, this`waitpduLen, waitpdu, Pdus(waiting)
      ensures BucketsFrom(waitpdu, waiting, 0) && Concat(waiting) == [] && waitpduLen == 0
      ensures log == old(log) + Treated(old(Concat(waiting)))
    {
      EmptyBuckets(waiting);
      waiting := seq(|waiting|, _ => []);
      ConcatEmpty(waiting);
    }

    method EmptyBuckets(ghost spines: seq<seq<Entry>>)
      requires BucketsFrom(waitpdu, spines, 0) && Unfreed(Concat(spines), log)
      requires waitpduLen == |Concat(spines)|
      modifies this`log, this`waitpduLen, waitpdu, Pdus(spines)
      ensures forall j :: 0 <= j < waitpdu.Length ==> waitpdu[j] == EmptyQueue
      ensures log == old(log) + Treated(Concat(spines)) && waitpduLen == 0
    {
      var i := 0;
      assert spines[0..] == spines;
      while i < waitpdu.Length
        modifies this`log, this`waitpduLen, waitpdu, Pdus(spines)
        invariant 0 <= i <= waitpdu.Length == |spines| && BucketsFrom(waitpdu, spines, i)
        invariant forall j :: 0 <= j < i ==> waitpdu[j] == EmptyQueue
        invariant Unfreed(Concat(spines[i..]), log)
        invariant Then(log, Treated(Concat(spines[i..]))) == old(log) + Treated(Concat(spines))
        invariant waitpduLen == if i == 0 then |Concat(spines)| else 0
      {
        hide Concat, Treated, Unfreed, Then, BucketsFrom;
        assert forall k :: 0 <= k < |spines[i]| ==> spines[i][k] in Pdus(spines);
        PurgeBucket(i, spines);
        i := i + 1;
      }
    }
  }
}
