/**
 * The action-note batch accumulator of `addActionNoteBatch`: each answer is
 * written into a sparse array at the index the host names, every call counts
 * as one answer, and once the count reaches the number of URLs the usable
 * answers are concatenated in index order.
 */
module Batches {
  import opened Wrappers
  import opened Records

  /** One answer: an object whose `value` is an array of notes, or anything else
      (a `null`, an object without such a `value`), which the merge skips. */
  datatype Payload = Notes(notes: seq<ActionNote>) | Unusable

  /** One slot of the sparse array; `None` is a hole. */
  type Slots = seq<Option<Payload>>

  /** One answer as the host delivers it. */
  datatype Arrival = Arrival(index: int, payload: Payload)

  /** `actionNoteBatches[index] = payload`: an index at or past the end grows the
      array, leaving holes; a negative index names a plain property, which
      holds no element. */
  function Store(slots: Slots, index: int, p: Payload): (r: Slots)
    ensures index < 0 ==> r == slots
    ensures index >= 0 ==> |r| == (if index < |slots| then |slots| else index + 1) && r[index] == Some(p)
    ensures forall i :: 0 <= i < |r| && i != index ==> r[i] == (if i < |slots| then slots[i] else None)
  {
    if index < 0 then slots
    else if index < |slots| then slots[index := Some(p)]
    else slots + seq(index - |slots|, _ => None) + [Some(p)]
  }

  /** Two answers for different indices can arrive in either order. */
  lemma StoreCommutes(slots: Slots, i: int, p: Payload, j: int, q: Payload)
    requires i != j
    ensures Store(Store(slots, i, p), j, q) == Store(Store(slots, j, q), i, p)
  {
  }

  /** The notes of one slot, as the merge takes them. */
  function NotesOf(slot: Option<Payload>): seq<ActionNote> {
    if slot.Some? && slot.value.Notes? then slot.value.notes else []
  }

  /** The merge: the notes of the usable slots, in index order. */
  function Combine(slots: Slots): seq<ActionNote>
    decreases |slots|
  {
    if slots == [] then [] else Combine(slots[..|slots| - 1]) + NotesOf(slots[|slots| - 1])
  }

  /** A note is in the merge exactly when a usable slot holds it. */
  lemma {:induction false} CombineHolds(slots: Slots, n: ActionNote)
    ensures n in Combine(slots) <==> exists i :: 0 <= i < |slots| && n in NotesOf(slots[i])
    decreases |slots|
  {
    if slots != [] {
      var pre := slots[..|slots| - 1];
      CombineHolds(pre, n);
      assert forall i :: 0 <= i < |pre| ==> pre[i] == slots[i];
      if n in Combine(pre) {
        var i :| 0 <= i < |pre| && n in NotesOf(pre[i]);
        assert n in NotesOf(slots[i]);
      }
    }
  }

  /** The merge as the source runs it: a `forEach` over the array pushing the
      notes of each usable slot. */
  method CombineBatches(slots: Slots) returns (combined: seq<ActionNote>)
    ensures combined == Combine(slots)
  {
    combined := [];
    var i := 0;
    while i < |slots|
      invariant 0 <= i <= |slots|
      invariant combined == Combine(slots[..i])
    {
      assert slots[..i + 1][..i] == slots[..i];
      var batch := slots[i];
      if batch.Some? && batch.value.Notes? {
        combined := combined + batch.value.notes;
      }
      i := i + 1;
    }
    assert slots[..i] == slots;
  }

  /** The answers stored one after another. */
  function StoreAll(slots: Slots, arrivals: seq<Arrival>): Slots
    decreases |arrivals|
  {
    if arrivals == [] then slots
    else
      var a := arrivals[|arrivals| - 1];
      Store(StoreAll(slots, arrivals[..|arrivals| - 1]), a.index, a.payload)
  }

  /** No two answers name the same index. */
  predicate DistinctIndices(arrivals: seq<Arrival>) {
    forall j, j' :: 0 <= j < j' < |arrivals| ==> arrivals[j].index != arrivals[j'].index
  }

  /** Some answer reaches index `i` or beyond. */
  ghost predicate Reaches(arrivals: seq<Arrival>, i: nat) {
    exists j :: 0 <= j < |arrivals| && arrivals[j].index >= i
  }

  /** Some answer names index `i`. */
  ghost predicate Names(arrivals: seq<Arrival>, i: nat) {
    exists j :: 0 <= j < |arrivals| && arrivals[j].index == i
  }

  /** The array after the answers is as long as the furthest index needs. */
  lemma {:induction false} StoreAllLength(slots: Slots, arrivals: seq<Arrival>, i: nat)
    ensures i < |StoreAll(slots, arrivals)| <==> i < |slots| || Reaches(arrivals, i)
    decreases |arrivals|
  {
    if arrivals == [] {
      return;
    }
    var pre, a := arrivals[..|arrivals| - 1], arrivals[|arrivals| - 1];
    StoreAllLength(slots, pre, i);
    if Reaches(pre, i) {
      var j :| 0 <= j < |pre| && pre[j].index >= i;
      assert arrivals[j].index >= i;
    }
    if Reaches(arrivals, i) && !Reaches(pre, i) {
      var j :| 0 <= j < |arrivals| && arrivals[j].index >= i;
      if j < |pre| {
        assert pre[j].index >= i;
      }
    }
    if a.index >= i {
      assert arrivals[|pre|].index >= i;
    }
  }

  /** Each index an answer names holds that answer, and every other index what
      it held before or a hole. */
  lemma {:induction false} StoreAllAt(slots: Slots, arrivals: seq<Arrival>)
    requires DistinctIndices(arrivals)
    ensures forall j :: 0 <= j < |arrivals| && arrivals[j].index >= 0 ==>
              arrivals[j].index < |StoreAll(slots, arrivals)| &&
              StoreAll(slots, arrivals)[arrivals[j].index] == Some(arrivals[j].payload)
    ensures forall i: nat :: i < |StoreAll(slots, arrivals)| && !Names(arrivals, i) ==>
              StoreAll(slots, arrivals)[i] == if i < |slots| then slots[i] else None
    decreases |arrivals|
  {
    if arrivals == [] {
      return;
    }
    var pre, a := arrivals[..|arrivals| - 1], arrivals[|arrivals| - 1];
    assert forall j :: 0 <= j < |pre| ==> pre[j] == arrivals[j];
    StoreAllAt(slots, pre);
    forall i: nat ensures Names(pre, i) ==> Names(arrivals, i) {
      if Names(pre, i) {
        var j :| 0 <= j < |pre| && pre[j].index == i;
        assert arrivals[j].index == i;
      }
    }
    assert a.index >= 0 ==> Names(arrivals, a.index) by {
      assert arrivals[|pre|] == a;
    }
    var r0, r := StoreAll(slots, pre), StoreAll(slots, arrivals);
    assert r == Store(r0, a.index, a.payload);
    forall i: nat | i < |r| && !Names(arrivals, i)
      ensures r[i] == if i < |slots| then slots[i] else None
    {
      if i != a.index {
        assert i < |r0| ==> r[i] == r0[i];
        StoreAllLength(slots, pre, i);
      }
    }
  }

  /** Answers for distinct indices fill the same array whatever order they
      arrive in. */
  lemma StoreAllOrderFree(slots: Slots, arrivals: seq<Arrival>, arrivals': seq<Arrival>)
    requires DistinctIndices(arrivals) && DistinctIndices(arrivals')
    requires multiset(arrivals) == multiset(arrivals')
    ensures StoreAll(slots, arrivals) == StoreAll(slots, arrivals')
  {
    StoreAllAt(slots, arrivals);
    StoreAllAt(slots, arrivals');
    var r, r' := StoreAll(slots, arrivals), StoreAll(slots, arrivals');
    forall i: nat ensures Reaches(arrivals, i) <==> Reaches(arrivals', i) {
      if Reaches(arrivals, i) {
        var j :| 0 <= j < |arrivals| && arrivals[j].index >= i;
        assert arrivals[j] in multiset(arrivals');
        var j' :| 0 <= j' < |arrivals'| && arrivals'[j'] == arrivals[j];
      }
      if Reaches(arrivals', i) {
        var j' :| 0 <= j' < |arrivals'| && arrivals'[j'].index >= i;
        assert arrivals'[j'] in multiset(arrivals);
        var j :| 0 <= j < |arrivals| && arrivals[j] == arrivals'[j'];
      }
    }
    StoreAllLength(slots, arrivals, |r|);
    StoreAllLength(slots, arrivals', |r|);
    StoreAllLength(slots, arrivals, |r'|);
    StoreAllLength(slots, arrivals', |r'|);
    forall i: nat ensures Names(arrivals, i) <==> Names(arrivals', i) {
      if Names(arrivals, i) {
        var j :| 0 <= j < |arrivals| && arrivals[j].index == i;
        assert arrivals[j] in multiset(arrivals');
        var j' :| 0 <= j' < |arrivals'| && arrivals'[j'] == arrivals[j];
      }
      if Names(arrivals', i) {
        var j' :| 0 <= j' < |arrivals'| && arrivals'[j'].index == i;
        assert arrivals'[j'] in multiset(arrivals);
        var j :| 0 <= j < |arrivals| && arrivals[j] == arrivals'[j'];
      }
    }
    forall i | 0 <= i < |r| ensures r[i] == r'[i] {
      if Names(arrivals, i) {
        var j :| 0 <= j < |arrivals| && arrivals[j].index == i;
        assert arrivals[j] in multiset(arrivals');
        var j' :| 0 <= j' < |arrivals'| && arrivals'[j'] == arrivals[j];
      }
    }
  }

  /** The tracking state between `processSalesData` and the last answer. */
  datatype Collector = Collector(slots: Slots, expected: nat, received: nat)

  /** What one answer leads to: more waiting, or the merged notes. */
  datatype Outcome = Waiting(next: Collector) | Complete(notes: seq<ActionNote>)

  /** One call of `addActionNoteBatch`: store the answer, count the call, and
      merge once the count reaches the number expected. */
  function Deliver(c: Collector, a: Arrival): (o: Outcome)
    ensures o.Complete? <==> c.received + 1 >= c.expected
    ensures o.Waiting? ==> o.next.received == c.received + 1 && o.next.expected == c.expected
  {
    var slots := Store(c.slots, a.index, a.payload);
    if c.received + 1 >= c.expected then Complete(Combine(slots))
    else Waiting(Collector(slots, c.expected, c.received + 1))
  }

  /** Answers delivered one after another, while the merge has not happened. */
  function DeliverAll(c: Collector, arrivals: seq<Arrival>): Outcome
    decreases |arrivals|
  {
    if arrivals == [] then Waiting(c)
    else
      match DeliverAll(c, arrivals[..|arrivals| - 1])
      case Complete(n) => Complete(n)
      case Waiting(c') => Deliver(c', arrivals[|arrivals| - 1])
  }

  /** Fewer calls than outstanding answers leave the merge pending, with the
      answers stored and counted. */
  lemma {:induction false} DeliverAllWaits(c: Collector, arrivals: seq<Arrival>)
    requires c.received + |arrivals| < c.expected
    ensures DeliverAll(c, arrivals) ==
              Waiting(Collector(StoreAll(c.slots, arrivals), c.expected, c.received + |arrivals|))
    decreases |arrivals|
  {
    if arrivals != [] {
      DeliverAllWaits(c, arrivals[..|arrivals| - 1]);
    }
  }

  /** The merge happens on the call that brings the count to the number
      expected, whichever indices the calls name, and merges what is stored. */
  lemma DeliverAllCompletes(c: Collector, arrivals: seq<Arrival>)
    requires c.received < c.expected && c.received + |arrivals| == c.expected
    ensures DeliverAll(c, arrivals) == Complete(Combine(StoreAll(c.slots, arrivals)))
  {
    var pre := arrivals[..|arrivals| - 1];
    DeliverAllWaits(c, pre);
  }

  /** Answers for distinct indices merge to the same notes in whatever order
      they arrive. */
  lemma DeliverAllOrderFree(c: Collector, arrivals: seq<Arrival>, arrivals': seq<Arrival>)
    requires c.received < c.expected && c.received + |arrivals| == c.expected
    requires DistinctIndices(arrivals) && DistinctIndices(arrivals')
    requires multiset(arrivals) == multiset(arrivals')
    ensures DeliverAll(c, arrivals) == DeliverAll(c, arrivals')
  {
    assert |arrivals| == |arrivals'| by {
      assert |multiset(arrivals)| == |multiset(arrivals')|;
    }
    DeliverAllCompletes(c, arrivals);
    DeliverAllCompletes(c, arrivals');
    StoreAllOrderFree(c.slots, arrivals, arrivals');
  }

  /** Because calls are counted, not indices, an answer delivered twice
      completes the merge early: with two answers expected, batch 0 arriving
      twice merges batch 0 alone and batch 1 is never waited for. */
  lemma RedeliveryCompletesEarly(n0: seq<ActionNote>)
    ensures var c := Collector([], 2, 0);
            var a := Arrival(0, Notes(n0));
            DeliverAll(c, [a, a]) == Complete(n0)
  {
    var c := Collector([], 2, 0);
    var a := Arrival(0, Notes(n0));
    assert [a, a][..1] == [a] && [a][..0] == [];
    assert DeliverAll(c, [a]) == Waiting(Collector(Store([], 0, Notes(n0)), 2, 1));
    var slots := Store(Store([], 0, Notes(n0)), 0, Notes(n0));
    assert slots == [Some(Notes(n0))];
    assert Combine(slots) == Combine([]) + n0;
  }
}
