/**
 * The action-note selector of `generateReport`: one pass over the open action
 * notes that files each note under `lower(Contact) + "-" + lower(UserRef)` and
 * keeps, per key, the note the "closest to today, past first" rule prefers.
 * The notes object is a map here; only lookups by key are ever made on it.
 */
module Selector {
  import opened Wrappers
  import opened Text
  import opened Records

  /** The pass skips a note without a `Contact` or a `UserRef`. */
  predicate Keyed(n: ActionNote) {
    n.contact != "" && n.userRef != ""
  }

  /** The note takes part and is filed under `k`. */
  predicate Files(n: ActionNote, k: string) {
    Keyed(n) && OwnerKey(n.contact, n.userRef) == k
  }

  function Abs(x: int): nat {
    if x < 0 then -x else x
  }

  /** Whether `current` displaces the note `existing` stored under its key, by
      the branches of the source: a first note always goes in, a dated note
      beats an undated one, two past dates keep the earlier, two dates from
      today on keep the one nearer today, and a past date beats a future one.
      Taken together the rule is plainly "an earlier due date wins", and
      `today` does not matter. */
  function ShouldReplace(existing: Option<ActionNote>, current: ActionNote, today: int): (r: bool)
    ensures r <==> existing.None? ||
                   (current.dueDate.Some? &&
                    (existing.value.dueDate.None? || current.dueDate.value < existing.value.dueDate.value))
  {
    if existing.None? then true
    else
      var cur, ex := current.dueDate, existing.value.dueDate;
      if ex.None? && cur.Some? then true
      else if ex.Some? && cur.None? then false
      else if cur.Some? && ex.Some? then
        var currentDiff, existingDiff := Abs(cur.value - today), Abs(ex.value - today);
        var currentIsPast, existingIsPast := cur.value < today, ex.value < today;
        if currentIsPast && existingIsPast then cur.value < ex.value
        else if !currentIsPast && !existingIsPast then currentDiff < existingDiff
        else if currentIsPast && !existingIsPast then true
        else false
      else false
  }

  /** The notes object after the pass over `notes`. */
  function Select(notes: seq<ActionNote>, today: int): map<string, ActionNote>
    decreases |notes|
  {
    if notes == [] then map[]
    else
      var m, n := Select(notes[..|notes| - 1], today), notes[|notes| - 1];
      if !Keyed(n) then m
      else
        var k := OwnerKey(n.contact, n.userRef);
        if ShouldReplace(if k in m then Some(m[k]) else None, n, today) then m[k := n] else m
  }

  /** Some note is filed under `k`. */
  ghost predicate Filed(notes: seq<ActionNote>, k: string) {
    exists j :: 0 <= j < |notes| && Files(notes[j], k)
  }

  /** `notes[i]` is the note kept under `k`: it is filed under `k`; if any note
      under `k` has a due date, it has the earliest; and every note under `k`
      before it is undated or due strictly later (on a tie the first one seen
      stays). */
  ghost predicate IsSelected(notes: seq<ActionNote>, k: string, i: int) {
    && 0 <= i < |notes| && Files(notes[i], k)
    && (forall j :: 0 <= j < |notes| && Files(notes[j], k) && notes[j].dueDate.Some? ==>
          notes[i].dueDate.Some? && notes[i].dueDate.value <= notes[j].dueDate.value)
    && (forall j :: 0 <= j < i && Files(notes[j], k) ==>
          notes[i].dueDate.Some? &&
          (notes[j].dueDate.None? || notes[j].dueDate.value > notes[i].dueDate.value))
  }

  /** At most one note fits the description. */
  lemma IsSelectedUnique(notes: seq<ActionNote>, k: string, i: int, i': int)
    requires IsSelected(notes, k, i) && IsSelected(notes, k, i')
    ensures i == i'
  {
    if i < i' {
      assert false;
    } else if i' < i {
      assert false;
    }
  }

  lemma SnocFacts(pre: seq<ActionNote>, n: ActionNote)
    ensures (pre + [n])[..|pre|] == pre
    ensures forall j :: 0 <= j < |pre| ==> (pre + [n])[j] == pre[j]
  {
  }

  /** A note under another key leaves the kept note of `k` in place. */
  lemma SelectedSnocOther(pre: seq<ActionNote>, n: ActionNote, k: string, i: int)
    requires IsSelected(pre, k, i) && !Files(n, k)
    ensures IsSelected(pre + [n], k, i)
  {
    SnocFacts(pre, n);
  }

  /** A note under `k` that is not due earlier leaves the kept note in place. */
  lemma SelectedSnocKeep(pre: seq<ActionNote>, n: ActionNote, k: string, i: int)
    requires IsSelected(pre, k, i) && Files(n, k)
    requires n.dueDate.Some? ==> pre[i].dueDate.Some? && pre[i].dueDate.value <= n.dueDate.value
    ensures IsSelected(pre + [n], k, i)
  {
    SnocFacts(pre, n);
  }

  /** A note under `k` that is due earlier than the kept one takes its place. */
  lemma SelectedSnocReplace(pre: seq<ActionNote>, n: ActionNote, k: string, i: int)
    requires IsSelected(pre, k, i) && Files(n, k) && n.dueDate.Some?
    requires pre[i].dueDate.None? || n.dueDate.value < pre[i].dueDate.value
    ensures IsSelected(pre + [n], k, |pre|)
  {
    var notes := pre + [n];
    SnocFacts(pre, n);
    forall j | 0 <= j < |notes| && Files(notes[j], k) && notes[j].dueDate.Some?
      ensures n.dueDate.value <= notes[j].dueDate.value
    {
      if j < |pre| {
        assert Files(pre[j], k) && pre[j].dueDate.Some?;
      }
    }
  }

  /** The first note under `k` is kept. */
  lemma SelectedSnocNew(pre: seq<ActionNote>, n: ActionNote, k: string)
    requires !Filed(pre, k) && Files(n, k)
    ensures IsSelected(pre + [n], k, |pre|)
  {
    SnocFacts(pre, n);
  }

  /** Key by key, the pass keeps exactly the keys some note is filed under,
      each with the note `IsSelected` describes. */
  lemma {:induction false} SelectedAt(notes: seq<ActionNote>, today: int, k: string)
    ensures k in Select(notes, today) <==> Filed(notes, k)
    ensures k in Select(notes, today) ==>
              exists i :: IsSelected(notes, k, i) && Select(notes, today)[k] == notes[i]
    decreases |notes|
  {
    if notes == [] {
      return;
    }
    var pre, n := notes[..|notes| - 1], notes[|notes| - 1];
    assert notes == pre + [n];
    SnocFacts(pre, n);
    SelectedAt(pre, today, k);
    var m0, m := Select(pre, today), Select(notes, today);
    assert Filed(notes, k) <==> Filed(pre, k) || Files(n, k) by {
      if Files(n, k) {
        assert Files(notes[|pre|], k);
      }
      if Filed(notes, k) && !Files(n, k) {
        var j :| 0 <= j < |notes| && Files(notes[j], k);
        assert Files(pre[j], k);
      }
      if Filed(pre, k) {
        var j :| 0 <= j < |pre| && Files(pre[j], k);
        assert Files(notes[j], k);
      }
    }
    if !Files(n, k) {
      assert k in m <==> k in m0;
      if k in m0 {
        var i :| IsSelected(pre, k, i) && m0[k] == pre[i];
        assert m[k] == m0[k];
        SelectedSnocOther(pre, n, k, i);
        assert IsSelected(notes, k, i) && m[k] == notes[i];
      }
    } else if k !in m0 {
      assert m == m0[k := n];
      SelectedSnocNew(pre, n, k);
      assert IsSelected(notes, k, |pre|) && m[k] == notes[|pre|];
    } else {
      var i :| IsSelected(pre, k, i) && m0[k] == pre[i];
      if n.dueDate.Some? && (pre[i].dueDate.None? || n.dueDate.value < pre[i].dueDate.value) {
        assert m == m0[k := n];
        SelectedSnocReplace(pre, n, k, i);
        assert IsSelected(notes, k, |pre|) && m[k] == notes[|pre|];
      } else {
        assert m == m0;
        SelectedSnocKeep(pre, n, k, i);
        assert IsSelected(notes, k, i) && m[k] == notes[i];
      }
    }
  }

  /** Every note kept sits under its own key. */
  lemma SelectedKeyMatches(notes: seq<ActionNote>, today: int, k: string)
    requires k in Select(notes, today)
    ensures Files(Select(notes, today)[k], k)
  {
    SelectedAt(notes, today, k);
  }

  /** The order of the notes decides nothing but ties: two orderings of the
      same notes keep a note under the same keys, with the same due date. */
  lemma SelectedDueOrderFree(notes: seq<ActionNote>, notes': seq<ActionNote>, today: int, today': int, k: string)
    requires multiset(notes) == multiset(notes')
    ensures k in Select(notes, today) <==> k in Select(notes', today')
    ensures k in Select(notes, today) ==>
              Select(notes, today)[k].dueDate == Select(notes', today')[k].dueDate
  {
    SelectedAt(notes, today, k);
    SelectedAt(notes', today', k);
    if Filed(notes, k) {
      var j :| 0 <= j < |notes| && Files(notes[j], k);
      assert notes[j] in multiset(notes');
      assert Filed(notes', k);
    }
    if Filed(notes', k) {
      var j :| 0 <= j < |notes'| && Files(notes'[j], k);
      assert notes'[j] in multiset(notes);
      assert Filed(notes, k);
    }
    if k in Select(notes, today) {
      var i :| IsSelected(notes, k, i) && Select(notes, today)[k] == notes[i];
      var i' :| IsSelected(notes', k, i') && Select(notes', today')[k] == notes'[i'];
      assert notes[i] in multiset(notes');
      var j' :| 0 <= j' < |notes'| && notes'[j'] == notes[i];
      assert notes'[i'] in multiset(notes);
      var j :| 0 <= j < |notes| && notes[j] == notes'[i'];
      assert Files(notes'[j'], k) && Files(notes[j], k);
    }
  }

  /** On a tie the first note seen stays, so the note kept (not its due date)
      depends on the order in which the notes arrive. */
  lemma TieKeepsFirstSeen()
    ensures var a := ActionNote("1", "x", "u", Some(5), None, "");
            var b := ActionNote("2", "x", "u", Some(5), None, "");
            && "x-u" in Select([a, b], 0) && Select([a, b], 0)["x-u"] == a
            && "x-u" in Select([b, a], 0) && Select([b, a], 0)["x-u"] == b
  {
    var a := ActionNote("1", "x", "u", Some(5), None, "");
    var b := ActionNote("2", "x", "u", Some(5), None, "");
    assert OwnerKey("x", "u") == "x-u" by {
      assert Lower("x") == "x" && Lower("u") == "u";
    }
    assert [a, b][..1] == [a] && [a][..0] == [];
    assert [b, a][..1] == [b] && [b][..0] == [];
    assert Select([a], 0) == map["x-u" := a];
    assert Select([b], 0) == map["x-u" := b];
  }

  /** The loop of the source, a `forEach` over the action notes updating the
      notes object. */
  method SelectActionNotes(notes: seq<ActionNote>, today: int) returns (m: map<string, ActionNote>)
    ensures m == Select(notes, today)
  {
    m := map[];
    var i := 0;
    while i < |notes|
      invariant 0 <= i <= |notes|
      invariant m == Select(notes[..i], today)
    {
      var note := notes[i];
      assert notes[..i + 1][..i] == notes[..i];
      if note.contact != "" && note.userRef != "" {
        var key := Lower(note.contact) + "-" + Lower(note.userRef);
        var existing := if key in m then Some(m[key]) else None;
        if ShouldReplace(existing, note, today) {
          m := m[key := note];
        }
      }
      i := i + 1;
    }
    assert notes[..i] == notes;
  }
}
