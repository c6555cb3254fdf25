/**
 * JavaScript's `Array.prototype.sort` with a string key: a stable sort that
 * puts elements in ascending order of their key. Stated here as an insertion
 * sort, which is stable by construction; what the report relies on is proved
 * about it: the result is ordered, it is a permutation of the input, and
 * elements with equal keys keep their relative order.
 */
module Sorting {
  import opened Text

  /** Inserts `x` after every element of `s`, from the back, whose key is not
      above `x`'s key. */
  function Insert<T>(s: seq<T>, x: T, key: T -> string): seq<T>
    decreases |s|
  {
    if s == [] || Below(key(s[|s| - 1]), key(x)) then s + [x]
    else Insert(s[..|s| - 1], x, key) + [s[|s| - 1]]
  }

  /** The sorted copy of `s`. */
  function SortBy<T>(s: seq<T>, key: T -> string): seq<T>
    decreases |s|
  {
    if s == [] then [] else Insert(SortBy(s[..|s| - 1], key), s[|s| - 1], key)
  }

  ghost predicate SortedBy<T>(s: seq<T>, key: T -> string) {
    forall i, j :: 0 <= i < j < |s| ==> Below(key(s[i]), key(s[j]))
  }

  /** The elements of `s` whose key is `c`, in their order in `s`. */
  function KeyRun<T>(s: seq<T>, key: T -> string, c: string): (r: seq<T>)
    ensures |r| <= |s|
    decreases |s|
  {
    if s == [] then []
    else KeyRun(s[..|s| - 1], key, c) + (if key(s[|s| - 1]) == c then [s[|s| - 1]] else [])
  }

  lemma {:induction false} KeyRunAppend<T>(a: seq<T>, b: seq<T>, key: T -> string, c: string)
    ensures KeyRun(a + b, key, c) == KeyRun(a, key, c) + KeyRun(b, key, c)
    decreases |b|
  {
    if b == [] {
      assert a + b == a;
    } else {
      var b', y := b[..|b| - 1], b[|b| - 1];
      assert (a + b)[..|a + b| - 1] == a + b';
      KeyRunAppend(a, b', key, c);
    }
  }

  lemma {:induction false} InsertPermutes<T>(s: seq<T>, x: T, key: T -> string)
    ensures multiset(Insert(s, x, key)) == multiset(s) + multiset{x}
    decreases |s|
  {
    if s == [] || Below(key(s[|s| - 1]), key(x)) {
    } else {
      var s', l := s[..|s| - 1], s[|s| - 1];
      assert s == s' + [l];
      InsertPermutes(s', x, key);
    }
  }

  /** Inserting into an ordered sequence keeps it ordered. */
  lemma {:induction false} InsertSorted<T>(s: seq<T>, x: T, key: T -> string)
    requires SortedBy(s, key)
    ensures SortedBy(Insert(s, x, key), key)
    ensures forall i :: 0 <= i < |Insert(s, x, key)| ==>
              Insert(s, x, key)[i] == x || exists j :: 0 <= j < |s| && Insert(s, x, key)[i] == s[j]
    decreases |s|
  {
    var r := Insert(s, x, key);
    if s == [] {
    } else if Below(key(s[|s| - 1]), key(x)) {
      assert forall i :: 0 <= i < |s| ==> r[i] == s[i];
      forall i, j | 0 <= i < j < |r| ensures Below(key(r[i]), key(r[j])) {
        if j == |s| && i < |s| - 1 {
          BelowTransitive(key(s[i]), key(s[|s| - 1]), key(x));
        }
      }
    } else {
      var s', l := s[..|s| - 1], s[|s| - 1];
      assert SortedBy(s', key);
      InsertSorted(s', x, key);
      var r' := Insert(s', x, key);
      assert r == r' + [l];
      BelowTotal(key(l), key(x));
      forall i | 0 <= i < |r'| ensures Below(key(r'[i]), key(l)) {
        if r'[i] != x {
          var j :| 0 <= j < |s'| && r'[i] == s'[j];
          assert s[j] == s'[j];
        }
      }
      forall i | 0 <= i < |r| && r[i] != x ensures exists j :: 0 <= j < |s| && r[i] == s[j] {
        if i < |r'| {
          var j :| 0 <= j < |s'| && r'[i] == s'[j];
          assert r[i] == s[j];
        } else {
          assert r[i] == s[|s| - 1];
        }
      }
    }
  }

  /** An inserted element lands after every element with its key. */
  lemma {:induction false} InsertKeyRun<T>(s: seq<T>, x: T, key: T -> string, c: string)
    ensures KeyRun(Insert(s, x, key), key, c) == KeyRun(s, key, c) + KeyRun([x], key, c)
    decreases |s|
  {
    if s == [] || Below(key(s[|s| - 1]), key(x)) {
      KeyRunAppend(s, [x], key, c);
    } else {
      var s', l := s[..|s| - 1], s[|s| - 1];
      assert s == s' + [l];
      InsertKeyRun(s', x, key, c);
      KeyRunAppend(Insert(s', x, key), [l], key, c);
      KeyRunAppend(s', [l], key, c);
      BelowReflexive(key(x));
      assert [x][..0] == [] && [l][..0] == [];
    }
  }

  /** The sorted copy is ordered. */
  lemma {:induction false} SortBySorted<T>(s: seq<T>, key: T -> string)
    ensures SortedBy(SortBy(s, key), key)
    decreases |s|
  {
    if s != [] {
      SortBySorted(s[..|s| - 1], key);
      InsertSorted(SortBy(s[..|s| - 1], key), s[|s| - 1], key);
    }
  }

  /** The sorted copy holds the same elements, as often. */
  lemma {:induction false} SortByPermutes<T>(s: seq<T>, key: T -> string)
    ensures multiset(SortBy(s, key)) == multiset(s)
    decreases |s|
  {
    if s != [] {
      SortByPermutes(s[..|s| - 1], key);
      InsertPermutes(SortBy(s[..|s| - 1], key), s[|s| - 1], key);
      assert s == s[..|s| - 1] + [s[|s| - 1]];
    }
  }

  /** The sort is stable: the elements with any one key come out in the order
      they went in. */
  lemma {:induction false} SortByStable<T>(s: seq<T>, key: T -> string, c: string)
    ensures KeyRun(SortBy(s, key), key, c) == KeyRun(s, key, c)
    decreases |s|
  {
    if s != [] {
      var s', x := s[..|s| - 1], s[|s| - 1];
      SortByStable(s', key, c);
      InsertKeyRun(SortBy(s', key), x, key, c);
      assert [x][..0] == [];
    }
  }
}
