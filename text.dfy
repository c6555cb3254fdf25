/**
 * String helpers standing in for the JavaScript string operations the report
 * uses: `trim`, `toLowerCase`, `toUpperCase`, and code-point string ordering.
 */
module Text {

  /** The characters JavaScript's `String.prototype.trim` strips:
      the WhiteSpace and LineTerminator code points of ECMAScript. */
  predicate IsSpace(c: char) {
    || c == ' ' || c == '\t' || c == '\n' || c == '\r'
    || c == '\U{B}' || c == '\U{C}' || c == '\U{A0}' || c == '\U{1680}'
    || ('\U{2000}' <= c <= '\U{200A}')
    || c == '\U{2028}' || c == '\U{2029}' || c == '\U{202F}' || c == '\U{205F}'
    || c == '\U{3000}' || c == '\U{FEFF}'
  }

  /** A string that `trim` turns into "" (a falsy value in the source). */
  predicate IsBlank(s: string) {
    forall i :: 0 <= i < |s| ==> IsSpace(s[i])
  }

  /** JavaScript's `s.trim()`: `s` without white space at either end
      (see `TrimStripsEnds`); it is empty exactly when `s` is blank. */
  function Trim(s: string): (r: string)
    ensures r == [] <==> IsBlank(s)
    decreases |s|
  {
    if s == [] then s
    else if IsSpace(s[0]) then
      assert IsBlank(s) <==> IsBlank(s[1..]) by {
        assert forall i :: 0 < i < |s| ==> s[i] == s[1..][i - 1];
      }
      Trim(s[1..])
    else if IsSpace(s[|s| - 1]) then
      assert IsBlank(s) <==> IsBlank(s[..|s| - 1]) by {
        assert !IsSpace(s[0]);
      }
      Trim(s[..|s| - 1])
    else s
  }

  /** What `Trim` keeps starts and ends with a character that is not white space. */
  lemma {:induction false} TrimEnds(s: string)
    ensures var r := Trim(s); r == [] || (!IsSpace(r[0]) && !IsSpace(r[|r| - 1]))
    decreases |s|
  {
    if s != [] && IsSpace(s[0]) {
      TrimEnds(s[1..]);
    } else if s != [] && IsSpace(s[|s| - 1]) {
      TrimEnds(s[..|s| - 1]);
    }
  }

  /** What `Trim` removes is white space at the two ends of `s`. */
  lemma TrimInfix(s: string)
    ensures exists lo: nat :: lo + |Trim(s)| <= |s| && s == s[..lo] + Trim(s) + s[lo + |Trim(s)|..]
              && IsBlank(s[..lo]) && IsBlank(s[lo + |Trim(s)|..])
  {
    var lo := TrimStart(s);
  }

  /** How many characters `Trim` strips from the front of `s`. */
  lemma {:induction false} TrimStart(s: string) returns (lo: nat)
    ensures lo + |Trim(s)| <= |s| && s == s[..lo] + Trim(s) + s[lo + |Trim(s)|..]
    ensures IsBlank(s[..lo]) && IsBlank(s[lo + |Trim(s)|..])
    decreases |s|
  {
    var r := Trim(s);
    if s == [] {
      lo := 0;
      assert s == s[..0] + r + s[0..];
    } else if IsSpace(s[0]) {
      var lo' := TrimStart(s[1..]);
      assert r == Trim(s[1..]);
      lo := lo' + 1;
      InfixFront(s, lo', r);
    } else if IsSpace(s[|s| - 1]) {
      lo := TrimStart(s[..|s| - 1]);
      assert r == Trim(s[..|s| - 1]);
      InfixBack(s, lo, r);
    } else {
      lo := 0;
      assert s == s[..0] + r + s[|s|..];
    }
  }

  /** `r` sits between blank runs in `s[1..]`, and `s[0]` is white space. */
  lemma InfixFront(s: string, lo: nat, r: string)
    requires s != [] && IsSpace(s[0])
    requires var u := s[1..];
      lo + |r| <= |u| && u == u[..lo] + r + u[lo + |r|..] && IsBlank(u[..lo]) && IsBlank(u[lo + |r|..])
    ensures lo + 1 + |r| <= |s| && s == s[..lo + 1] + r + s[lo + 1 + |r|..]
    ensures IsBlank(s[..lo + 1]) && IsBlank(s[lo + 1 + |r|..])
  {
    var u := s[1..];
    assert s[..lo + 1] == [s[0]] + u[..lo];
    assert s[lo + 1 + |r|..] == u[lo + |r|..];
    assert s == [s[0]] + u;
    SpacesBlank([s[0]], u[..lo]);
  }

  /** `r` sits between blank runs in `s` without its white last character. */
  lemma InfixBack(s: string, lo: nat, r: string)
    requires s != [] && IsSpace(s[|s| - 1])
    requires var u := s[..|s| - 1];
      lo + |r| <= |u| && u == u[..lo] + r + u[lo + |r|..] && IsBlank(u[..lo]) && IsBlank(u[lo + |r|..])
    ensures lo + |r| <= |s| && s == s[..lo] + r + s[lo + |r|..]
    ensures IsBlank(s[..lo]) && IsBlank(s[lo + |r|..])
  {
    var u := s[..|s| - 1];
    assert s[..lo] == u[..lo];
    assert s[lo + |r|..] == u[lo + |r|..] + [s[|s| - 1]];
    assert s == u + [s[|s| - 1]];
    SpacesBlank(u[lo + |r|..], [s[|s| - 1]]);
  }

  lemma SpacesBlank(a: string, b: string)
    requires IsBlank(a) && IsBlank(b)
    ensures IsBlank(a + b)
  {
    assert forall i :: 0 <= i < |a + b| ==> (a + b)[i] == if i < |a| then a[i] else b[i - |a|];
  }

  /** `toLowerCase` on one character; only ASCII letters are folded. */
  function LowerChar(c: char): char {
    if 'A' <= c <= 'Z' then (c as int + 32) as char else c
  }

  /** `toUpperCase` on one character; only ASCII letters are folded. */
  function UpperChar(c: char): char {
    if 'a' <= c <= 'z' then (c as int - 32) as char else c
  }

  /** `s.toLowerCase()`, character by character. */
  function Lower(s: string): (r: string)
    ensures |r| == |s| && forall i :: 0 <= i < |s| ==> r[i] == LowerChar(s[i])
  {
    seq(|s|, i requires 0 <= i < |s| => LowerChar(s[i]))
  }

  /** `s.toUpperCase()`, character by character. */
  function Upper(s: string): (r: string)
    ensures |r| == |s| && forall i :: 0 <= i < |s| ==> r[i] == UpperChar(s[i])
  {
    seq(|s|, i requires 0 <= i < |s| => UpperChar(s[i]))
  }

  /** Lexicographic "less than or equal" on code points. It agrees with the
      UTF-16 code-unit order of JavaScript's default `Array.prototype.sort`
      for characters below U+10000. */
  predicate Below(a: string, b: string) {
    if a == [] then true
    else if b == [] then false
    else a[0] < b[0] || (a[0] == b[0] && Below(a[1..], b[1..]))
  }

  lemma {:induction false} BelowReflexive(a: string)
    ensures Below(a, a)
  {
    if a != [] {
      BelowReflexive(a[1..]);
    }
  }

  lemma {:induction false} BelowTotal(a: string, b: string)
    ensures Below(a, b) || Below(b, a)
  {
    if a != [] && b != [] && a[0] == b[0] {
      BelowTotal(a[1..], b[1..]);
    }
  }

  lemma {:induction false} BelowTransitive(a: string, b: string, c: string)
    requires Below(a, b) && Below(b, c)
    ensures Below(a, c)
  {
    if a != [] && b != [] && c != [] && a[0] == b[0] == c[0] {
      BelowTransitive(a[1..], b[1..], c[1..]);
    }
  }

  lemma {:induction false} BelowAntisymmetric(a: string, b: string)
    requires Below(a, b) && Below(b, a)
    ensures a == b
  {
    if a != [] && b != [] {
      BelowAntisymmetric(a[1..], b[1..]);
      assert a == [a[0]] + a[1..] && b == [b[0]] + b[1..];
    }
  }

  /** No element occurs twice. */
  predicate NoDuplicates<T(==)>(s: seq<T>) {
    forall i, j :: 0 <= i < j < |s| ==> s[i] != s[j]
  }

  /** In a sequence without repeats every element occurs at most once. */
  lemma {:induction false} SingleCount<T>(s: seq<T>, x: T)
    requires NoDuplicates(s)
    ensures multiset(s)[x] <= 1
    decreases |s|
  {
    if s != [] {
      var s', y := s[..|s| - 1], s[|s| - 1];
      assert s == s' + [y];
      SingleCount(s', x);
      if x == y {
        assert x !in s' by {
          forall i | 0 <= i < |s'| ensures s'[i] != x {
            assert s[i] == s'[i];
          }
        }
      }
    }
  }

  /** A rearrangement of a sequence without repeats has none either. */
  lemma NoDuplicatesPermuted<T>(s: seq<T>, t: seq<T>)
    requires NoDuplicates(s) && multiset(s) == multiset(t)
    ensures NoDuplicates(t)
  {
    forall i, j | 0 <= i < j < |t| ensures t[i] != t[j] {
      if t[i] == t[j] {
        var x := t[i];
        assert t == t[..j] + [t[j]] + t[j + 1..];
        assert t[..j] == t[..i] + [t[i]] + t[i + 1..j];
        assert multiset(t)[x] >= 2;
        SingleCount(s, x);
        assert false;
      }
    }
  }
}
