/**
 * Facts about sequences shared by the term parser and the redaction engine:
 * duplicate-freedom, first occurrences, multiplicities, and the order in which
 * a Python set-guarded append (or a dict built from a list) keeps elements.
 */
module Sequences {

  /** No element occurs twice. */
  predicate NoDup<T(==)>(s: seq<T>) {
    forall i, j :: 0 <= i < j < |s| ==> s[i] != s[j]
  }

  /** The position of the first occurrence of `x` in `s`. */
  function FirstIndex<T(==)>(s: seq<T>, x: T): (k: nat)
    requires x in s
    ensures k < |s| && s[k] == x
    ensures x !in s[..k]
  {
    if s[0] == x then 0
    else
      var k := FirstIndex(s[1..], x);
      assert s[..k + 1] == [s[0]] + s[1..][..k];
      k + 1
  }

  /** A first occurrence in a prefix stays the first occurrence when the sequence grows. */
  lemma {:induction false} FirstIndexInPrefix<T>(s: seq<T>, t: seq<T>, x: T)
    requires x in s
    ensures FirstIndex(s + t, x) == FirstIndex(s, x)
  {
    var k1, k2 := FirstIndex(s + t, x), FirstIndex(s, x);
    assert forall m :: 0 <= m < k1 ==> (s + t)[..k1][m] != x;
    assert (s + t)[k2] == x;
    assert forall m :: 0 <= m < k2 ==> s[..k2][m] != x;
    assert s[k1] == x;
  }

  /**
   * The elements of `s` in the order of their first occurrence, later repeats
   * dropped. Defined from the back, as a loop that appends unseen elements builds it.
   */
  function Dedup<T(==, !new)>(s: seq<T>): (r: seq<T>)
    ensures NoDup(r)
    ensures forall x :: x in r <==> x in s
    ensures |r| <= |s|
  {
    if s == [] then []
    else
      var d := Dedup(s[..|s| - 1]);
      var x := s[|s| - 1];
      assert s == s[..|s| - 1] + [x];
      if x in d then d else d + [x]
  }

  /** One more element: it is appended exactly when it has not been seen. */
  lemma {:induction false} DedupSnoc<T(!new)>(s: seq<T>, x: T)
    ensures Dedup(s + [x]) == if x in s then Dedup(s) else Dedup(s) + [x]
  {
    assert (s + [x])[..|s + [x]| - 1] == s;
  }

  /** Dedup keeps the first-occurrence order of its input. */
  lemma {:induction false} DedupFirstOccurrenceOrder<T(!new)>(s: seq<T>, i: nat, j: nat)
    requires i < j < |Dedup(s)|
    ensures FirstIndex(s, Dedup(s)[i]) < FirstIndex(s, Dedup(s)[j])
  {
    var s', x := s[..|s| - 1], s[|s| - 1];
    assert s == s' + [x];
    var d', d := Dedup(s'), Dedup(s);
    assert d[i] in s';
    FirstIndexInPrefix(s', [x], d[i]);
    if j < |d'| {
      assert d[j] == d'[j] && d[i] == d'[i];
      FirstIndexInPrefix(s', [x], d[j]);
      DedupFirstOccurrenceOrder(s', i, j);
    } else {
      assert d[j] == x && x !in s';
      assert forall m :: 0 <= m < |s'| ==> s[m] == s'[m];
    }
  }

  /** A duplicate-free sequence is its own Dedup. */
  lemma {:induction false} DedupOfNoDup<T(!new)>(s: seq<T>)
    requires NoDup(s)
    ensures Dedup(s) == s
  {
    if s != [] {
      var s', x := s[..|s| - 1], s[|s| - 1];
      assert s == s' + [x];
      assert NoDup(s');
      DedupOfNoDup(s');
      assert forall k :: 0 <= k < |s'| ==> s'[k] == s[k] != s[|s| - 1];
    }
  }

  /** The number of occurrences of `x` in `s`. */
  function Count<T(==)>(s: seq<T>, x: T): (n: nat)
    ensures n <= |s|
    ensures n > 0 <==> x in s
  {
    if s == [] then 0
    else
      assert s == s[..|s| - 1] + [s[|s| - 1]];
      Count(s[..|s| - 1], x) + (if s[|s| - 1] == x then 1 else 0)
  }

  /** In a duplicate-free sequence every element occurs exactly once. */
  lemma {:induction false} CountOfNoDup<T>(s: seq<T>, x: T)
    requires NoDup(s) && x in s
    ensures Count(s, x) == 1
  {
    var s', y := s[..|s| - 1], s[|s| - 1];
    assert s == s' + [y];
    assert NoDup(s');
    if y == x {
      assert forall k :: 0 <= k < |s'| ==> s'[k] == s[k] != s[|s| - 1];
    } else {
      CountOfNoDup(s', x);
    }
  }

  /** A prefix one longer is the prefix and one more element. */
  lemma {:induction false} PrefixSnoc<T>(s: seq<T>, i: nat)
    requires i < |s|
    ensures s[..i + 1] == s[..i] + [s[i]]
  {
  }

  /** Extending a slice by one element. */
  lemma {:induction false} AppendSliceSnoc<T>(prefix: seq<T>, s: seq<T>, j: nat)
    requires j < |s|
    ensures prefix + s[..j + 1] == (prefix + s[..j]) + [s[j]]
  {
    assert s[..j + 1] == s[..j] + [s[j]];
  }

  /** The set of elements of a sequence, built the way a loop that adds each element builds it. */
  function Elems<T>(s: seq<T>): set<T> {
    if s == [] then {} else Elems(s[..|s| - 1]) + {s[|s| - 1]}
  }

  lemma {:induction false} ElemsSnoc<T>(s: seq<T>, x: T)
    ensures Elems(s + [x]) == Elems(s) + {x}
  {
    assert (s + [x])[..|s|] == s;
  }

  lemma {:induction false} InElems<T>(s: seq<T>, x: T)
    ensures x in Elems(s) <==> x in s
  {
    if s != [] {
      var s', y := s[..|s| - 1], s[|s| - 1];
      assert s == s' + [y];
      InElems(s', x);
    }
  }
}
