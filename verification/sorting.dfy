/** Python's `list.sort(key=...)` and `sorted(...)` are stable sorts. The
    model sorts by a "sorts no later than" relation `le` (a total
    preorder) with a stable insertion sort; a stable sort's output is
    uniquely determined by `le`, so this is the same list Python
    produces. */
module Sorting {

  ghost predicate TotalPreorder<T(!new)>(le: (T, T) -> bool) {
    && (forall a, b :: le(a, b) || le(b, a))
    && (forall a, b, c :: le(a, b) && le(b, c) ==> le(a, c))
  }

  predicate SortedBy<T>(le: (T, T) -> bool, s: seq<T>) {
    forall i, j :: 0 <= i < j < |s| ==> le(s[i], s[j])
  }

  /** Inserts `x` after the leading run of elements that sort no later
      than it: the position a stable sort gives an element appended last. */
  function Insert<T>(le: (T, T) -> bool, s: seq<T>, x: T): (r: seq<T>)
    ensures |r| == |s| + 1
    ensures multiset(r) == multiset(s) + multiset{x}
  {
    if |s| == 0 then [x]
    else
      assert s == [s[0]] + s[1..];
      if le(s[0], x) then [s[0]] + Insert(le, s[1..], x) else [x] + s
  }

  /** Stable insertion sort. */
  function Sort<T>(le: (T, T) -> bool, s: seq<T>): (r: seq<T>)
    ensures |r| == |s|
    ensures multiset(r) == multiset(s)
  {
    if |s| == 0 then []
    else
      assert s == s[..|s| - 1] + [s[|s| - 1]];
      Insert(le, Sort(le, s[..|s| - 1]), s[|s| - 1])
  }

  /** The index of the first element of `s` that does not sort before
      `x` (or `|s|` when there is none). */
  function SplicePoint<T>(le: (T, T) -> bool, s: seq<T>, x: T): (k: nat)
    ensures k <= |s|
    ensures forall i :: 0 <= i < k ==> le(s[i], x)
    ensures k < |s| ==> !le(s[k], x)
  {
    if |s| == 0 || !le(s[0], x) then 0
    else 1 + SplicePoint(le, s[1..], x)
  }

  /** `Insert` splices `x` in just before the first element that does
      not sort before it, so elements that tie with `x` stay ahead of it. */
  lemma {:induction false} InsertIsSplice<T>(le: (T, T) -> bool, s: seq<T>, x: T)
    ensures var k := SplicePoint(le, s, x); Insert(le, s, x) == s[..k] + [x] + s[k..]
  {
    if |s| > 0 && le(s[0], x) {
      InsertIsSplice(le, s[1..], x);
      ConsSplice(s, SplicePoint(le, s[1..], x), x);
    }
  }

  lemma ConsSplice<T>(s: seq<T>, j: nat, x: T)
    requires 0 < |s| && j < |s|
    ensures [s[0]] + (s[1..][..j] + [x] + s[1..][j..]) == s[..j + 1] + [x] + s[j + 1..]
  {
    assert [s[0]] + s[1..][..j] == s[..j + 1];
  }

  /** Inserting into a sorted list keeps it sorted. */
  lemma {:induction false} InsertSorted<T(!new)>(le: (T, T) -> bool, s: seq<T>, x: T)
    requires TotalPreorder(le)
    requires SortedBy(le, s)
    ensures SortedBy(le, Insert(le, s, x))
  {
    if |s| > 0 {
      var r := Insert(le, s, x);
      if le(s[0], x) {
        InsertSorted(le, s[1..], x);
        var t := Insert(le, s[1..], x);
        forall j | 0 <= j < |t| ensures le(s[0], t[j]) {
          assert t[j] in multiset(t);
          if t[j] != x {
            assert t[j] in multiset(s[1..]);
            var m :| 0 <= m < |s[1..]| && s[1..][m] == t[j];
            assert s[m + 1] == t[j];
          }
        }
        assert r == [s[0]] + t;
      } else {
        assert r == [x] + s;
        forall j | 0 <= j < |s| ensures le(x, s[j]) {
          assert le(s[0], s[j]) || j == 0;
        }
      }
    }
  }

  /** The sort's output is sorted. */
  lemma {:induction false} SortSorted<T(!new)>(le: (T, T) -> bool, s: seq<T>)
    requires TotalPreorder(le)
    ensures SortedBy(le, Sort(le, s))
  {
    if |s| > 0 {
      SortSorted(le, s[..|s| - 1]);
      InsertSorted(le, Sort(le, s[..|s| - 1]), s[|s| - 1]);
    }
  }

  /** An element that sorts after everything already present goes last. */
  lemma {:induction false} InsertAtEnd<T>(le: (T, T) -> bool, s: seq<T>, x: T)
    requires forall i :: 0 <= i < |s| ==> le(s[i], x)
    ensures Insert(le, s, x) == s + [x]
  {
    if |s| > 0 {
      InsertAtEnd(le, s[1..], x);
      assert [s[0]] + (s[1..] + [x]) == s + [x];
    }
  }

  /** Sorting an already sorted list changes nothing. */
  lemma {:induction false} SortOfSorted<T>(le: (T, T) -> bool, s: seq<T>)
    requires SortedBy(le, s)
    ensures Sort(le, s) == s
  {
    if |s| > 0 {
      var init := s[..|s| - 1];
      assert SortedBy(le, init);
      SortOfSorted(le, init);
      InsertAtEnd(le, init, s[|s| - 1]);
      assert init + [s[|s| - 1]] == s;
    }
  }

  /** Appending to a sorted list and re-sorting (what every `add_*` of a
      position does) is a stable insertion. */
  lemma SortAppended<T>(le: (T, T) -> bool, s: seq<T>, x: T)
    requires SortedBy(le, s)
    ensures Sort(le, s + [x]) == Insert(le, s, x)
  {
    assert (s + [x])[..|s|] == s;
    SortOfSorted(le, s);
  }
}
