/**
 * The order in which the crawler dispatches URLs: the URLs taken from the
 * queue, in the order taken, keeping only the first occurrence of each.
 */
module Dedup {

  /** No element occurs twice. */
  predicate NoDuplicates<T(==)>(s: seq<T>)
  {
    forall i, j :: 0 <= i < j < |s| ==> s[i] != s[j]
  }

  /** The elements of `s` that do not occur earlier in `s`, in order. */
  function FirstOccurrences<T(==)>(s: seq<T>): (r: seq<T>)
    ensures |r| <= |s|
  {
    if s == [] then []
    else
      var init, last := s[..|s| - 1], s[|s| - 1];
      if last in init then FirstOccurrences(init) else FirstOccurrences(init) + [last]
  }

  /** The first occurrences hold no repeats and exactly the elements of the sequence. */
  lemma {:induction false} FirstOccurrencesSound<T(!new)>(s: seq<T>)
    ensures NoDuplicates(FirstOccurrences(s))
    ensures forall x :: x in FirstOccurrences(s) <==> x in s
  {
    if s != [] {
      var init, last := s[..|s| - 1], s[|s| - 1];
      FirstOccurrencesSound(init);
      assert s == init + [last];
      assert forall x :: x in s <==> x in init || x == last;
    }
  }

  /** On a sequence without repeats nothing is dropped. */
  lemma {:induction false} FirstOccurrencesOfDistinct<T>(s: seq<T>)
    requires NoDuplicates(s)
    ensures FirstOccurrences(s) == s
  {
    if s != [] {
      var init := s[..|s| - 1];
      assert NoDuplicates(init);
      FirstOccurrencesOfDistinct(init);
      assert s[|s| - 1] !in init;
      assert init + [s[|s| - 1]] == s;
    }
  }

  /** A prefix's first occurrences are a prefix of the whole sequence's: dispatch order only grows at the end. */
  lemma {:induction false} FirstOccurrencesPrefix<T>(s: seq<T>, t: seq<T>)
    ensures FirstOccurrences(s) <= FirstOccurrences(s + t)
  {
    if t != [] {
      var st := s + t;
      assert st[..|st| - 1] == s + t[..|t| - 1];
      FirstOccurrencesPrefix(s, t[..|t| - 1]);
    } else {
      assert s + t == s;
    }
  }

  /** Taking one more element extends the first occurrences exactly when that element is new. */
  lemma FirstOccurrencesSnoc<T>(s: seq<T>, x: T)
    ensures FirstOccurrences(s + [x]) == if x in s then FirstOccurrences(s) else FirstOccurrences(s) + [x]
  {
  }

  /** The elements of a sequence with one more element. */
  lemma ElementsSnoc<T>(s: seq<T>, x: T)
    ensures (set y | y in s + [x]) == (set y | y in s) + {x}
  {
  }
}
