/** Sequence helpers shared by the read side and the ingestion: duplicate-free
    sequences, the set of elements of a sequence, and SQL-style DISTINCT. */
module Collections {

  /** No element occurs twice. */
  ghost predicate NoDups<T>(s: seq<T>)
  {
    forall i, j :: 0 <= i < j < |s| ==> s[i] != s[j]
  }

  /** The elements of `s`, as a set (Python's `set(s)`). */
  ghost function Elements<T>(s: seq<T>): set<T>
  {
    set x | x in s
  }

  /** `SELECT DISTINCT`: every element of `s` exactly once. The order of the
      first occurrences is kept, which is one of the orders SQL allows. */
  function Distinct<T(==,!new)>(s: seq<T>): (r: seq<T>)
    ensures NoDups(r)
    ensures forall x :: x in r <==> x in s
  {
    if s == [] then []
    else
      var rest := Distinct(s[..|s| - 1]);
      var last := s[|s| - 1];
      assert forall x :: x in s <==> x in s[..|s| - 1] || x == last;
      if last in rest then rest else rest + [last]
  }

  /** A duplicate-free sequence has as many elements as its set. */
  lemma {:induction false} NoDupsCard<T>(s: seq<T>)
    requires NoDups(s)
    ensures |Elements(s)| == |s|
  {
    if s != [] {
      var init := s[..|s| - 1];
      var last := s[|s| - 1];
      assert NoDups(init);
      NoDupsCard(init);
      assert last !in init;
      assert Elements(s) == Elements(init) + {last};
    }
  }

  /** A subset has at most as many elements. */
  lemma {:induction false} SubsetCard<T>(a: set<T>, b: set<T>)
    requires a <= b
    ensures |a| <= |b|
    decreases a
  {
    if a != {} {
      var x :| x in a;
      SubsetCard(a - {x}, b - {x});
    }
  }
}
