/** Facts about the ordered lists (Java `List`, Dafny `seq`) that the model
    keeps free of duplicates. Membership is Java's `List.contains`; neither
    Student nor Course overrides `equals`, so it is reference identity,
    which is `==` on Dafny class references. */
module Lists {

  predicate NoDuplicates<T(==)>(s: seq<T>) {
    forall i, j :: 0 <= i < j < |s| ==> s[i] != s[j]
  }

  /** In a list without duplicates every element occurs exactly once. */
  lemma {:induction false} NoDuplicatesOccurrences<T>(s: seq<T>, x: T)
    requires NoDuplicates(s)
    ensures multiset(s)[x] == if x in s then 1 else 0
    decreases |s|
  {
    if |s| > 0 {
      var t := s[..|s| - 1];
      assert s == t + [s[|s| - 1]];
      assert NoDuplicates(t);
      NoDuplicatesOccurrences(t, x);
      assert s[|s| - 1] !in t;
    }
  }
}
