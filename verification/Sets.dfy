/** Cardinalities of finite sets. */
module Sets {

  lemma {:induction false} SubsetCardinality<T>(s: set<T>, t: set<T>)
    requires s <= t
    ensures |s| <= |t|
  {
    if s != {} {
      var c :| c in s;
      SubsetCardinality(s - {c}, t - {c});
    }
  }

  lemma SubsetEqual<T>(s: set<T>, t: set<T>)
    requires s <= t && |s| == |t|
    ensures s == t
  {
    if s != t {
      var c :| c in t && c !in s;
      SubsetCardinality(s, t - {c});
    }
  }
}
