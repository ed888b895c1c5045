/** Sequences without repeated elements. */
module Distinctness {

  ghost function Nth<T>(s: seq<T>, i: nat): T
    requires i < |s|
  {
    s[i]
  }

  /** Stated through `Nth`, so that the pairs are only looked at where they are named. */
  ghost predicate NoRepeats<T>(s: seq<T>) {
    forall i, j {:trigger Nth(s, i), Nth(s, j)} :: 0 <= i < j < |s| ==> Nth(s, i) != Nth(s, j)
  }

  lemma Apart<T>(s: seq<T>)
    requires NoRepeats(s)
    ensures forall i, j :: 0 <= i < j < |s| ==> s[i] != s[j]
  {
    forall i, j | 0 <= i < j < |s|
      ensures s[i] != s[j]
    {
      assert Nth(s, i) != Nth(s, j);
    }
  }
}
