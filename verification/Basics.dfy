/** What several components share: optional values, and Go's operations on strings and slices. */
module Basics {
  datatype Option<+T> = None | Some(value: T)

  /** strings.Contains. */
  predicate Contains(s: string, part: string) {
    exists i :: 0 <= i <= |s| && OccursAt(s, part, i)
  }

  predicate OccursAt(s: string, part: string, i: nat)
    requires i <= |s|
  {
    part <= s[i..]
  }

  /** What it means: the string is the part with something in front and something behind. */
  lemma ContainsMeans(s: string, part: string)
    ensures Contains(s, part) <==> exists before, behind :: s == before + part + behind
  {
    if Contains(s, part) {
      var i :| 0 <= i <= |s| && OccursAt(s, part, i);
      assert s == s[..i] + part + s[i..][|part|..];
    }
    if before, behind :| s == before + part + behind {
      assert s[|before|..] == part + behind;
      assert OccursAt(s, part, |before|);
    }
  }

  /** `append(s[:i], s[i+1:]...)`: the list without its `i`-th element. */
  function Without<T>(s: seq<T>, i: nat): seq<T>
    requires i < |s|
  {
    s[..i] + s[i + 1..]
  }

  predicate NoRepeats<T(==)>(s: seq<T>) {
    forall i, j :: 0 <= i < j < |s| ==> s[i] != s[j]
  }

  lemma {:induction false} OccursOnce<T>(s: seq<T>, x: T)
    requires NoRepeats(s)
    ensures multiset(s)[x] <= 1
    decreases |s|
  {
    if s != [] {
      var n := |s| - 1;
      OccursOnce(s[..n], x);
      assert s == s[..n] + [s[n]];
      if s[n] == x { assert x !in s[..n]; }
    }
  }
}
