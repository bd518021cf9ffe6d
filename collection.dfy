/** A user's `myBirds`: bird ids appended only when not already present. */
module Collection {
  import opened Records

  /** `x` appended unless it is already present. */
  function AddIfAbsent(s: seq<BirdId>, x: BirdId): (r: seq<BirdId>)
    ensures x in r
    ensures forall y :: y in r <==> y in s || y == x
    ensures s <= r && |r| <= |s| + 1
    ensures x in s <==> r == s
  {
    if x in s then s else s + [x]
  }

  predicate NoDuplicates(s: seq<BirdId>) {
    forall i, j :: 0 <= i < j < |s| ==> s[i] != s[j]
  }

  /** Adding a bird never introduces a duplicate. */
  lemma AddIfAbsentKeepsDistinct(s: seq<BirdId>, x: BirdId)
    requires NoDuplicates(s)
    ensures NoDuplicates(AddIfAbsent(s, x))
  {
    if x !in s {
      var r := s + [x];
      forall i, j | 0 <= i < j < |r| ensures r[i] != r[j] {
        if j == |s| {
          assert r[i] == s[i];
        }
      }
    }
  }

  /** In a collection without duplicates, after adding a bird it occurs
      exactly once. */
  lemma AddIfAbsentOccursOnce(s: seq<BirdId>, x: BirdId)
    requires NoDuplicates(s)
    ensures multiset(AddIfAbsent(s, x))[x] == 1
  {
    if x in s {
      var i :| 0 <= i < |s| && s[i] == x;
      var rest := s[i + 1..];
      assert s == s[..i] + [x] + rest;
      assert x !in s[..i] by {
        forall j | 0 <= j < i ensures s[..i][j] != x {
          assert s[j] != s[i];
        }
      }
      assert x !in rest by {
        forall j | 0 <= j < |rest| ensures rest[j] != x {
          assert rest[j] == s[i + 1 + j] != s[i];
        }
      }
      assert multiset(s) == multiset(s[..i]) + multiset{x} + multiset(rest);
    } else {
      assert multiset(s + [x]) == multiset(s) + multiset{x};
    }
  }
}
