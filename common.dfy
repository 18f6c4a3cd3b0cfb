/**
 * Small definitions the other modules share: distinctness of a sequence and
 * integer maximum and minimum.
 */
module Common {

  /** No element occurs twice. */
  predicate Distinct<T(==)>(s: seq<T>) {
    forall i, j :: 0 <= i < j < |s| ==> s[i] != s[j]
  }

  /** Putting a new element in front of a sequence without repeats keeps it without repeats. */
  lemma DistinctCons<T>(x: T, rest: seq<T>)
    ensures Distinct(rest) && x !in rest ==> Distinct([x] + rest)
  {
    if Distinct(rest) && x !in rest {
      forall i, j | 0 <= i < j < |[x] + rest| ensures ([x] + rest)[i] != ([x] + rest)[j] {
        assert ([x] + rest)[j] == rest[j - 1];
      }
    }
  }

  /** The tail of a sequence without repeats has none, and does not hold the head. */
  lemma DistinctTail<T>(s: seq<T>)
    requires |s| > 0
    ensures Distinct(s) ==> Distinct(s[1..]) && s[0] !in s[1..]
  {
    if Distinct(s) {
      forall j | 0 <= j < |s[1..]| ensures s[1..][j] != s[0] {
        assert s[1..][j] == s[j + 1];
      }
    }
  }

  function Max(a: int, b: int): int {
    if a < b then b else a
  }

  function Min(a: int, b: int): int {
    if a < b then a else b
  }
}
