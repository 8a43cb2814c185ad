/** The rankings of the report order the keys of a dictionary by descending
    degree (the length of the list stored under a key) with Python's
    `sorted(d.keys(), reverse=True, key=lambda k: len(d[k]))`.  That sort is stable, also with
    `reverse=True`: keys of equal degree keep their dictionary order.  It is
    modelled here by an insertion sort that places each key before the first
    key of smaller or equal degree among the keys that follow it. */
module Ranking {
  import opened OrderedDict

  /** Inserts `x`, which came before every key of `r` in the input, in front
      of the first key of `r` whose degree does not exceed its own. */
  function Insert(x: Key, r: seq<Key>, deg: Key -> nat): seq<Key> {
    if |r| == 0 || deg(x) >= deg(r[0]) then [x] + r
    else [r[0]] + Insert(x, r[1..], deg)
  }

  /** `sorted(keys, reverse=True, key=deg)` */
  function Rank(keys: seq<Key>, deg: Key -> nat): seq<Key> {
    if |keys| == 0 then [] else Insert(keys[0], Rank(keys[1..], deg), deg)
  }

  /** The sort key of the report: `lambda k: len(d[k])`. */
  function DegreeIn(d: Dict): Key -> nat {
    k => Degree(d, k)
  }

  /** `sorted(d.keys(), reverse=True, key=lambda k: len(d[k]))` */
  function RankByDegree(d: Dict): seq<Key> {
    Rank(Keys(d), DegreeIn(d))
  }

  predicate NonIncreasing(s: seq<Key>, deg: Key -> nat) {
    forall i, j :: 0 <= i < j < |s| ==> deg(s[i]) >= deg(s[j])
  }

  /** The keys of `s` whose degree is `n`, in their order in `s`. */
  function OfDegree(s: seq<Key>, deg: Key -> nat, n: nat): seq<Key> {
    if |s| == 0 then []
    else (if deg(s[0]) == n then [s[0]] else []) + OfDegree(s[1..], deg, n)
  }

  // ---------------------------------------------------------------------
  // Permutation

  lemma {:induction false} InsertPermutation(x: Key, r: seq<Key>, deg: Key -> nat)
    ensures multiset(Insert(x, r, deg)) == multiset(r) + multiset{x}
  {
    if |r| > 0 && deg(x) < deg(r[0]) {
      InsertPermutation(x, r[1..], deg);
      assert r == [r[0]] + r[1..];
    }
  }

  /** The ranking is a permutation of the keys it ranks. */
  lemma {:induction false} RankPermutation(keys: seq<Key>, deg: Key -> nat)
    ensures multiset(Rank(keys, deg)) == multiset(keys)
  {
    if |keys| > 0 {
      RankPermutation(keys[1..], deg);
      InsertPermutation(keys[0], Rank(keys[1..], deg), deg);
      assert keys == [keys[0]] + keys[1..];
    }
  }

  /** Ranking distinct keys gives distinct keys. */
  lemma {:induction false} RankDistinct(keys: seq<Key>, deg: Key -> nat)
    requires Distinct(keys)
    ensures Distinct(Rank(keys, deg))
  {
    if |keys| > 0 {
      var x, rest := keys[0], keys[1..];
      RankDistinct(rest, deg);
      RankPermutation(rest, deg);
      assert x !in rest;
      assert x !in multiset(Rank(rest, deg));
      InsertDistinct(x, Rank(rest, deg), deg);
    }
  }

  lemma {:induction false} InsertDistinct(x: Key, r: seq<Key>, deg: Key -> nat)
    requires Distinct(r) && x !in r
    ensures Distinct(Insert(x, r, deg))
  {
    if |r| > 0 && deg(x) < deg(r[0]) {
      var rest := r[1..];
      assert Distinct(rest) by {
        forall i, j | 0 <= i < j < |rest| ensures rest[i] != rest[j] {
          assert rest[i] == r[i + 1] && rest[j] == r[j + 1];
        }
      }
      InsertDistinct(x, rest, deg);
      InsertPermutation(x, rest, deg);
      assert r[0] !in multiset(rest) + multiset{x};
      assert r[0] !in Insert(x, rest, deg) by {
        assert r[0] !in multiset(Insert(x, rest, deg));
      }
    }
  }

  // ---------------------------------------------------------------------
  // Order

  /** Every key of `r` bounds the degrees of what follows it. */
  lemma HeadBounds(r: seq<Key>, deg: Key -> nat, y: Key)
    requires NonIncreasing(r, deg) && |r| > 0 && y in r[1..]
    ensures deg(r[0]) >= deg(y)
  {
    var k :| 0 <= k < |r[1..]| && r[1..][k] == y;
    assert r[k + 1] == y;
  }

  lemma {:induction false} InsertNonIncreasing(x: Key, r: seq<Key>, deg: Key -> nat)
    requires NonIncreasing(r, deg)
    ensures NonIncreasing(Insert(x, r, deg), deg)
  {
    if |r| == 0 || deg(x) >= deg(r[0]) {
      var ins := [x] + r;
      forall i, j | 0 <= i < j < |ins|
        ensures deg(ins[i]) >= deg(ins[j])
      {
        if i > 0 {
          assert ins[i] == r[i - 1] && ins[j] == r[j - 1];
        } else if j > 1 {
          assert ins[j] == r[j - 1] && deg(r[0]) >= deg(r[j - 1]);
        }
      }
    } else {
      var rest := r[1..];
      assert NonIncreasing(rest, deg) by {
        forall i, j | 0 <= i < j < |rest|
          ensures deg(rest[i]) >= deg(rest[j])
        {
          assert rest[i] == r[i + 1] && rest[j] == r[j + 1];
        }
      }
      InsertNonIncreasing(x, rest, deg);
      InsertPermutation(x, rest, deg);
      var tail := Insert(x, rest, deg);
      var ins := [r[0]] + tail;
      forall i, j | 0 <= i < j < |ins|
        ensures deg(ins[i]) >= deg(ins[j])
      {
        if i > 0 {
          assert ins[i] == tail[i - 1] && ins[j] == tail[j - 1];
        } else {
          var y := tail[j - 1];
          assert y in multiset(tail);
          if y != x {
            assert y in multiset(rest);
            HeadBounds(r, deg, y);
          }
        }
      }
    }
  }

  /** The ranking lists keys by non-increasing degree. */
  lemma {:induction false} RankNonIncreasing(keys: seq<Key>, deg: Key -> nat)
    ensures NonIncreasing(Rank(keys, deg), deg)
  {
    if |keys| > 0 {
      RankNonIncreasing(keys[1..], deg);
      InsertNonIncreasing(keys[0], Rank(keys[1..], deg), deg);
    }
  }

  // ---------------------------------------------------------------------
  // Stability

  lemma {:induction false} InsertOfDegree(x: Key, r: seq<Key>, deg: Key -> nat, n: nat)
    ensures OfDegree(Insert(x, r, deg), deg, n)
         == (if deg(x) == n then [x] else []) + OfDegree(r, deg, n)
  {
    if |r| == 0 || deg(x) >= deg(r[0]) {
      assert ([x] + r)[1..] == r;
    } else {
      var rest, head := r[1..], if deg(r[0]) == n then [r[0]] else [];
      var tail := Insert(x, rest, deg);
      InsertOfDegree(x, rest, deg, n);
      assert ([r[0]] + tail)[1..] == tail;
      assert OfDegree(Insert(x, r, deg), deg, n) == head + OfDegree(tail, deg, n);
      assert OfDegree(r, deg, n) == head + OfDegree(rest, deg, n);
    }
  }

  /** Stability: for every degree, the keys of that degree appear in the
      ranking in the same relative order as in the input. */
  lemma {:induction false} RankStable(keys: seq<Key>, deg: Key -> nat, n: nat)
    ensures OfDegree(Rank(keys, deg), deg, n) == OfDegree(keys, deg, n)
  {
    if |keys| > 0 {
      RankStable(keys[1..], deg, n);
      InsertOfDegree(keys[0], Rank(keys[1..], deg), deg, n);
    }
  }

  // ---------------------------------------------------------------------
  // Uniqueness: a stable sort by degree has exactly one possible output

  lemma TailNonIncreasing(s: seq<Key>, deg: Key -> nat)
    requires NonIncreasing(s, deg) && |s| > 0
    ensures NonIncreasing(s[1..], deg)
  {
    var rest := s[1..];
    forall i, j | 0 <= i < j < |rest|
      ensures deg(rest[i]) >= deg(rest[j])
    {
      assert rest[i] == s[i + 1] && rest[j] == s[j + 1];
    }
  }

  /** The first key of a non-empty sequence is among the keys of its degree. */
  lemma HeadOfDegree(s: seq<Key>, deg: Key -> nat)
    requires |s| > 0
    ensures OfDegree(s, deg, deg(s[0])) == [s[0]] + OfDegree(s[1..], deg, deg(s[0]))
  {
  }

  /** In a sequence ordered by non-increasing degree, no key has a degree
      above that of the first key. */
  lemma {:induction false} AboveHead(s: seq<Key>, deg: Key -> nat, n: nat)
    requires NonIncreasing(s, deg) && |s| > 0 && n > deg(s[0])
    ensures OfDegree(s, deg, n) == []
  {
    if |s| > 1 {
      TailNonIncreasing(s, deg);
      AboveHead(s[1..], deg, n);
    }
  }

  /** Two sequences ordered by non-increasing degree that list the keys of
      every degree in the same order are equal. */
  lemma {:induction false} SortedByDegreeUnique(s: seq<Key>, t: seq<Key>, deg: Key -> nat)
    requires NonIncreasing(s, deg) && NonIncreasing(t, deg)
    requires forall n: nat :: OfDegree(s, deg, n) == OfDegree(t, deg, n)
    ensures s == t
    decreases |s| + |t|
  {
    if |s| == 0 && |t| > 0 {
      HeadOfDegree(t, deg);
      assert false;
    } else if |s| > 0 && |t| == 0 {
      HeadOfDegree(s, deg);
      assert false;
    } else if |s| > 0 {
      var a, b := deg(s[0]), deg(t[0]);
      HeadOfDegree(s, deg);
      HeadOfDegree(t, deg);
      if b < a {
        AboveHead(t, deg, a);
        assert false;
      } else if a < b {
        AboveHead(s, deg, b);
        assert false;
      }
      assert [s[0]] + OfDegree(s[1..], deg, a) == [t[0]] + OfDegree(t[1..], deg, a);
      assert s[0] == t[0];
      forall n: nat
        ensures OfDegree(s[1..], deg, n) == OfDegree(t[1..], deg, n)
      {
        assert OfDegree(s, deg, n) == OfDegree(t, deg, n);
        if n == a {
          assert OfDegree(s[1..], deg, a) == ([s[0]] + OfDegree(s[1..], deg, a))[1..];
          assert OfDegree(t[1..], deg, a) == ([t[0]] + OfDegree(t[1..], deg, a))[1..];
        } else {
          assert OfDegree(s, deg, n) == OfDegree(s[1..], deg, n);
          assert OfDegree(t, deg, n) == OfDegree(t[1..], deg, n);
        }
      }
      TailNonIncreasing(s, deg);
      TailNonIncreasing(t, deg);
      SortedByDegreeUnique(s[1..], t[1..], deg);
      assert s == [s[0]] + s[1..] && t == [t[0]] + t[1..];
    }
  }

  /** `Rank` is the only order of the keys that a stable sort by descending
      degree can produce: any sequence ordered by non-increasing degree that
      lists the keys of each degree in their input order is `Rank(keys, deg)`. */
  lemma RankUnique(keys: seq<Key>, deg: Key -> nat, s: seq<Key>)
    requires NonIncreasing(s, deg)
    requires forall n: nat :: OfDegree(s, deg, n) == OfDegree(keys, deg, n)
    ensures s == Rank(keys, deg)
  {
    RankNonIncreasing(keys, deg);
    forall n: nat
      ensures OfDegree(s, deg, n) == OfDegree(Rank(keys, deg), deg, n)
    {
      RankStable(keys, deg, n);
    }
    SortedByDegreeUnique(s, Rank(keys, deg), deg);
  }

  // ---------------------------------------------------------------------
  // The ranking of a dictionary's keys

  /** The ranking of a dictionary's keys lists every key exactly once, by
      non-increasing degree: Degree(d, RankByDegree(d)[i]) never increases. */
  lemma RankByDegreeSpec(d: Dict)
    requires DistinctKeys(d)
    ensures Distinct(RankByDegree(d))
    ensures multiset(RankByDegree(d)) == multiset(Keys(d))
    ensures forall i, j :: 0 <= i < j < |RankByDegree(d)| ==>
              Degree(d, RankByDegree(d)[i]) >= Degree(d, RankByDegree(d)[j])
  {
    RankDistinct(Keys(d), DegreeIn(d));
    RankPermutation(Keys(d), DegreeIn(d));
    RankNonIncreasing(Keys(d), DegreeIn(d));
  }

  /** Keys of equal degree keep their dictionary order in the ranking. */
  lemma RankByDegreeStable(d: Dict)
    ensures forall n: nat :: OfDegree(RankByDegree(d), DegreeIn(d), n) == OfDegree(Keys(d), DegreeIn(d), n)
  {
    forall n: nat
      ensures OfDegree(RankByDegree(d), DegreeIn(d), n) == OfDegree(Keys(d), DegreeIn(d), n)
    {
      RankStable(Keys(d), DegreeIn(d), n);
    }
  }
}
