/** The inverse index of the report: from the film dictionary (film -> list
    of tropes) the trope dictionary (trope -> list of films) is built by
    scanning the films in order and, for each film, its tropes in order.
    The functions here state what that scan computes; the class in
    module TropesAndFilmsModel runs it with loops. */
module TropeIndex {
  import opened OrderedDict

  type Film = string
  type Trope = string

  /** `if trope not in d: d[trope] = []` */
  function WithKey(d: Dict, t: Trope): (d': Dict)
    ensures Keys(d') == if t in Keys(d) then Keys(d) else Keys(d) + [t]
  {
    if t in Keys(d) then d else d + [(t, [])]
  }

  /** `d[trope].append(film)`: the key keeps its position. */
  function AppendFilm(d: Dict, t: Trope, f: Film): (d': Dict)
    requires t in Keys(d)
    ensures Keys(d') == Keys(d)
  {
    var n := IndexOf(d, t);
    var d' := d[n := (t, d[n].1 + [f])];
    assert forall i :: 0 <= i < |d| ==> Keys(d')[i] == Keys(d)[i];
    d'
  }

  /** One step of the inner loop: record that film `f` carries trope `t`. */
  function AddTrope(d: Dict, t: Trope, f: Film): Dict {
    AppendFilm(WithKey(d, t), t, f)
  }

  /** The inner loop over the trope list `ts` of film `f`. */
  function AddFilm(d: Dict, f: Film, ts: seq<Trope>): Dict {
    if |ts| == 0 then d
    else AddTrope(AddFilm(d, f, ts[..|ts| - 1]), ts[|ts| - 1], f)
  }

  /** The trope dictionary built from the film dictionary by the outer loop. */
  function InverseIndex(films: Dict): Dict {
    if |films| == 0 then []
    else
      var last := films[|films| - 1];
      AddFilm(InverseIndex(films[..|films| - 1]), last.0, last.1)
  }

  /** One more step of the inner loop. */
  lemma AddFilmStep(d: Dict, f: Film, ts: seq<Trope>, j: nat)
    requires j < |ts|
    ensures AddFilm(d, f, ts[..j + 1]) == AddTrope(AddFilm(d, f, ts[..j]), ts[j], f)
  {
    assert ts[..j + 1][..j] == ts[..j];
  }

  /** One more step of the outer loop. */
  lemma InverseIndexStep(films: Dict, i: nat)
    requires i < |films|
    ensures InverseIndex(films[..i + 1]) == AddFilm(InverseIndex(films[..i]), films[i].0, films[i].1)
  {
    assert films[..i + 1][..i] == films[..i];
  }

  // ---------------------------------------------------------------------
  // Reference definitions the index is compared with

  /** Every trope occurrence, scanning films in order and each list in order. */
  function AllTropes(films: Dict): seq<Trope> {
    if |films| == 0 then [] else AllTropes(films[..|films| - 1]) + films[|films| - 1].1
  }

  /** The elements of `s` in the order of their first occurrence. */
  function FirstAppearances(s: seq<string>): seq<string> {
    if |s| == 0 then []
    else
      var r := FirstAppearances(s[..|s| - 1]);
      if s[|s| - 1] in r then r else r + [s[|s| - 1]]
  }

  /** How many times `t` occurs in `ts`. */
  function Count(ts: seq<Trope>, t: Trope): nat {
    if |ts| == 0 then 0
    else Count(ts[..|ts| - 1], t) + (if ts[|ts| - 1] == t then 1 else 0)
  }

  function Repeat(f: Film, n: nat): (r: seq<Film>)
    ensures |r| == n && forall i :: 0 <= i < n ==> r[i] == f
  {
    seq(n, _ => f)
  }

  /** The films carrying trope `t`, in film order, each film once per
      occurrence of `t` in its list. */
  function FilmsCarrying(films: Dict, t: Trope): seq<Film> {
    if |films| == 0 then []
    else
      var last := films[|films| - 1];
      FilmsCarrying(films[..|films| - 1], t) + Repeat(last.0, Count(last.1, t))
  }

  // ---------------------------------------------------------------------
  // Key order and membership

  lemma {:induction false} FirstAppearancesSpec(s: seq<string>)
    ensures forall x :: x in FirstAppearances(s) <==> x in s
    ensures Distinct(FirstAppearances(s))
  {
    if |s| > 0 {
      var p := s[..|s| - 1];
      FirstAppearancesSpec(p);
      assert s == p + [s[|s| - 1]];
    }
  }

  /** The inner loop extends the keys with the first appearances of `ts`. */
  lemma {:induction false} AddFilmKeys(d: Dict, f: Film, ts: seq<Trope>, prior: seq<Trope>)
    requires Keys(d) == FirstAppearances(prior)
    ensures Keys(AddFilm(d, f, ts)) == FirstAppearances(prior + ts)
  {
    if |ts| > 0 {
      var init := ts[..|ts| - 1];
      AddFilmKeys(d, f, init, prior);
      assert (prior + ts)[..|prior + ts| - 1] == prior + init;
    } else {
      assert prior + ts == prior;
    }
  }

  /** Key order: the keys of the trope dictionary are the tropes in order of
      first appearance. */
  lemma {:induction false} KeysInFirstAppearanceOrder(films: Dict)
    ensures Keys(InverseIndex(films)) == FirstAppearances(AllTropes(films))
  {
    if |films| > 0 {
      var n := |films| - 1;
      var p := films[..n];
      assert InverseIndex(films) == AddFilm(InverseIndex(p), films[n].0, films[n].1);
      assert AllTropes(films) == AllTropes(p) + films[n].1;
      KeysInFirstAppearanceOrder(p);
      AddFilmKeys(InverseIndex(p), films[n].0, films[n].1, AllTropes(p));
    }
  }

  lemma {:induction false} AllTropesMembership(films: Dict, t: Trope)
    ensures t in AllTropes(films) <==> exists i :: 0 <= i < |films| && t in films[i].1
  {
    if |films| > 0 {
      var p := films[..|films| - 1];
      AllTropesMembership(p, t);
      if t in AllTropes(films) && t !in films[|films| - 1].1 {
        var i :| 0 <= i < |p| && t in p[i].1;
        assert films[i] == p[i];
      }
      if exists i :: 0 <= i < |films| && t in films[i].1 {
        var i :| 0 <= i < |films| && t in films[i].1;
        if i < |p| {
          assert p[i] == films[i];
        }
      }
    }
  }

  /** Index membership: a trope is a key of the trope dictionary exactly when
      some film lists it. */
  lemma IndexMembership(films: Dict, t: Trope)
    ensures t in Keys(InverseIndex(films)) <==> exists i :: 0 <= i < |films| && t in films[i].1
  {
    KeysInFirstAppearanceOrder(films);
    FirstAppearancesSpec(AllTropes(films));
    AllTropesMembership(films, t);
  }

  /** The trope dictionary is a dictionary: its keys are distinct. */
  lemma IndexKeysDistinct(films: Dict)
    ensures DistinctKeys(InverseIndex(films))
  {
    KeysInFirstAppearanceOrder(films);
    FirstAppearancesSpec(AllTropes(films));
  }

  // ---------------------------------------------------------------------
  // Contents

  /** Where a key is found depends on the keys alone. */
  lemma SameKeysSameIndex<V, W>(d: seq<(Key, V)>, e: seq<(Key, W)>, k: Key)
    requires Keys(d) == Keys(e)
    ensures IndexOf(d, k) == IndexOf(e, k)
  {
    var m, n := IndexOf(d, k), IndexOf(e, k);
    if m < n {
      assert Keys(d)[m] == Keys(e)[m];
      IndexOfFirst(e, k, m);
    } else if n < m {
      assert Keys(d)[n] == Keys(e)[n];
      IndexOfFirst(d, k, n);
    }
  }

  lemma WithKeyLookup(d: Dict, t: Trope, u: Trope)
    ensures Lookup(WithKey(d, t), u) == Lookup(d, u)
  {
    if t !in Keys(d) {
      IndexOfSnoc(d, (t, []), u);
    }
  }

  lemma AppendFilmLookup(d: Dict, t: Trope, f: Film, u: Trope)
    requires t in Keys(d)
    ensures Lookup(AppendFilm(d, t, f), u) == Lookup(d, u) + (if u == t then [f] else [])
  {
    SameKeysSameIndex(AppendFilm(d, t, f), d, u);
  }

  lemma AddTropeLookup(d: Dict, t: Trope, f: Film, u: Trope)
    ensures Lookup(AddTrope(d, t, f), u) == Lookup(d, u) + (if u == t then [f] else [])
  {
    WithKeyLookup(d, t, u);
    AppendFilmLookup(WithKey(d, t), t, f, u);
  }

  lemma RepeatSnoc(f: Film, n: nat)
    ensures Repeat(f, n + 1) == Repeat(f, n) + [f]
  {
  }

  lemma {:induction false} AddFilmLookup(d: Dict, f: Film, ts: seq<Trope>, u: Trope)
    ensures Lookup(AddFilm(d, f, ts), u) == Lookup(d, u) + Repeat(f, Count(ts, u))
  {
    if |ts| > 0 {
      var init, t := ts[..|ts| - 1], ts[|ts| - 1];
      var prev := AddFilm(d, f, init);
      AddFilmLookup(d, f, init, u);
      AddTropeLookup(prev, t, f, u);
      assert Lookup(AddFilm(d, f, ts), u) == Lookup(prev, u) + (if u == t then [f] else []);
      if u == t {
        assert Count(ts, u) == Count(init, u) + 1;
        RepeatSnoc(f, Count(init, u));
      } else {
        assert Count(ts, u) == Count(init, u);
      }
    }
  }

  /** Index contents: the list stored under a trope holds the films carrying
      it in film order, one entry per occurrence (no de-duplication). A trope
      that no film lists maps to the empty list. */
  lemma {:induction false} IndexContents(films: Dict)
    ensures forall t :: Lookup(InverseIndex(films), t) == FilmsCarrying(films, t)
  {
    if |films| > 0 {
      var n := |films| - 1;
      var p := films[..n];
      assert InverseIndex(films) == AddFilm(InverseIndex(p), films[n].0, films[n].1);
      IndexContents(p);
      forall t ensures Lookup(InverseIndex(films), t) == FilmsCarrying(films, t) {
        assert FilmsCarrying(films, t) == FilmsCarrying(p, t) + Repeat(films[n].0, Count(films[n].1, t));
        AddFilmLookup(InverseIndex(p), films[n].0, films[n].1, t);
      }
    }
  }

  // ---------------------------------------------------------------------
  // Degrees

  predicate AllNonEmpty(d: Dict) {
    forall i :: 0 <= i < |d| ==> |d[i].1| >= 1
  }

  lemma AddTropeNonEmpty(d: Dict, t: Trope, f: Film)
    requires AllNonEmpty(d)
    ensures AllNonEmpty(AddTrope(d, t, f))
  {
    var w := WithKey(d, t);
    var n := IndexOf(w, t);
    var r := AddTrope(d, t, f);
    forall i | 0 <= i < |r|
      ensures |r[i].1| >= 1
    {
      if i != n {
        assert r[i] == w[i];
        assert i < |d| ==> w[i] == d[i];
      }
    }
  }

  lemma {:induction false} AddFilmNonEmpty(d: Dict, f: Film, ts: seq<Trope>)
    requires AllNonEmpty(d)
    ensures AllNonEmpty(AddFilm(d, f, ts))
  {
    if |ts| > 0 {
      var init := ts[..|ts| - 1];
      AddFilmNonEmpty(d, f, init);
      AddTropeNonEmpty(AddFilm(d, f, init), ts[|ts| - 1], f);
    }
  }

  /** Every trope in the trope dictionary is carried by at least one film. */
  lemma {:induction false} IndexValuesNonEmpty(films: Dict)
    ensures AllNonEmpty(InverseIndex(films))
  {
    if |films| > 0 {
      var n := |films| - 1;
      var p := films[..n];
      assert InverseIndex(films) == AddFilm(InverseIndex(p), films[n].0, films[n].1);
      IndexValuesNonEmpty(p);
      AddFilmNonEmpty(InverseIndex(p), films[n].0, films[n].1);
    }
  }

  lemma {:induction false} AddFilmTotal(d: Dict, f: Film, ts: seq<Trope>)
    ensures Total(AddFilm(d, f, ts)) == Total(d) + |ts|
  {
    if |ts| > 0 {
      var init := ts[..|ts| - 1];
      var t := ts[|ts| - 1];
      AddFilmTotal(d, f, init);
      var e := AddFilm(d, f, init);
      var w := WithKey(e, t);
      if t !in Keys(e) {
        TotalSnoc(e, (t, []));
      }
      var n := IndexOf(w, t);
      TotalUpdate(w, n, (t, w[n].1 + [f]));
    }
  }

  /** Conservation: the trope dictionary stores as many (trope, film) pairs
      as the film dictionary stores (film, trope) pairs. */
  lemma {:induction false} IndexConservesAssignments(films: Dict)
    ensures Total(InverseIndex(films)) == Total(films)
  {
    if |films| > 0 {
      var n := |films| - 1;
      var p := films[..n];
      assert InverseIndex(films) == AddFilm(InverseIndex(p), films[n].0, films[n].1);
      IndexConservesAssignments(p);
      AddFilmTotal(InverseIndex(p), films[n].0, films[n].1);
      assert p + [films[n]] == films;
      TotalSnoc(p, films[n]);
    }
  }
}
