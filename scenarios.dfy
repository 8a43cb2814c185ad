/** Two small datasets on which the behaviour of the index is worked out in
    full: the tie-keeping film ranking, and a two-film dataset with its
    inverse index and degree sequences. */
module Scenarios {
  import opened OrderedDict
  import opened TropeIndex
  import opened Ranking
  import opened TropesAndFilmsModel

  /** Films A and B both list two tropes, C lists one: A and B tie, and keep
      their dictionary order, ahead of C. */
  lemma TiedFilmsKeepDictionaryOrder()
    ensures RankByDegree([("A", ["t1", "t2"]), ("B", ["t1", "t2"]), ("C", ["t1"])]) == ["A", "B", "C"]
  {
    var films: Dict := [("A", ["t1", "t2"]), ("B", ["t1", "t2"]), ("C", ["t1"])];
    assert Keys(films) == ["A", "B", "C"];
    assert Degree(films, "A") == 2 && Degree(films, "B") == 2 && Degree(films, "C") == 1;
  }

  function TwoFilms(): Dict {
    [("FilmA", ["Trope1", "Trope2"]), ("FilmB", ["Trope1"])]
  }

  lemma FirstTrope()
    ensures AddTrope([], "Trope1", "FilmA") == [("Trope1", ["FilmA"])]
  {
    var w: Dict := [("Trope1", [])];
    assert WithKey([], "Trope1") == w;
    assert IndexOf(w, "Trope1") == 0;
    assert w[0].1 + ["FilmA"] == ["FilmA"];
  }

  lemma SecondTrope()
    ensures AddTrope([("Trope1", ["FilmA"])], "Trope2", "FilmA")
         == [("Trope1", ["FilmA"]), ("Trope2", ["FilmA"])]
  {
    var d: Dict := [("Trope1", ["FilmA"])];
    var w: Dict := d + [("Trope2", [])];
    assert Keys(d) == ["Trope1"];
    assert WithKey(d, "Trope2") == w;
    assert IndexOf(w, "Trope2") == 1;
    assert w[1].1 + ["FilmA"] == ["FilmA"];
  }

  lemma ThirdTrope()
    ensures AddTrope([("Trope1", ["FilmA"]), ("Trope2", ["FilmA"])], "Trope1", "FilmB")
         == [("Trope1", ["FilmA", "FilmB"]), ("Trope2", ["FilmA"])]
  {
    var d: Dict := [("Trope1", ["FilmA"]), ("Trope2", ["FilmA"])];
    assert Keys(d) == ["Trope1", "Trope2"];
    assert WithKey(d, "Trope1") == d;
    assert IndexOf(d, "Trope1") == 0;
    assert d[0].1 + ["FilmB"] == ["FilmA", "FilmB"];
  }

  lemma FilmAEntries()
    ensures AddFilm([], "FilmA", ["Trope1", "Trope2"]) == [("Trope1", ["FilmA"]), ("Trope2", ["FilmA"])]
  {
    var ts: seq<Trope> := ["Trope1", "Trope2"];
    FirstTrope();
    SecondTrope();
    AddFilmStep([], "FilmA", ts, 0);
    AddFilmStep([], "FilmA", ts, 1);
    assert ts[..0] == [] && ts[..1] == ["Trope1"] && ts[..2] == ts;
  }

  lemma FilmBEntries()
    ensures AddFilm([("Trope1", ["FilmA"]), ("Trope2", ["FilmA"])], "FilmB", ["Trope1"])
         == [("Trope1", ["FilmA", "FilmB"]), ("Trope2", ["FilmA"])]
  {
    var ts: seq<Trope> := ["Trope1"];
    ThirdTrope();
    AddFilmStep([("Trope1", ["FilmA"]), ("Trope2", ["FilmA"])], "FilmB", ts, 0);
    assert ts[..0] == [] && ts[..1] == ts;
  }

  /** FilmA lists Trope1 and Trope2, FilmB lists Trope1: Trope1 is carried by
      both films, in film order, and Trope2 by FilmA alone. */
  lemma TwoFilmIndex()
    ensures InverseIndex(TwoFilms()) == [("Trope1", ["FilmA", "FilmB"]), ("Trope2", ["FilmA"])]
  {
    var films := TwoFilms();
    var half: Dict := [("Trope1", ["FilmA"]), ("Trope2", ["FilmA"])];
    assert films[..0] == [];
    InverseIndexStep(films, 0);
    FilmAEntries();
    assert InverseIndex(films[..1]) == half;
    InverseIndexStep(films, 1);
    FilmBEntries();
    assert films[..2] == films;
  }

  /** Two films for Trope1, one for Trope2. */
  lemma TwoFilmTropeDegrees()
    ensures Lengths(InverseIndex(TwoFilms())) == [2, 1]
  {
    TwoFilmIndex();
    var index: Dict := [("Trope1", ["FilmA", "FilmB"]), ("Trope2", ["FilmA"])];
    assert |index[0].1| == 2 && |index[1].1| == 1;
  }

  /** FilmA lists two tropes, FilmB one: the tropes-per-film sequence of the
      object built from the dataset is [2, 1]. */
  method TwoFilmFilmDegrees() returns (observations: seq<nat>)
    ensures observations == [2, 1]
  {
    var report := new TropesAndFilms(TwoFilms());
    observations := report.TropeObservationsByFilm();
    assert Keys(TwoFilms()) == ["FilmA", "FilmB"];
  }

  /** Trope1 ranks ahead of Trope2. */
  lemma TwoFilmRanking()
    ensures RankByDegree(InverseIndex(TwoFilms())) == ["Trope1", "Trope2"]
  {
    TwoFilmIndex();
    var index: Dict := [("Trope1", ["FilmA", "FilmB"]), ("Trope2", ["FilmA"])];
    assert Keys(index) == ["Trope1", "Trope2"];
    assert IndexOf(index, "Trope1") == 0 && IndexOf(index, "Trope2") == 1;
    assert Degree(index, "Trope1") == 2 && Degree(index, "Trope2") == 1;
  }
}
