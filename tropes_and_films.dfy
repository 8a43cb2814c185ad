/** The dataset index of the report (class TropesAndFilms): the film
    dictionary, the trope dictionary derived from it, the two key orderings
    by descending degree, the ranked dictionaries and the degree sequences. */
module TropesAndFilmsModel {
  import opened OrderedDict
  import opened TropeIndex
  import opened Ranking

  class TropesAndFilms {
    /** film -> list of tropes, as loaded (insertion order = file order) */
    var filmDictionary: Dict
    /** trope -> list of films, derived from filmDictionary */
    var tropeDictionary: Dict
    var tropesSortedByOccurrences: seq<Trope>
    var filmSortedByOccurrences: seq<Film>

    /** What construction establishes and no method changes afterwards. */
    ghost predicate Valid()
      reads this
    {
      DistinctKeys(filmDictionary) &&
      tropeDictionary == InverseIndex(filmDictionary) &&
      tropesSortedByOccurrences == RankByDegree(tropeDictionary) &&
      filmSortedByOccurrences == RankByDegree(filmDictionary)
    }

    /** `__init__`, with the film dictionary that the JSON file would yield
        given as a parameter; its keys are distinct because it is a dict. */
    constructor (films: Dict)
      requires DistinctKeys(films)
      ensures Valid()
      ensures filmDictionary == films
    {
      filmDictionary := films;
      new;
      InitTropeDictionary();
      InitSortedKeys();
    }

    /** `_init_trope_dictionary`: for each film in order and each trope of its
        list in order, create the trope's entry when it is missing, then append
        the film to it.  The film dictionary is left as it was. */
    method InitTropeDictionary()
      requires DistinctKeys(filmDictionary)
      modifies this`tropeDictionary
      ensures tropeDictionary == InverseIndex(filmDictionary)
      ensures filmDictionary == old(filmDictionary)
    {
      tropeDictionary := [];
      var i := 0;
      while i < |filmDictionary|
        invariant 0 <= i <= |filmDictionary|
        invariant tropeDictionary == InverseIndex(filmDictionary[..i])
      {
        var film := filmDictionary[i].0;
        var tropeList := Lookup(filmDictionary, film);
        assert tropeList == filmDictionary[i].1 by {
          LookupAt(filmDictionary, i);
        }
        AddTropesOfFilm(film, tropeList);
        InverseIndexStep(filmDictionary, i);
        i := i + 1;
      }
      assert filmDictionary[..i] == filmDictionary;
    }

    /** The inner loop of `_init_trope_dictionary` (lines 49-52), for one film
        and its trope list. */
    method AddTropesOfFilm(film: Film, tropeList: seq<Trope>)
      modifies this`tropeDictionary
      ensures tropeDictionary == AddFilm(old(tropeDictionary), film, tropeList)
    {
      ghost var start := tropeDictionary;
      var j := 0;
      while j < |tropeList|
        invariant 0 <= j <= |tropeList|
        invariant tropeDictionary == AddFilm(start, film, tropeList[..j])
      {
        var trope := tropeList[j];
        ghost var before := tropeDictionary;
        if trope !in Keys(tropeDictionary) {
          tropeDictionary := Put(tropeDictionary, trope, []);
        }
        assert tropeDictionary == WithKey(before, trope);
        tropeDictionary := AppendFilm(tropeDictionary, trope, film);
        AddFilmStep(start, film, tropeList, j);
        j := j + 1;
      }
      assert tropeList[..j] == tropeList;
    }

    /** `_init_sorted_keys`: both key orderings by descending degree. */
    method InitSortedKeys()
      modifies this`tropesSortedByOccurrences, this`filmSortedByOccurrences
      ensures tropesSortedByOccurrences == RankByDegree(tropeDictionary)
      ensures filmSortedByOccurrences == RankByDegree(filmDictionary)
    {
      tropesSortedByOccurrences := Rank(Keys(tropeDictionary), DegreeIn(tropeDictionary));
      filmSortedByOccurrences := Rank(Keys(filmDictionary), DegreeIn(filmDictionary));
    }

    /** `tropes_dictionary_sorted_by_number_of_films`: an ordered dictionary
        from each trope, in ranking order, to the number of films carrying it;
        tropes carried by equally many films keep their dictionary order. */
    method TropesDictionarySortedByNumberOfFilms() returns (dictionary: seq<(Trope, nat)>)
      requires Valid()
      ensures Keys(dictionary) == tropesSortedByOccurrences
      ensures multiset(Keys(dictionary)) == multiset(Keys(tropeDictionary))
      ensures forall i :: 0 <= i < |dictionary| ==>
                dictionary[i].1 == |FilmsCarrying(filmDictionary, dictionary[i].0)|
      ensures forall i, j :: 0 <= i < j < |dictionary| ==> dictionary[i].1 >= dictionary[j].1
      ensures forall n: nat :: OfDegree(Keys(dictionary), DegreeIn(tropeDictionary), n)
                            == OfDegree(Keys(tropeDictionary), DegreeIn(tropeDictionary), n)
    {
      var order := tropesSortedByOccurrences;
      assert Distinct(order) by {
        IndexKeysDistinct(filmDictionary);
        RankByDegreeSpec(tropeDictionary);
      }
      dictionary := [];
      for k := 0 to |order|
        invariant Keys(dictionary) == order[..k]
        invariant forall i :: 0 <= i < k ==> dictionary[i].1 == Degree(tropeDictionary, order[i])
      {
        var trope := order[k];
        PutNext(dictionary, order, k, |Lookup(tropeDictionary, trope)|);
        dictionary := Put(dictionary, trope, |Lookup(tropeDictionary, trope)|);
      }
      assert order[..|order|] == order;
      IndexKeysDistinct(filmDictionary);
      RankByDegreeSpec(tropeDictionary);
      RankByDegreeStable(tropeDictionary);
      IndexContents(filmDictionary);
    }

    /** `films_dictionary_sorted_by_number_of_tropes`: an ordered dictionary
        from each film, in ranking order, to the length of its trope list;
        films with equally many tropes keep their dictionary order. */
    method FilmsDictionarySortedByNumberOfTropes() returns (dictionary: seq<(Film, nat)>)
      requires Valid()
      ensures Keys(dictionary) == filmSortedByOccurrences
      ensures multiset(Keys(dictionary)) == multiset(Keys(filmDictionary))
      ensures forall i :: 0 <= i < |dictionary| ==>
                dictionary[i].1 == |Lookup(filmDictionary, dictionary[i].0)|
      ensures forall i, j :: 0 <= i < j < |dictionary| ==> dictionary[i].1 >= dictionary[j].1
      ensures forall n: nat :: OfDegree(Keys(dictionary), DegreeIn(filmDictionary), n)
                            == OfDegree(Keys(filmDictionary), DegreeIn(filmDictionary), n)
    {
      var order := filmSortedByOccurrences;
      assert Distinct(order) by {
        RankByDegreeSpec(filmDictionary);
      }
      dictionary := [];
      for k := 0 to |order|
        invariant Keys(dictionary) == order[..k]
        invariant forall i :: 0 <= i < k ==> dictionary[i].1 == Degree(filmDictionary, order[i])
      {
        var film := order[k];
        PutNext(dictionary, order, k, |Lookup(filmDictionary, film)|);
        dictionary := Put(dictionary, film, |Lookup(filmDictionary, film)|);
      }
      assert order[..|order|] == order;
      RankByDegreeSpec(filmDictionary);
      RankByDegreeStable(filmDictionary);
    }

    /** `trope_observations_by_film`: one entry per film, in film order, the
        number of tropes listed for it. */
    function TropeObservationsByFilm(): (r: seq<nat>)
      reads this
      requires Valid()
      ensures |r| == |Keys(filmDictionary)|
      ensures forall i :: 0 <= i < |r| ==> r[i] == |Lookup(filmDictionary, Keys(filmDictionary)[i])|
    {
      forall i | 0 <= i < |filmDictionary| ensures Lookup(filmDictionary, filmDictionary[i].0) == filmDictionary[i].1 {
        LookupAt(filmDictionary, i);
      }
      Lengths(filmDictionary)
    }

    /** `film_observations_by_trope`: one entry per trope, in key order, the
        number of films carrying it; every entry is at least one, and the
        entries add up to the same total as those of the other sequence. */
    function FilmObservationsByTrope(): (r: seq<nat>)
      reads this
      requires Valid()
      ensures |r| == |Keys(tropeDictionary)|
      ensures forall i :: 0 <= i < |r| ==>
                r[i] == |FilmsCarrying(filmDictionary, Keys(tropeDictionary)[i])| && r[i] >= 1
      ensures Sum(r) == Sum(TropeObservationsByFilm())
    {
      IndexKeysDistinct(filmDictionary);
      IndexContents(filmDictionary);
      IndexValuesNonEmpty(filmDictionary);
      IndexConservesAssignments(filmDictionary);
      forall i | 0 <= i < |tropeDictionary| ensures Lookup(tropeDictionary, tropeDictionary[i].0) == tropeDictionary[i].1 {
        LookupAt(tropeDictionary, i);
      }
      Lengths(tropeDictionary)
    }
  }
}
