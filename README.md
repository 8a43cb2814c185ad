# Dataset index of the tropes-and-films report, in Dafny

The report studies which films carry which tropes. Its class `TropesAndFilms`
(report/tropes_and_films.py) loads a film dictionary (film title -> list of
trope names). From it, the class derives:

- the trope dictionary (trope -> list of films), built by a nested loop;
- both key lists sorted by descending degree, where the degree of a key is the
  length of the list stored under it;
- the "ranked" ordered dictionaries (key -> degree, in ranking order);
- the two degree sequences: tropes per film and films per trope.

This project models that index and proves what it guarantees.

Python 3 dictionaries keep insertion order, and the rankings depend on it. So
every dictionary is modelled as an association list `seq<(string, V)>` in
insertion order with distinct keys (module `OrderedDict`). `d[k] = v` is
`Put`: it replaces the value in place for an existing key and appends a new
pair otherwise. `d[k]` is `Lookup`.

- `TropeIndex` states, as functions, what the nested loop of
  `_init_trope_dictionary` computes (`InverseIndex`, built from `WithKey` for
  "create the entry if missing" and `AppendFilm` for the `append`). It also
  gives reference definitions to compare it with: the tropes in order of
  first appearance, and the films carrying a trope with one entry per
  occurrence. The lemmas prove the index matches them.
- `Ranking` models `sorted(keys, reverse=True, key=lambda k: len(d[k]))` as a
  stable insertion sort. It proves the result is a permutation, lists keys by
  non-increasing degree, and keeps keys of equal degree in dictionary order.
- `TropesAndFilmsModel.TropesAndFilms` is the class itself. Its fields are the
  two dictionaries and the two sorted key lists. `Valid()` is what
  construction establishes. `InitTropeDictionary` keeps the source's loops and
  mutates the field in place. Its inner loop is the method `AddTropesOfFilm`.
  The two ranking methods fill an ordered dictionary in a loop. The two degree
  sequences are functions.
- `Scenarios` works out two small datasets in full.

A film's tropes are stored as a list and are not de-duplicated: a film that
lists a trope twice appears twice in that trope's list (`IndexContents`,
`Count`).

The ranking methods return ordered dictionaries from key to degree.

## Model

| member | source | states |
|---|---|---|
| TropesAndFilmsModel.TropesAndFilms.constructor | report/tropes_and_films.py:26-33 | Builds the object from the loaded film dictionary, which is stored unchanged. Afterwards the trope dictionary is the inverse index and both sorted key lists are the rankings (`Valid()`). |
| TropesAndFilmsModel.TropesAndFilms.InitTropeDictionary | report/tropes_and_films.py:45-52 | The nested loop leaves the trope dictionary equal to `InverseIndex(filmDictionary)`, with the film dictionary unchanged. Each film's list is read back through `film_dictionary[film]`. |
| TropesAndFilmsModel.TropesAndFilms.AddTropesOfFilm | report/tropes_and_films.py:49-52 | For one film, each trope of its list in order gets its entry created when absent, and then the film is appended to it. |
| TropeIndex.WithKey | report/tropes_and_films.py:50-51 | A new key is created only when the trope is absent, and it goes at the end of the key order. Otherwise the keys are unchanged. |
| TropeIndex.AppendFilm | report/tropes_and_films.py:52 | Appending to a trope's list keeps every key in its position. |
| OrderedDict.Put | report/tropes_and_films.py:68 | `d[k] = v` overwrites the value at the key's position when the key exists, leaving the other pairs alone. Otherwise it appends `(k, v)` at the end. |
| OrderedDict.LookupAt | report/tropes_and_films.py:48 | In a dictionary, looking up the key stored at position i yields the value stored at position i. |
| TropeIndex.IndexMembership | report/tropes_and_films.py:45-52 | A trope is a key of the trope dictionary if and only if some film's list contains it. |
| TropeIndex.IndexContents | report/tropes_and_films.py:47-52 | For every trope, its list is `FilmsCarrying`: the films in film order, each once per occurrence of the trope in its list (no de-duplication). A trope no film lists maps to the empty list. |
| TropeIndex.KeysInFirstAppearanceOrder | report/tropes_and_films.py:47-51 | The keys of the trope dictionary are the tropes in order of first appearance. Films are scanned in order, and each film's list in order. |
| TropeIndex.IndexKeysDistinct | report/tropes_and_films.py:50-51 | The trope dictionary's keys are pairwise distinct. |
| TropeIndex.IndexValuesNonEmpty | report/tropes_and_films.py:50-52 | Every list in the trope dictionary has at least one film. |
| TropeIndex.IndexConservesAssignments | report/tropes_and_films.py:45-52 | The trope dictionary's lists have the same total length as the film dictionary's lists. |
| TropesAndFilmsModel.TropesAndFilms.InitSortedKeys | report/tropes_and_films.py:54-58 | Sets the trope key list to the trope dictionary's keys ranked by number of films, and the film key list to the film dictionary's keys ranked by number of tropes. |
| Ranking.RankPermutation | report/tropes_and_films.py:55-58 | The sorted key list is a permutation (same multiset) of the keys sorted. |
| Ranking.RankNonIncreasing | report/tropes_and_films.py:55-58 | The sorted key list is ordered by non-increasing degree. |
| Ranking.RankStable | report/tropes_and_films.py:55-58 | For every degree n, the keys of degree n appear in the sorted list in the same relative order as in the input (stability under `reverse=True`). |
| Ranking.RankDistinct | report/tropes_and_films.py:55-58 | Sorting distinct keys gives distinct keys. |
| Ranking.RankUnique | report/tropes_and_films.py:55-58 | A stable sort by descending degree has exactly one possible output. Any sequence that is ordered by non-increasing degree and lists the keys of each degree in their input order equals `Rank(keys, deg)`. |
| Ranking.RankByDegreeSpec | report/tropes_and_films.py:55-58 | The ranking of a dictionary's keys lists each key exactly once, by non-increasing degree. |
| Ranking.RankByDegreeStable | report/tropes_and_films.py:55-58 | In the ranking of a dictionary's keys, keys of equal degree keep their dictionary order. |
| TropesAndFilmsModel.TropesAndFilms.TropesDictionarySortedByNumberOfFilms | report/tropes_and_films.py:65-69 | The ordered dictionary's keys are exactly `tropes_sorted_by_occurrences`, a permutation of the trope keys. Each value is the number of films carrying that trope. The values are non-increasing. Tropes carried by equally many films keep their dictionary order. |
| TropesAndFilmsModel.TropesAndFilms.FilmsDictionarySortedByNumberOfTropes | report/tropes_and_films.py:71-75 | The ordered dictionary's keys are exactly `film_sorted_by_occurrences`, a permutation of the film keys. Each value is the length of that film's trope list. The values are non-increasing. Films with equally many tropes keep their dictionary order. |
| TropesAndFilmsModel.TropesAndFilms.TropeObservationsByFilm | report/tropes_and_films.py:77-78 | One entry per film, in film order, equal to the length of the list stored under that film. |
| TropesAndFilmsModel.TropesAndFilms.FilmObservationsByTrope | report/tropes_and_films.py:80-81 | One entry per trope, in key order. Each entry is the number of films carrying the trope and is at least one. The entries sum to the same total as `TropeObservationsByFilm`. |
| Scenarios.TiedFilmsKeepDictionaryOrder | report/tropes_and_films.py:57-58 | Films A:[t1,t2], B:[t1,t2], C:[t1] rank as A, B, C. |
| Scenarios.TwoFilmIndex | report/tropes_and_films.py:45-52 | FilmA:[Trope1,Trope2], FilmB:[Trope1] give the trope dictionary Trope1:[FilmA,FilmB], Trope2:[FilmA]. |
| Scenarios.TwoFilmTropeDegrees | report/tropes_and_films.py:80-81 | For that dataset the films-per-trope sequence is [2, 1]. |
| Scenarios.TwoFilmFilmDegrees | report/tropes_and_films.py:77-78 | An object built from that dataset reports the tropes-per-film sequence [2, 1]. |
| Scenarios.TwoFilmRanking | report/tropes_and_films.py:55-56 | For that dataset Trope1 ranks ahead of Trope2. |

## Left out

- Loading the JSON file and resolving its path (report/tropes_and_films.py:35-43) is file I/O. The constructor takes the loaded film dictionary instead. Its keys are required distinct, as a Python dict's are. Values are taken to be lists of strings; a file that is not such a mapping is not modelled.
- The matplotlib font setting, histograms and boxplots (report/tropes_and_films.py:60-63, 103-136) are plotting side effects.
- The descriptive statistics (report/tropes_and_films.py:83-101) are a wrapper over scipy and numpy with floating-point results.
- The best-fit distribution search is not part of this model. It is not in report/tropes_and_films.py, and it would be floating-point maximum-likelihood fitting inside a statistics library.
- tasks.py is build plumbing that shells out to external tools. report/testcase.py holds smoke tests with no assertion about the index.
- Python's sort algorithm itself (Timsort) is not modelled, only its result. A stable sort by a key has one possible output (`Ranking.RankUnique`), and the insertion sort `Ranking.Rank` computes that output.
- Hash-table lookup is modelled as a linear search over the association list, which has the same result. `OrderedDict.Lookup` returns the empty list for a missing key where Python raises `KeyError`. The report only looks up keys that exist.
- The inner loop of `_init_trope_dictionary` is a separate method, `AddTropesOfFilm`, so the two loops are proved separately. It runs the same statements on the same field.
