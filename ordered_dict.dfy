/** Python 3 dictionaries keep their keys in insertion order, and the report
    relies on that order.  A dictionary is therefore modelled as an
    association list: a sequence of (key, value) pairs in insertion order,
    whose keys are pairwise distinct. */
module OrderedDict {

  /** Both film titles and trope names are strings. */
  type Key = string

  /** A dictionary from strings to lists of strings, such as the film
      dictionary (film -> tropes) or the trope dictionary (trope -> films). */
  type Dict = seq<(Key, seq<string>)>

  predicate Distinct<T(==)>(s: seq<T>) {
    forall i, j :: 0 <= i < j < |s| ==> s[i] != s[j]
  }

  /** The keys of a dictionary, in iteration order (`d.keys()`). */
  function Keys<V>(d: seq<(Key, V)>): (ks: seq<Key>)
    ensures |ks| == |d|
    ensures forall i :: 0 <= i < |d| ==> ks[i] == d[i].0
  {
    seq(|d|, i requires 0 <= i < |d| => d[i].0)
  }

  predicate DistinctKeys<V>(d: seq<(Key, V)>) {
    Distinct(Keys(d))
  }

  /** Position of key `k` in `d`, or `|d|` when `k` is not a key. */
  function IndexOf<V>(d: seq<(Key, V)>, k: Key): (n: nat)
    ensures n <= |d|
    ensures n < |d| ==> d[n].0 == k
    ensures n == |d| <==> k !in Keys(d)
  {
    if |d| == 0 then 0
    else if d[0].0 == k then 0
    else
      assert Keys(d) == [d[0].0] + Keys(d[1..]);
      1 + IndexOf(d[1..], k)
  }

  /** The position found is the first one holding the key. */
  lemma {:induction false} IndexOfFirst<V>(d: seq<(Key, V)>, k: Key, i: nat)
    requires i < IndexOf(d, k)
    ensures d[i].0 != k
  {
    if i > 0 {
      IndexOfFirst(d[1..], k, i - 1);
    }
  }

  /** Appending a pair leaves the positions of the existing keys unchanged. */
  lemma {:induction false} IndexOfSnoc<V>(d: seq<(Key, V)>, e: (Key, V), k: Key)
    ensures IndexOf(d + [e], k) ==
      if k in Keys(d) then IndexOf(d, k) else if e.0 == k then |d| else |d| + 1
  {
    if |d| > 0 {
      assert (d + [e])[1..] == d[1..] + [e];
      assert Keys(d) == [d[0].0] + Keys(d[1..]);
      IndexOfSnoc(d[1..], e, k);
    }
  }

  /** `d[k]`, the value stored under a key; the empty list for a missing key. */
  function Lookup(d: Dict, k: Key): seq<string> {
    var n := IndexOf(d, k);
    if n < |d| then d[n].1 else []
  }

  /** `len(d[k])`: the degree of a key. */
  function Degree(d: Dict, k: Key): nat {
    |Lookup(d, k)|
  }

  /** `d[k] = v`: replaces the value of an existing key in place, and appends
      a new pair at the end for a new key. */
  function Put<V>(d: seq<(Key, V)>, k: Key, v: V): (d': seq<(Key, V)>)
    ensures k in Keys(d) ==> |d'| == |d| && d'[IndexOf(d, k)] == (k, v)
    ensures k in Keys(d) ==> forall i :: 0 <= i < |d| && i != IndexOf(d, k) ==> d'[i] == d[i]
    ensures k !in Keys(d) ==> d' == d + [(k, v)]
  {
    var n := IndexOf(d, k);
    if n < |d| then d[n := (k, v)] else d + [(k, v)]
  }

  /** Filling a dictionary in the order of a list of distinct keys: the next
      key is new, so `d[k] = v` appends it. */
  lemma PutNext<V>(d: seq<(Key, V)>, order: seq<Key>, k: nat, v: V)
    requires Distinct(order) && k < |order|
    requires Keys(d) == order[..k]
    ensures Put(d, order[k], v) == d + [(order[k], v)]
    ensures Keys(Put(d, order[k], v)) == order[..k + 1]
  {
    assert order[k] !in order[..k];
    assert order[..k + 1] == order[..k] + [order[k]];
  }

  /** In a dictionary the value stored at position `i` is the one found under
      its key. */
  lemma LookupAt(d: Dict, i: nat)
    requires DistinctKeys(d)
    requires i < |d|
    ensures Lookup(d, d[i].0) == d[i].1
  {
    var n := IndexOf(d, d[i].0);
    assert Keys(d)[n] == Keys(d)[i];
  }

  /** `[len(values) for values in d.values()]`. */
  function Lengths(d: Dict): (r: seq<nat>)
    ensures |r| == |d|
    ensures forall i :: 0 <= i < |d| ==> r[i] == |d[i].1|
  {
    seq(|d|, i requires 0 <= i < |d| => |d[i].1|)
  }

  function Sum(s: seq<nat>): nat {
    if |s| == 0 then 0 else Sum(s[..|s| - 1]) + s[|s| - 1]
  }

  /** The number of (key, element) pairs stored in a dictionary. */
  function Total(d: Dict): nat {
    Sum(Lengths(d))
  }

  lemma TotalSnoc(d: Dict, e: (Key, seq<string>))
    ensures Total(d + [e]) == Total(d) + |e.1|
  {
    assert Lengths(d + [e])[..|d|] == Lengths(d);
  }

  /** Replacing one value changes the total by the difference in length. */
  lemma {:induction false} TotalUpdate(d: Dict, n: nat, e: (Key, seq<string>))
    requires n < |d|
    ensures Total(d[n := e]) + |d[n].1| == Total(d) + |e.1|
  {
    var last := |d| - 1;
    if n == last {
      TotalSnoc(d[..last], d[last]);
      TotalSnoc(d[..last], e);
      assert d[..last] + [d[last]] == d;
      assert d[..last] + [e] == d[n := e];
    } else {
      TotalUpdate(d[..last], n, e);
      TotalSnoc(d[..last], d[last]);
      TotalSnoc(d[..last][n := e], d[last]);
      assert d[..last] + [d[last]] == d;
      assert d[..last][n := e] + [d[last]] == d[n := e];
    }
  }
}
