/** Key-prefix search over a nested dictionary (search_for_match in
    tools/calc_tirr_flux.py).

    A dictionary is the sequence of its (key, value) entries in iteration
    order; a value is either another dictionary or a scalar the search never
    looks into. A value is a finite tree: a dictionary cannot contain itself. */
module CalcTirrFlux {

  datatype Value = Scalar(text: string) | Dict(entries: seq<(string, Value)>)

  /** The matches among the first `n` entries of `d`, in order: the value of
      every key that starts with `searchStr`, and, for a key that does not,
      the matches inside its value when that value is a dictionary. */
  function MatchesIn(d: seq<(string, Value)>, n: nat, searchStr: string): seq<Value>
    requires n <= |d|
    decreases Dict(d), n
  {
    if n == 0 then []
    else
      var (key, value) := d[n - 1];
      assert d[n - 1] in d;
      MatchesIn(d, n - 1, searchStr)
        + if searchStr <= key then [value]
          else if value.Dict? then MatchesIn(value.entries, |value.entries|, searchStr)
          else []
  }

  /** All matches of `d`. */
  function Matches(d: seq<(string, Value)>, searchStr: string): seq<Value>
  {
    MatchesIn(d, |d|, searchStr)
  }

  /** search_for_match: one pass over the entries, appending the value of a
      matching key and extending by the matches of a non-matching sub-dictionary. */
  method SearchForMatch(topDict: seq<(string, Value)>, searchStr: string) returns (matches: seq<Value>)
    ensures matches == Matches(topDict, searchStr)
    decreases Dict(topDict)
  {
    matches := [];
    for i := 0 to |topDict|
      invariant matches == MatchesIn(topDict, i, searchStr)
    {
      var (key, value) := topDict[i];
      assert topDict[i] in topDict;
      if searchStr <= key {
        matches := matches + [value];
      } else if value.Dict? {
        var matchRes := SearchForMatch(value.entries, searchStr);
        matches := matches + matchRes;
      }
    }
  }

  /** `v` is the value of a key starting with `searchStr` in `d` or, through
      keys that do not start with it, in a dictionary nested in `d`. */
  ghost predicate FoundUnder(d: seq<(string, Value)>, searchStr: string, v: Value)
    decreases Dict(d)
  {
    exists i :: 0 <= i < |d| &&
      var (key, value) := d[i];
      assert d[i] in d;
      if searchStr <= key then value == v
      else value.Dict? && FoundUnder(value.entries, searchStr, v)
  }

  /** Every match is the value of a matching key at some depth, reached only
      through keys that do not match. */
  lemma {:induction false} MatchesAreFound(d: seq<(string, Value)>, n: nat, searchStr: string)
    requires n <= |d|
    ensures forall v :: v in MatchesIn(d, n, searchStr) ==> FoundUnder(d, searchStr, v)
    decreases Dict(d), n
  {
    if n > 0 {
      MatchesAreFound(d, n - 1, searchStr);
      var (key, value) := d[n - 1];
      assert d[n - 1] in d;
      if !(searchStr <= key) && value.Dict? {
        MatchesAreFound(value.entries, |value.entries|, searchStr);
      }
      forall v | v in MatchesIn(d, n, searchStr)
        ensures FoundUnder(d, searchStr, v)
      {
        if v !in MatchesIn(d, n - 1, searchStr) {
          assert 0 <= n - 1 < |d|;
        }
      }
    }
  }

  /** The number of keys in the first `n` entries of `d`, counting the keys
      of nested dictionaries too. */
  function KeyCount(d: seq<(string, Value)>, n: nat): nat
    requires n <= |d|
    decreases Dict(d), n
  {
    if n == 0 then 0
    else
      var value := d[n - 1].1;
      assert d[n - 1] in d;
      KeyCount(d, n - 1) + 1 + if value.Dict? then KeyCount(value.entries, |value.entries|) else 0
  }

  /** Each key contributes at most one match or the matches of its own
      value, so there are never more matches than keys. */
  lemma {:induction false} MatchesBoundedByKeys(d: seq<(string, Value)>, n: nat, searchStr: string)
    requires n <= |d|
    ensures |MatchesIn(d, n, searchStr)| <= KeyCount(d, n)
    decreases Dict(d), n
  {
    if n > 0 {
      MatchesBoundedByKeys(d, n - 1, searchStr);
      var value := d[n - 1].1;
      assert d[n - 1] in d;
      if value.Dict? {
        MatchesBoundedByKeys(value.entries, |value.entries|, searchStr);
      }
    }
  }

  /** Only the first `n` entries matter. */
  lemma {:induction false} MatchesInPrefix(d: seq<(string, Value)>, n: nat, searchStr: string)
    requires n <= |d|
    ensures MatchesIn(d, n, searchStr) == Matches(d[..n], searchStr)
    decreases n
  {
    if n > 0 {
      MatchesInPrefix(d, n - 1, searchStr);
      MatchesInPrefix(d[..n], n - 1, searchStr);
      assert d[..n][..n - 1] == d[..n - 1];
    }
  }

  /** The matches of consecutive entries are spliced together in order: a
      dictionary's matches are those of its first part followed by those of
      the rest. */
  lemma {:induction false} MatchesOfConcat(front: seq<(string, Value)>, back: seq<(string, Value)>, searchStr: string)
    ensures Matches(front + back, searchStr) == Matches(front, searchStr) + Matches(back, searchStr)
    decreases |back|
  {
    var d := front + back;
    if back == [] {
      assert d == front;
    } else {
      var shorter := back[..|back| - 1];
      MatchesOfConcat(front, shorter, searchStr);
      MatchesInPrefix(d, |d| - 1, searchStr);
      assert d[..|d| - 1] == front + shorter;
      MatchesInPrefix(back, |back| - 1, searchStr);
      assert d[|d| - 1] == back[|back| - 1];
    }
  }

  /** What one entry contributes, at its place in iteration order: its value
      when its key matches (even if that value is a dictionary), the matches
      inside it when the key does not match and the value is a dictionary,
      and nothing otherwise. */
  lemma EntryContribution(d: seq<(string, Value)>, i: nat, searchStr: string)
    requires i < |d|
    ensures var (key, value) := d[i];
      Matches(d, searchStr) == Matches(d[..i], searchStr)
        + (if searchStr <= key then [value]
           else if value.Dict? then Matches(value.entries, searchStr)
           else [])
        + Matches(d[i + 1..], searchStr)
  {
    assert d == d[..i + 1] + d[i + 1..];
    MatchesOfConcat(d[..i + 1], d[i + 1..], searchStr);
    MatchesInPrefix(d[..i + 1], i, searchStr);
    assert d[..i + 1][..i] == d[..i];
  }

  /** The values of the entries of `d`, in order. */
  function TopLevelValues(d: seq<(string, Value)>): (r: seq<Value>)
    ensures |r| == |d| && forall i :: 0 <= i < |d| ==> r[i] == d[i].1
  {
    seq(|d|, i requires 0 <= i < |d| => d[i].1)
  }

  /** Every key starts with the empty string, so an empty search string
      yields exactly the top-level values and never descends. */
  lemma {:induction false} EmptySearchGivesTopLevelValues(d: seq<(string, Value)>, n: nat)
    requires n <= |d|
    ensures MatchesIn(d, n, "") == TopLevelValues(d[..n])
    decreases n
  {
    if n > 0 {
      EmptySearchGivesTopLevelValues(d, n - 1);
      assert TopLevelValues(d[..n]) == TopLevelValues(d[..n - 1]) + [d[n - 1].1];
    }
  }

  /** An empty dictionary has no matches. */
  lemma EmptyDictHasNoMatches(searchStr: string)
    ensures Matches([], searchStr) == []
  {
  }
}
