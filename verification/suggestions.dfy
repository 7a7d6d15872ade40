/** One improvement item of an analysis, and the stable priority sort the parser applies
    to the list of them (`analysis['suggestions'].sort(key=...)` in backend/analyzer.py). */
module Suggestions {
  import opened Wrappers
  import StableSort

  /** A decoded suggestion object. Every key is optional, as in the JSON the model returns;
      `text` is the value of the `suggestion` key. */
  datatype Suggestion = Suggestion(
    category: Option<string>,
    priority: Option<string>,
    location: Option<string>,
    issue: Option<string>,
    text: Option<string>,
    example: Option<string>)

  const MaxRank: nat := 3

  /** The sort key: HIGH 0, MEDIUM 1, LOW 2, any other value 3; an absent priority reads
      as LOW. */
  function Rank(s: Suggestion): (r: nat)
    ensures r <= MaxRank
  {
    match s.priority
    case None => 2
    case Some(p) =>
      if p == "HIGH" then 0
      else if p == "MEDIUM" then 1
      else if p == "LOW" then 2
      else 3
  }

  /** The rank of each priority value the model is told to use, and of a missing one. */
  lemma RankTable(s: Suggestion)
    ensures s.priority == Some("HIGH") ==> Rank(s) == 0
    ensures s.priority == Some("MEDIUM") ==> Rank(s) == 1
    ensures s.priority == Some("LOW") || s.priority == None ==> Rank(s) == 2
    ensures Rank(s) == 3 <==> s.priority.Some? && s.priority.value !in {"HIGH", "MEDIUM", "LOW"}
  {
  }

  /** The priority sort: ordered by rank, a permutation of its input, and stable, i.e. every
      rank group of the result is that group of the input in input order. */
  function SortSuggestions(xs: seq<Suggestion>): (r: seq<Suggestion>)
    ensures StableSort.SortedBy(r, Rank)
    ensures multiset(r) == multiset(xs)
    ensures |r| == |xs|
    ensures forall k: nat :: StableSort.OfKey(r, Rank, k) == StableSort.OfKey(xs, Rank, k)
  {
    StableSort.SortByKeyCorrect(xs, Rank);
    var r := StableSort.SortByKey(xs, Rank);
    assert |multiset(r)| == |multiset(xs)|;
    r
  }

  /** Sorting an already sorted list changes nothing. */
  lemma SortSuggestionsIdempotent(xs: seq<Suggestion>)
    ensures SortSuggestions(SortSuggestions(xs)) == SortSuggestions(xs)
  {
    StableSort.SortByKeyOfSorted(SortSuggestions(xs), Rank);
  }
}
