/** The search box of the study-spot list (`StudySpotList.tsx`): which spots
    the list shows for a search term, and what it says when none is left. */
module SpotSearch {
  import opened Api
  import Seqs

  /** The fields of a `StudySpot` the search reads. */
  datatype Spot = Spot(id: int, name: string, description: Option<string>)

  datatype ViewMode = ListMode | MapMode

  /** What the list area renders once the spots are loaded. */
  datatype ListView =
    | Cards(spots: seq<Spot>)
    | MapView(spots: seq<Spot>)
    | EmptyState(message: string, hint: Option<string>)

  const NoMatchMessage := "No study spots found matching your search."
  const NoSpotsMessage := "No study spots available yet."
  const FirstSpotHint := "Be the first to add a study spot!"

  /** `toLowerCase` on one character, for ASCII letters. */
  function LowerChar(c: char): char
  {
    if 'A' <= c <= 'Z' then (c as int + 32) as char else c
  }

  /** `toUpperCase` on one character, for ASCII letters. */
  function UpperChar(c: char): char
  {
    if 'a' <= c <= 'z' then (c as int - 32) as char else c
  }

  function Lower(s: string): (r: string)
    ensures |r| == |s|
  {
    seq(|s|, i requires 0 <= i < |s| => LowerChar(s[i]))
  }

  function Upper(s: string): (r: string)
    ensures |r| == |s|
  {
    seq(|s|, i requires 0 <= i < |s| => UpperChar(s[i]))
  }

  /** `String.prototype.includes`: `needle` occurs in `hay` at some position;
      the empty string occurs in every string. */
  predicate Includes(hay: string, needle: string)
  {
    exists i :: 0 <= i <= |hay| && needle <= hay[i..]
  }

  /** The predicate passed to `spots.filter`: the name contains the term, or
      there is a description and it contains the term, ignoring case. */
  predicate Matches(spot: Spot, term: string)
  {
    || Includes(Lower(spot.name), Lower(term))
    || (spot.description.Some? && Includes(Lower(spot.description.value), Lower(term)))
  }

  function Matcher(term: string): Spot -> bool
  {
    (s: Spot) => Matches(s, term)
  }

  /** `filteredSpots`: the spots that match, in their original order. */
  function FilterSpots(spots: seq<Spot>, term: string): (r: seq<Spot>)
    ensures forall i :: 0 <= i < |r| ==> r[i] in spots && Matches(r[i], term)
    ensures forall i :: 0 <= i < |spots| && Matches(spots[i], term) ==> spots[i] in r
    ensures Seqs.IsSubsequence(r, spots)
    ensures forall x :: multiset(r)[x] == if Matches(x, term) then multiset(spots)[x] else 0
  {
    Seqs.FilterIsSubsequence(spots, Matcher(term));
    Seqs.FilterMultiset(spots, Matcher(term));
    Seqs.Filter(spots, Matcher(term))
  }

  /** The list area: the empty-state text when nothing is left (with the
      invitation to add a spot only when no term is typed), otherwise the
      matching spots as cards or on the map. */
  function View(spots: seq<Spot>, term: string, mode: ViewMode): (v: ListView)
    ensures v.EmptyState? <==> forall i :: 0 <= i < |spots| ==> !Matches(spots[i], term)
    ensures v.EmptyState? ==> (v.message == NoMatchMessage <==> term != "")
    ensures v.EmptyState? ==> (v.hint == Some(FirstSpotHint) <==> term == "") && (v.hint.Some? <==> term == "")
    ensures v.EmptyState? && term == "" ==> v.message == NoSpotsMessage && spots == []
    ensures v.MapView? <==> !v.EmptyState? && mode == MapMode
    ensures !v.EmptyState? ==> v.spots == FilterSpots(spots, term)
  {
    EmptyTermKeepsAll(spots);
    var shown := FilterSpots(spots, term);
    if |shown| == 0 then
      if term != "" then EmptyState(NoMatchMessage, None)
      else EmptyState(NoSpotsMessage, Some(FirstSpotHint))
    else if mode == MapMode then MapView(shown)
    else Cards(shown)
  }

  /** Every string contains the empty string, so an empty term keeps every
      spot. */
  lemma EmptyTermKeepsAll(spots: seq<Spot>)
    ensures FilterSpots(spots, "") == spots
  {
    forall i | 0 <= i < |spots| ensures Matches(spots[i], "") {
      assert "" <= Lower(spots[i].name)[0..];
    }
    Seqs.FilterAll(spots, Matcher(""));
  }

  /** Two terms that lower-case alike select the same spots. */
  lemma SameLowerSameResult(spots: seq<Spot>, term: string, term': string)
    requires Lower(term) == Lower(term')
    ensures FilterSpots(spots, term) == FilterSpots(spots, term')
  {
    Seqs.FilterCongruent(spots, Matcher(term), Matcher(term'));
  }

  lemma LowerOfUpper(s: string)
    ensures Lower(Upper(s)) == Lower(s)
  {
    forall i | 0 <= i < |s| ensures Lower(Upper(s))[i] == Lower(s)[i] {
      var c := s[i];
      assert Upper(s)[i] == UpperChar(c);
    }
  }

  /** Typing the term in capitals, or in lower case, finds the same spots. */
  lemma CaseInsensitive(spots: seq<Spot>, term: string)
    ensures FilterSpots(spots, Upper(term)) == FilterSpots(spots, term)
    ensures FilterSpots(spots, Lower(term)) == FilterSpots(spots, term)
  {
    LowerOfUpper(term);
    SameLowerSameResult(spots, Upper(term), term);
    assert Lower(Lower(term)) == Lower(term);
    SameLowerSameResult(spots, Lower(term), term);
  }

  /** A spot without a description is kept exactly when its name matches. */
  lemma NoDescriptionNameOnly(spots: seq<Spot>, term: string, i: nat)
    requires i < |spots| && spots[i].description.None?
    ensures spots[i] in FilterSpots(spots, term) <==> Includes(Lower(spots[i].name), Lower(term))
  {
  }

  /** Filtering the filtered list again with the same term changes nothing. */
  lemma FilterTwiceIsOnce(spots: seq<Spot>, term: string)
    ensures FilterSpots(FilterSpots(spots, term), term) == FilterSpots(spots, term)
  {
    Seqs.FilterIdempotent(spots, Matcher(term));
  }

  /** The empty state shows "No study spots available yet." exactly when no
      term is typed and there are no spots at all. */
  lemma NoSpotsMessageMeansNoSpots(spots: seq<Spot>, term: string, mode: ViewMode)
    ensures View(spots, term, mode) == EmptyState(NoSpotsMessage, Some(FirstSpotHint))
        <==> term == "" && spots == []
  {
    if term == "" {
      EmptyTermKeepsAll(spots);
    }
  }

  /** The empty state shows "No study spots found matching your search." exactly
      when a term is typed and no spot matches it. */
  lemma NoMatchMessageMeansNoMatch(spots: seq<Spot>, term: string, mode: ViewMode)
    ensures View(spots, term, mode) == EmptyState(NoMatchMessage, None)
        <==> term != "" && forall i :: 0 <= i < |spots| ==> !Matches(spots[i], term)
  {
  }

  /** When something matches, the view lists exactly the matching spots. */
  lemma ViewShowsFiltered(spots: seq<Spot>, term: string, mode: ViewMode)
    requires exists i :: 0 <= i < |spots| && Matches(spots[i], term)
    ensures View(spots, term, mode) == if mode == MapMode then MapView(FilterSpots(spots, term))
                                       else Cards(FilterSpots(spots, term))
  {
  }
}
