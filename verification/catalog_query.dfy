/** The catalog page's query engine (src/app/page.tsx, the `filtered` memo
    and the Show More window): an AND of the active filters, then a stable
    sort selected by `sortBy`, then the first `visibleCount` results. */
module CatalogQuery {
  import opened Catalog
  import opened Text
  import Sorting

  /** The season filter passes scores strictly above 0.9 (in hundredths). */
  const SeasonThreshold: int := 90

  /** Show More reveals this many further results. */
  const PageStep: nat := 20

  /** The filter inputs of the page: the search box and the four toggles. */
  datatype Criteria = Criteria(
    search: string,
    gender: Option<string>,
    designer: Option<string>,
    note: Option<string>,
    season: Option<string>)

  /** A filter value is active when it is truthy: set and not empty. */
  predicate Active(f: Option<string>)
  {
    f.Some? && f.value != ""
  }

  /** No filter is active: the search is empty and every toggle is unset. */
  predicate Unconstrained(c: Criteria)
  {
    c.search == "" && !Active(c.gender) && !Active(c.designer) && !Active(c.note) && !Active(c.season)
  }

  /** Case-insensitive substring search over "Brand Name". */
  predicate SearchMatches(search: string, l: Listing)
  {
    search == "" || Includes(LowerStr(l.record.brand + " " + l.record.name), LowerStr(search))
  }

  predicate GenderMatches(gender: Option<string>, l: Listing)
  {
    !Active(gender) || l.record.gender == gender.value
  }

  predicate DesignerMatches(designer: Option<string>, l: Listing)
  {
    !Active(designer) || l.record.brand == designer.value
  }

  /** Only a record that has notes can fail the note filter. */
  predicate NoteMatches(note: Option<string>, l: Listing)
  {
    !Active(note) || l.record.notes.None? || note.value in NoteNames(l.record.notes.value)
  }

  /** The first entry whose name equals `season` up to ASCII case (`Array.prototype.find`). */
  function FindSeason(entries: seq<SeasonScore>, season: string): (r: Option<nat>)
    ensures r.Some? ==> r.value < |entries| && LowerStr(entries[r.value].name) == LowerStr(season)
    ensures r.Some? ==> forall i :: 0 <= i < r.value ==> LowerStr(entries[i].name) != LowerStr(season)
    ensures r.None? ==> forall i :: 0 <= i < |entries| ==> LowerStr(entries[i].name) != LowerStr(season)
  {
    if entries == [] then None
    else if LowerStr(entries[0].name) == LowerStr(season) then Some(0)
    else match FindSeason(entries[1..], season)
      case None => None
      case Some(i) => Some(i + 1)
  }

  /** A record without a season list, or whose first entry for the season
      scores at most the threshold, fails an active season filter. */
  predicate SeasonMatches(season: Option<string>, l: Listing)
  {
    !Active(season) ||
    (l.record.seasonRanking.Some? &&
     match FindSeason(l.record.seasonRanking.value, season.value)
     case None => false
     case Some(i) => l.record.seasonRanking.value[i].score > SeasonThreshold)
  }

  /** The filter of the page: every active predicate holds. */
  predicate Matches(c: Criteria, l: Listing)
  {
    && SearchMatches(c.search, l)
    && GenderMatches(c.gender, l)
    && DesignerMatches(c.designer, l)
    && NoteMatches(c.note, l)
    && SeasonMatches(c.season, l)
  }

  /** `fragrances.filter(...)`: the matching listings, in catalog order. */
  function Filter(c: Criteria, s: seq<Listing>): (r: seq<Listing>)
    ensures |r| <= |s|
    ensures forall l :: l in r <==> l in s && Matches(c, l)
  {
    if s == [] then []
    else Filter(c, s[..|s| - 1]) + (if Matches(c, s[|s| - 1]) then [s[|s| - 1]] else [])
  }

  /** An unconstrained filter returns the whole catalog, in order. */
  lemma {:induction false} FilterUnconstrained(c: Criteria, s: seq<Listing>)
    requires Unconstrained(c)
    ensures Filter(c, s) == s
  {
    if s != [] {
      FilterUnconstrained(c, s[..|s| - 1]);
      assert s == s[..|s| - 1] + [s[|s| - 1]];
    }
  }

  /** The note filter rejects a listing only when the filter is active and the
      listing has notes, none of which carries the filter's name. */
  lemma NoteFilterExact(note: Option<string>, l: Listing)
    ensures !NoteMatches(note, l) <==>
      && Active(note)
      && l.record.notes.Some?
      && forall g, i :: 0 <= g < |l.record.notes.value| && 0 <= i < |l.record.notes.value[g]| ==>
           l.record.notes.value[g][i].name != note.value
  {
    if l.record.notes.Some? {
      NoteNamesMembership(l.record.notes.value, if note.Some? then note.value else "");
    }
  }

  /** An active season filter accepts a listing exactly when its season list
      has an entry named like the season (ASCII case ignored) and the first
      such entry scores above 0.9; a score of exactly 0.9 is rejected. */
  lemma SeasonFilterExact(season: Option<string>, l: Listing)
    requires Active(season)
    ensures SeasonMatches(season, l) <==>
      && l.record.seasonRanking.Some?
      && exists i :: 0 <= i < |l.record.seasonRanking.value|
           && LowerStr(l.record.seasonRanking.value[i].name) == LowerStr(season.value)
           && (forall j :: 0 <= j < i ==> LowerStr(l.record.seasonRanking.value[j].name) != LowerStr(season.value))
           && l.record.seasonRanking.value[i].score > SeasonThreshold
  {
    if l.record.seasonRanking.Some? {
      var entries := l.record.seasonRanking.value;
      var found := FindSeason(entries, season.value);
      if found.Some? {
        var i := found.value;
        forall i' | 0 <= i' < |entries| && LowerStr(entries[i'].name) == LowerStr(season.value)
            && (forall j :: 0 <= j < i' ==> LowerStr(entries[j].name) != LowerStr(season.value))
          ensures i' == i
        {
        }
      }
    }
  }

  function Id(l: Listing): int { l.id }

  /** Filtering keeps catalog order: increasing IDs stay increasing. */
  lemma {:induction false} FilterKeepsOrder(c: Criteria, s: seq<Listing>)
    requires Sorting.StrictlyIncreasing(s, Id)
    ensures Sorting.StrictlyIncreasing(Filter(c, s), Id)
  {
    if s != [] {
      var front, last := s[..|s| - 1], s[|s| - 1];
      FilterKeepsOrder(c, front);
      var f := Filter(c, front);
      forall l | l in f ensures l.id < last.id {
        var i :| 0 <= i < |front| && front[i] == l;
      }
      if Matches(c, last) {
        forall i, j | 0 <= i < j < |f + [last]|
          ensures Id((f + [last])[i]) < Id((f + [last])[j])
        {
          if j == |f| {
            assert (f + [last])[i] == f[i] && f[i] in f;
          }
        }
      } else {
        assert Filter(c, s) == f;
      }
    }
  }

  /** The catalog as the page lists it has strictly increasing IDs. */
  lemma CatalogIdsIncrease(data: seq<Fragrance>)
    ensures Sorting.StrictlyIncreasing(WithIds(data), Id)
  {
  }

  /** "Very high" ranks 5 down to "Very low" 1; an unknown tier ranks 0. */
  function PopularityRank(popularity: string): (r: int)
    ensures 0 <= r <= 5
    ensures r == 0 <==> popularity !in ["Very high", "High", "Medium", "Low", "Very low"]
  {
    match popularity
    case "Very high" => 5
    case "High" => 4
    case "Medium" => 3
    case "Low" => 2
    case "Very low" => 1
    case _ => 0
  }

  /** The tiers rank in their natural order, every known tier above an
      unknown one: "Most popular" lists "Very high" first. */
  lemma PopularityTiersOrdered(unknown: string)
    requires unknown !in ["Very high", "High", "Medium", "Low", "Very low"]
    ensures PopularityRank(unknown) < PopularityRank("Very low") < PopularityRank("Low")
      < PopularityRank("Medium") < PopularityRank("High") < PopularityRank("Very high")
  {
  }

  /** `Number(f.rating || 0)`: a missing rating counts as 0. */
  function Rating(l: Listing): int
  {
    match l.record.rating
    case Some(v) => v
    case None => 0
  }

  /** `Number(f.Year || 0)`: a missing year counts as 0. */
  function Year(l: Listing): int
  {
    match l.record.year
    case Some(v) => v
    case None => 0
  }

  function Popularity(l: Listing): int
  {
    PopularityRank(l.record.popularity)
  }

  /** The fallback ascending-ID comparator `a.ID - b.ID` orders like the
      descending key `-ID`. */
  function NegatedId(l: Listing): int
  {
    -(l.id as int)
  }

  /** The key the comparator for `sortBy` sorts on, largest first. */
  function SortKey(sortBy: string): Listing -> int
  {
    if sortBy == "Highest rated" then Rating
    else if sortBy == "Newest" then Year
    else if sortBy == "Most popular" then Popularity
    else NegatedId
  }

  /** What the `filtered` memo yields: the filtered catalog, stably sorted. */
  function Query(c: Criteria, sortBy: string, catalog: seq<Listing>): seq<Listing>
  {
    Sorting.InsertionSort(Filter(c, catalog), SortKey(sortBy))
  }

  /** The query result is exactly the matching listings, each as often as in the
      filtered catalog, and it is what any stable sort of them would give. */
  lemma QueryIsStableSortOfFilter(c: Criteria, sortBy: string, catalog: seq<Listing>)
    ensures multiset(Query(c, sortBy, catalog)) == multiset(Filter(c, catalog))
    ensures Sorting.IsStableSortOf(Query(c, sortBy, catalog), Filter(c, catalog), SortKey(sortBy))
    ensures forall l :: l in Query(c, sortBy, catalog) <==> l in catalog && Matches(c, l)
  {
    Sorting.InsertionSortIsStableSort(Filter(c, catalog), SortKey(sortBy));
    var r := Query(c, sortBy, catalog);
    forall l ensures l in r <==> l in Filter(c, catalog) {
      assert l in r <==> l in multiset(r);
    }
  }

  /** With no filter active the result is a permutation of the whole catalog. */
  lemma UnconstrainedQueryIsPermutation(c: Criteria, sortBy: string, catalog: seq<Listing>)
    requires Unconstrained(c)
    ensures multiset(Query(c, sortBy, catalog)) == multiset(catalog)
  {
    FilterUnconstrained(c, catalog);
    QueryIsStableSortOfFilter(c, sortBy, catalog);
  }

  /** Over a catalog in ID order the result is ordered by the mode's key,
      largest first, and listings with equal keys keep ascending ID order;
      the fallback mode orders by ascending ID. */
  lemma QueryOrder(c: Criteria, sortBy: string, catalog: seq<Listing>)
    requires Sorting.StrictlyIncreasing(catalog, Id)
    ensures var r := Query(c, sortBy, catalog);
      forall i, j :: 0 <= i < j < |r| ==>
        && (sortBy == "Highest rated" ==>
              Rating(r[i]) > Rating(r[j]) || (Rating(r[i]) == Rating(r[j]) && r[i].id < r[j].id))
        && (sortBy == "Newest" ==>
              Year(r[i]) > Year(r[j]) || (Year(r[i]) == Year(r[j]) && r[i].id < r[j].id))
        && (sortBy == "Most popular" ==>
              Popularity(r[i]) > Popularity(r[j]) || (Popularity(r[i]) == Popularity(r[j]) && r[i].id < r[j].id))
        && (sortBy !in {"Highest rated", "Newest", "Most popular"} ==> r[i].id < r[j].id)
  {
    FilterKeepsOrder(c, catalog);
    Sorting.InsertionSortTieOrder(Filter(c, catalog), SortKey(sortBy), Id);
  }

  function Min(a: int, b: int): int { if a <= b then a else b }

  /** `filtered.slice(0, visibleCount)`: the results on screen. */
  function Window(filtered: seq<Listing>, visibleCount: nat): (r: seq<Listing>)
    ensures |r| == Min(visibleCount, |filtered|)
    ensures forall i :: 0 <= i < |r| ==> r[i] == filtered[i]
  {
    if visibleCount <= |filtered| then filtered[..visibleCount] else filtered
  }

  /** The Show More button is rendered only while results are hidden. */
  predicate ShowMoreOffered(filtered: seq<Listing>, visibleCount: nat)
  {
    visibleCount < |filtered|
  }

  /** Show More never hides a result, keeps the results already shown in
      place, and, when it is offered, reveals at least one more. */
  lemma ShowMoreExtendsWindow(filtered: seq<Listing>, visibleCount: nat)
    ensures var before, after := Window(filtered, visibleCount), Window(filtered, visibleCount + PageStep);
      && |before| <= |after|
      && before == after[..|before|]
      && (ShowMoreOffered(filtered, visibleCount) <==> |before| < |after|)
  {
  }
}
