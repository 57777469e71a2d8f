/** The state of the catalog page (src/app/page.tsx): the search boxes, the
    four filter toggles, the sort mode and the number of results shown, with
    the setters the sidebar and the Show More button call, and what the page
    derives from them. */
module CatalogPage {
  import opened Catalog
  import opened Text
  import opened CatalogQuery
  import CatalogIndex
  import Sorting

  /** The sort mode the page opens with. */
  const DefaultSort: string := "Most popular"

  /** How many results the page shows before Show More is used. */
  const InitialVisible: nat := 20

  /** The note list of the sidebar shows at most this many entries. */
  const NoteListCap: nat := 50

  /** A toggle button for value `v`: pressing the selected value clears the
      filter, pressing any other value selects it. */
  function Toggle(current: Option<string>, v: string): (r: Option<string>)
    ensures r == None <==> current == Some(v)
    ensures r != None ==> r == Some(v)
  {
    if current == Some(v) then None else Some(v)
  }

  /** Pressing the same toggle twice leaves the filter unset, unless `v` was
      selected to begin with, in which case it is selected again. */
  lemma ToggleTwice(current: Option<string>, v: string)
    ensures Toggle(Toggle(current, v), v) == (if current == Some(v) then current else None)
  {
  }

  /** The entries of a sidebar list whose name contains the search text up
      to ASCII case, in table order. */
  function SidebarMatches(table: seq<(string, nat)>, query: string): (r: seq<(string, nat)>)
    ensures |r| <= |table|
    ensures forall e :: e in r <==> e in table && Includes(LowerStr(e.0), LowerStr(query))
  {
    if table == [] then []
    else
      var rest := SidebarMatches(table[..|table| - 1], query);
      var last := table[|table| - 1];
      if Includes(LowerStr(last.0), LowerStr(query)) then rest + [last] else rest
  }

  /** Narrowing a list sorted by count keeps it sorted by count. */
  lemma {:induction false} SidebarMatchesSorted(table: seq<(string, nat)>, query: string)
    requires Sorting.SortedDesc(table, CatalogIndex.Count)
    ensures Sorting.SortedDesc(SidebarMatches(table, query), CatalogIndex.Count)
  {
    if table != [] {
      var front, last := table[..|table| - 1], table[|table| - 1];
      SidebarMatchesSorted(front, query);
      var rest := SidebarMatches(front, query);
      forall e | e in rest ensures e.1 >= last.1 {
        var i :| 0 <= i < |front| && front[i] == e;
        assert table[i] == e;
      }
      if Includes(LowerStr(last.0), LowerStr(query)) {
        var r := rest + [last];
        forall i, j | 0 <= i < j < |r| ensures r[i].1 >= r[j].1 {
          if j == |rest| {
            assert r[i] in rest;
          }
        }
      }
    }
  }

  /** The empty search lists every entry. */
  lemma {:induction false} SidebarMatchesEmptyQuery(table: seq<(string, nat)>)
    ensures SidebarMatches(table, "") == table
  {
    if table != [] {
      SidebarMatchesEmptyQuery(table[..|table| - 1]);
      assert OccursAt(LowerStr(table[|table| - 1].0), LowerStr(""), 0);
    }
  }

  /** An entry a sidebar list may show: a name counted in `items`, with its
      number of occurrences, whose name contains the search text up to ASCII
      case. */
  predicate Counted(e: (string, nat), items: seq<string>, query: string)
  {
    && e.0 in items
    && e.1 == CatalogIndex.Occurrences(items, e.0)
    && Includes(LowerStr(e.0), LowerStr(query))
  }

  /** The names of `items` that contain the search text up to ASCII case. */
  ghost function MatchingNames(items: seq<string>, query: string): set<string>
  {
    set k | k in items && Includes(LowerStr(k), LowerStr(query))
  }

  /** Narrowing a list whose names are distinct keeps one entry per
      matching name. */
  lemma {:induction false} SidebarMatchesCount(table: seq<(string, nat)>, query: string)
    requires Sorting.Distinct(CatalogIndex.Names(table))
    ensures |SidebarMatches(table, query)| == |MatchingNames(CatalogIndex.Names(table), query)|
  {
    if table != [] {
      var front, last := table[..|table| - 1], table[|table| - 1];
      var names := CatalogIndex.Names(table);
      assert names == CatalogIndex.Names(front) + [last.0];
      SidebarMatchesCount(front, query);
      forall i | 0 <= i < |front| ensures CatalogIndex.Names(front)[i] != last.0 {
        assert names[i] != names[|names| - 1];
      }
      if Includes(LowerStr(last.0), LowerStr(query)) {
        assert MatchingNames(names, query) == MatchingNames(CatalogIndex.Names(front), query) + {last.0};
      } else {
        assert MatchingNames(names, query) == MatchingNames(CatalogIndex.Names(front), query);
      }
    }
  }

  /** Narrowing a list whose names are distinct keeps them distinct. */
  lemma {:induction false} SidebarMatchesDistinct(table: seq<(string, nat)>, query: string)
    requires Sorting.Distinct(CatalogIndex.Names(table))
    ensures Sorting.Distinct(CatalogIndex.Names(SidebarMatches(table, query)))
  {
    if table != [] {
      var front, last := table[..|table| - 1], table[|table| - 1];
      var names := CatalogIndex.Names(table);
      assert names == CatalogIndex.Names(front) + [last.0];
      SidebarMatchesDistinct(front, query);
      var rest := SidebarMatches(front, query);
      if Includes(LowerStr(last.0), LowerStr(query)) {
        forall i | 0 <= i < |rest| ensures rest[i].0 != last.0 {
          assert rest[i] in front;
          var j :| 0 <= j < |front| && front[j] == rest[i];
          assert names[j] != names[|names| - 1];
        }
        assert CatalogIndex.Names(rest + [last]) == CatalogIndex.Names(rest) + [last.0];
      }
    }
  }

  /** `slice(0, cap)`: at most `cap` leading entries. */
  function Take(s: seq<(string, nat)>, cap: nat): (r: seq<(string, nat)>)
    ensures |r| == Min(cap, |s|)
    ensures r == s[..|r|]
  {
    if cap <= |s| then s[..cap] else s
  }

  /** Cutting a list sorted by count keeps its most frequent entries: every
      entry left out counts at most as much as every entry kept. */
  lemma TakeTop(s: seq<(string, nat)>, cap: nat)
    requires Sorting.SortedDesc(s, CatalogIndex.Count)
    ensures forall e :: e in Take(s, cap) ==> e in s
    ensures forall e, f :: e in s && e !in Take(s, cap) && f in Take(s, cap) ==> e.1 <= f.1
  {
    var t := Take(s, cap);
    forall e | e in t ensures e in s {
      var i :| 0 <= i < |t| && t[i] == e;
      assert s[i] == e;
    }
    forall e, f | e in s && e !in t && f in t ensures e.1 <= f.1 {
      var i :| 0 <= i < |s| && s[i] == e;
      var j :| 0 <= j < |t| && t[j] == f;
      assert s[j] == f;
      assert forall k :: 0 <= k < |t| ==> t[k] == s[k] != e;
      assert j < |t| <= i;
    }
  }

  /** A leading part of a list whose names are distinct has distinct names. */
  lemma TakeDistinct(s: seq<(string, nat)>, cap: nat)
    requires Sorting.Distinct(CatalogIndex.Names(s))
    ensures Sorting.Distinct(CatalogIndex.Names(Take(s, cap)))
  {
    var t := Take(s, cap);
    forall i, j | 0 <= i < j < |t| ensures CatalogIndex.Names(t)[i] != CatalogIndex.Names(t)[j] {
      assert t[i] == s[i] && t[j] == s[j];
      assert CatalogIndex.Names(s)[i] != CatalogIndex.Names(s)[j];
    }
  }

  /** Every field of the page's state, as one value. */
  datatype PageState = PageState(
    search: string,
    genderFilter: Option<string>,
    seasonFilter: Option<string>,
    designerFilter: Option<string>,
    noteFilter: Option<string>,
    designerSearch: string,
    noteSearch: string,
    sortBy: string,
    visibleCount: nat)

  /** The catalog page: its state hooks, one field each. The mobile sidebar
      flag is not part of this model. */
  class Page {
    /** The catalog with its IDs. */
    const catalog: seq<Listing>
    var search: string
    var genderFilter: Option<string>
    var seasonFilter: Option<string>
    var designerFilter: Option<string>
    var noteFilter: Option<string>
    var designerSearch: string
    var noteSearch: string
    var sortBy: string
    var visibleCount: nat

    function State(): PageState
      reads this
    {
      PageState(search, genderFilter, seasonFilter, designerFilter, noteFilter,
        designerSearch, noteSearch, sortBy, visibleCount)
    }

    /** The page as first rendered: nothing filtered, most popular first,
        twenty results shown. */
    constructor (data: seq<Fragrance>)
      ensures catalog == WithIds(data)
      ensures State() == PageState("", None, None, None, None, "", "", DefaultSort, InitialVisible)
    {
      catalog := WithIds(data);
      search := "";
      genderFilter := None;
      seasonFilter := None;
      designerFilter := None;
      noteFilter := None;
      designerSearch := "";
      noteSearch := "";
      sortBy := DefaultSort;
      visibleCount := InitialVisible;
    }

    /** The filter inputs the `filtered` memo depends on. */
    function Criteria(): (c: CatalogQuery.Criteria)
      reads this
      ensures c.search == search && c.gender == genderFilter && c.designer == designerFilter
      ensures c.note == noteFilter && c.season == seasonFilter
    {
      CatalogQuery.Criteria(search, genderFilter, designerFilter, noteFilter, seasonFilter)
    }

    /** `hasActiveFilters`: some toggle or the search box is truthy. */
    predicate HasActiveFilters()
      reads this
    {
      Active(genderFilter) || Active(designerFilter) || Active(noteFilter) || Active(seasonFilter) || search != ""
    }

    /** The Clear button is shown exactly when some filter constrains the result. */
    lemma HasActiveFiltersIffConstrained()
      ensures HasActiveFilters() <==> !Unconstrained(Criteria())
    {
    }

    /** The `filtered` memo: the matching listings, then the in-place sort
        of the chosen mode. */
    method Filtered() returns (results: seq<Listing>)
      ensures results == Query(Criteria(), sortBy, catalog)
      ensures forall l :: l in results <==> l in catalog && Matches(Criteria(), l)
      ensures multiset(results) == multiset(Filter(Criteria(), catalog))
    {
      var matching := Filter(Criteria(), catalog);
      results := Sorting.SortArrayOf(matching, SortKey(sortBy));
      QueryIsStableSortOfFilter(Criteria(), sortBy, catalog);
    }

    /** The grid and the Show More button: the first `visibleCount` results,
        and whether any result is still hidden. */
    method Visible() returns (shown: seq<Listing>, showMore: bool)
      ensures |shown| == Min(visibleCount, |Query(Criteria(), sortBy, catalog)|)
      ensures shown == Query(Criteria(), sortBy, catalog)[..|shown|]
      ensures showMore <==> |shown| < |Query(Criteria(), sortBy, catalog)|
    {
      var results := Filtered();
      shown := Window(results, visibleCount);
      showMore := ShowMoreOffered(results, visibleCount);
    }

    /** The designer list of the sidebar: every brand whose name contains the
        designer search, with its number of fragrances, most frequent first. */
    method DesignerList() returns (list: seq<(string, nat)>)
      ensures |list| == |MatchingNames(CatalogIndex.Brands(catalog), designerSearch)|
      ensures forall e :: e in list <==> Counted(e, CatalogIndex.Brands(catalog), designerSearch)
      ensures Sorting.Distinct(CatalogIndex.Names(list))
      ensures Sorting.SortedDesc(list, CatalogIndex.Count)
    {
      var table := CatalogIndex.DesignerCounts(catalog);
      CatalogIndex.CountTableMembership(table, CatalogIndex.Brands(catalog));
      list := SidebarMatches(table, designerSearch);
      SidebarMatchesSorted(table, designerSearch);
      SidebarMatchesDistinct(table, designerSearch);
      SidebarMatchesCount(table, designerSearch);
      assert MatchingNames(CatalogIndex.Names(table), designerSearch) == MatchingNames(CatalogIndex.Brands(catalog), designerSearch);
    }

    /** The note list of the sidebar: the fifty most frequent notes whose
        name contains the note search (all of them when there are fewer),
        with their counts, most frequent first. */
    method NoteList() returns (list: seq<(string, nat)>)
      ensures |list| == Min(NoteListCap, |MatchingNames(CatalogIndex.NoteOccurrences(catalog), noteSearch)|)
      ensures forall e :: e in list ==> Counted(e, CatalogIndex.NoteOccurrences(catalog), noteSearch)
      ensures |list| < NoteListCap ==>
        forall e: (string, nat) :: Counted(e, CatalogIndex.NoteOccurrences(catalog), noteSearch) ==> e in list
      ensures forall e: (string, nat), f :: Counted(e, CatalogIndex.NoteOccurrences(catalog), noteSearch) && e !in list && f in list ==>
        e.1 <= f.1
      ensures Sorting.Distinct(CatalogIndex.Names(list))
      ensures Sorting.SortedDesc(list, CatalogIndex.Count)
    {
      ghost var items := CatalogIndex.NoteOccurrences(catalog);
      var table := CatalogIndex.NoteCounts(catalog);
      CatalogIndex.CountTableMembership(table, items);
      var matching := SidebarMatches(table, noteSearch);
      SidebarMatchesSorted(table, noteSearch);
      SidebarMatchesCount(table, noteSearch);
      assert MatchingNames(CatalogIndex.Names(table), noteSearch) == MatchingNames(items, noteSearch);
      list := Take(matching, NoteListCap);
      TakeTop(matching, NoteListCap);
      SidebarMatchesDistinct(table, noteSearch);
      TakeDistinct(matching, NoteListCap);
    }

    /** The main search box. */
    method SetSearch(value: string)
      modifies this
      ensures State() == old(State()).(search := value)
    {
      search := value;
    }

    /** The designer search box of the sidebar. */
    method SetDesignerSearch(value: string)
      modifies this
      ensures State() == old(State()).(designerSearch := value)
    {
      designerSearch := value;
    }

    /** The note search box of the sidebar. */
    method SetNoteSearch(value: string)
      modifies this
      ensures State() == old(State()).(noteSearch := value)
    {
      noteSearch := value;
    }

    /** The sort selector. */
    method SetSortBy(value: string)
      modifies this
      ensures State() == old(State()).(sortBy := value)
    {
      sortBy := value;
    }

    /** A gender button. */
    method ToggleGender(g: string)
      modifies this
      ensures State() == old(State()).(genderFilter := Toggle(old(genderFilter), g))
    {
      genderFilter := Toggle(genderFilter, g);
    }

    /** A season button. */
    method ToggleSeason(season: string)
      modifies this
      ensures State() == old(State()).(seasonFilter := Toggle(old(seasonFilter), season))
    {
      seasonFilter := Toggle(seasonFilter, season);
    }

    /** A designer entry of the sidebar. */
    method ToggleDesigner(d: string)
      modifies this
      ensures State() == old(State()).(designerFilter := Toggle(old(designerFilter), d))
    {
      designerFilter := Toggle(designerFilter, d);
    }

    /** A note entry of the sidebar. */
    method ToggleNote(note: string)
      modifies this
      ensures State() == old(State()).(noteFilter := Toggle(old(noteFilter), note))
    {
      noteFilter := Toggle(noteFilter, note);
    }

    /** `clearFilters`: every toggle unset and every search box emptied; the
        sort mode and the number of results shown stay as they were. */
    method ClearFilters()
      modifies this
      ensures genderFilter == None && designerFilter == None && noteFilter == None && seasonFilter == None
      ensures search == "" && designerSearch == "" && noteSearch == ""
      ensures sortBy == old(sortBy) && visibleCount == old(visibleCount)
      ensures !HasActiveFilters() && Unconstrained(Criteria())
    {
      genderFilter := None;
      designerFilter := None;
      noteFilter := None;
      seasonFilter := None;
      search := "";
      designerSearch := "";
      noteSearch := "";
    }

    /** Show More: twenty more results. */
    method ShowMore()
      modifies this
      ensures State() == old(State()).(visibleCount := old(visibleCount) + PageStep)
      ensures visibleCount > old(visibleCount)
    {
      visibleCount := visibleCount + PageStep;
    }
  }

  /** After Clear, the page lists the whole catalog again. */
  lemma ClearedPageListsCatalog(p: PageState, catalog: seq<Listing>)
    requires p.search == "" && p.genderFilter == None && p.designerFilter == None
    requires p.noteFilter == None && p.seasonFilter == None
    ensures multiset(Query(CatalogQuery.Criteria(p.search, p.genderFilter, p.designerFilter, p.noteFilter, p.seasonFilter),
      p.sortBy, catalog)) == multiset(catalog)
  {
    UnconstrainedQueryIsPermutation(
      CatalogQuery.Criteria(p.search, p.genderFilter, p.designerFilter, p.noteFilter, p.seasonFilter), p.sortBy, catalog);
  }
}
