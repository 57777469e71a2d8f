/** The catalog page's count tables (src/app/page.tsx, the `designers` and
    `notes` memos): a dictionary from name to number of occurrences, filled
    by a loop over the catalog, turned into `[name, count]` entries and
    sorted by count, largest first. */
module CatalogIndex {
  import opened Catalog
  import Sorting

  /** How often `k` occurs in `items`. */
  function Occurrences(items: seq<string>, k: string): nat
  {
    if items == [] then 0
    else Occurrences(items[..|items| - 1], k) + (if items[|items| - 1] == k then 1 else 0)
  }

  /** `items` without any occurrence of `k`. */
  function Without(items: seq<string>, k: string): seq<string>
  {
    if items == [] then []
    else Without(items[..|items| - 1], k) + (if items[|items| - 1] == k then [] else [items[|items| - 1]])
  }

  /** The brand of every listing, in catalog order. */
  function Brands(catalog: seq<Listing>): seq<string>
  {
    if catalog == [] then []
    else Brands(catalog[..|catalog| - 1]) + [catalog[|catalog| - 1].record.brand]
  }

  /** The note names a listing contributes: none when it has no notes. */
  function NotesOf(l: Listing): seq<string>
  {
    match l.record.notes
    case None => []
    case Some(groups) => NoteNames(groups)
  }

  /** Every note entry of every listing that has notes, in catalog order. */
  function NoteOccurrences(catalog: seq<Listing>): seq<string>
  {
    if catalog == [] then []
    else NoteOccurrences(catalog[..|catalog| - 1]) + NotesOf(catalog[|catalog| - 1])
  }

  /** A JavaScript object used as a dictionary of counters: its keys in
      insertion order (the order `Object.entries` lists string keys in), and
      the value of each key. */
  datatype Tally = Tally(keys: seq<string>, counts: map<string, nat>)

  /** `t` holds the number of occurrences of each name of `items`, and nothing else. */
  ghost predicate Tallies(t: Tally, items: seq<string>)
  {
    && Sorting.Distinct(t.keys)
    && (forall k :: k in t.counts <==> k in t.keys)
    && (forall k :: k in t.keys <==> k in items)
    && (forall k :: k in t.counts ==> t.counts[k] == Occurrences(items, k))
  }

  /** A name occurs a positive number of times exactly when it is among the items. */
  lemma {:induction false} OccurrencesPositive(items: seq<string>, k: string)
    ensures Occurrences(items, k) > 0 <==> k in items
  {
    if items != [] {
      var front := items[..|items| - 1];
      OccurrencesPositive(front, k);
      assert items == front + [items[|items| - 1]];
    }
  }

  /** `dict[name] = (dict[name] || 0) + 1`. */
  function Increment(t: Tally, name: string): Tally
  {
    if name in t.counts then Tally(t.keys, t.counts[name := t.counts[name] + 1])
    else Tally(t.keys + [name], t.counts[name := 1])
  }

  /** Counting one more occurrence keeps the dictionary exact. */
  lemma IncrementTallies(t: Tally, items: seq<string>, name: string)
    requires Tallies(t, items)
    ensures Tallies(Increment(t, name), items + [name])
  {
    var items' := items + [name];
    assert items'[..|items'| - 1] == items;
    forall k ensures Occurrences(items', k) == Occurrences(items, k) + (if k == name then 1 else 0) {
    }
    var t' := Increment(t, name);
    forall k ensures k in t'.keys <==> k in items' {
      assert k in items' <==> k in items || k == name;
    }
    if name !in t.counts {
      forall i, j | 0 <= i < j < |t'.keys| ensures t'.keys[i] != t'.keys[j] {
        if j == |t.keys| {
          assert t.keys[i] in t.keys;
        }
      }
    }
    forall k | k in t'.counts ensures t'.counts[k] == Occurrences(items', k) {
      if k != name {
        assert t'.counts[k] == t.counts[k];
      } else if name !in t.counts {
        OccurrencesPositive(items, name);
      }
    }
  }

  /** The entries `[name, count]` of a dictionary, in key order (`Object.entries`). */
  function Entries(t: Tally): (r: seq<(string, nat)>)
    requires forall k :: k in t.keys ==> k in t.counts
    ensures |r| == |t.keys|
    ensures forall i :: 0 <= i < |r| ==> r[i] == (t.keys[i], t.counts[t.keys[i]])
  {
    seq(|t.keys|, i requires 0 <= i < |t.keys| => (t.keys[i], t.counts[t.keys[i]]))
  }

  function Names(table: seq<(string, nat)>): (r: seq<string>)
    ensures |r| == |table|
    ensures forall i :: 0 <= i < |table| ==> r[i] == table[i].0
  {
    seq(|table|, i requires 0 <= i < |table| => table[i].0)
  }

  /** The sum of the counts of a table. */
  function Total(table: seq<(string, nat)>): nat
  {
    if table == [] then 0 else table[0].1 + Total(table[1..])
  }

  function Count(e: (string, nat)): int { e.1 }

  /** `table` lists every name of `items` once, with its number of occurrences. */
  ghost predicate IsCountTable(table: seq<(string, nat)>, items: seq<string>)
  {
    && Sorting.Distinct(Names(table))
    && (forall k :: k in Names(table) <==> k in items)
    && (forall e :: e in table ==> e.1 == Occurrences(items, e.0))
  }

  lemma {:induction false} WithoutFacts(items: seq<string>, k: string)
    ensures |items| == Occurrences(items, k) + |Without(items, k)|
    ensures forall x :: x in Without(items, k) <==> x in items && x != k
    ensures forall x :: x != k ==> Occurrences(Without(items, k), x) == Occurrences(items, x)
  {
    if items != [] {
      var front, last := items[..|items| - 1], items[|items| - 1];
      WithoutFacts(front, k);
      assert items == front + [last];
      var w := Without(front, k);
      assert Without(items, k) == w + (if last == k then [] else [last]);
      if last != k {
        assert (w + [last])[..|w + [last]| - 1] == w;
        forall x | x != k
          ensures Occurrences(Without(items, k), x) == Occurrences(items, x)
        {
          assert Occurrences(w + [last], x) == Occurrences(w, x) + (if last == x then 1 else 0);
        }
      } else {
        assert Without(items, k) == w;
        forall x | x != k
          ensures Occurrences(Without(items, k), x) == Occurrences(items, x)
        {
          assert Occurrences(items, x) == Occurrences(front, x);
        }
      }
      forall x ensures x in Without(items, k) <==> x in items && x != k {
        assert x in items <==> x in front || x == last;
      }
    }
  }

  lemma NoMembersEmpty(items: seq<string>)
    ensures (forall x :: x !in items) ==> items == []
  {
    if items != [] {
      var x := items[0];
      assert x in items;
    }
  }

  /** The counts of a count table add up to the number of items counted. */
  lemma {:induction false} CountTableTotal(table: seq<(string, nat)>, items: seq<string>)
    requires IsCountTable(table, items)
    ensures Total(table) == |items|
    decreases |table|
  {
    if table == [] {
      assert forall x :: x !in items;
      NoMembersEmpty(items);
    } else {
      var k, rest := table[0].0, table[1..];
      var items' := Without(items, k);
      WithoutFacts(items, k);
      assert Names(rest) == Names(table)[1..];
      assert table[0] in table;
      forall x | x in Names(rest) ensures x in items' {
        var i :| 0 <= i < |rest| && Names(rest)[i] == x;
        assert Names(table)[i + 1] == x;
        assert x in Names(table);
      }
      forall x | x in items' ensures x in Names(rest) {
        assert x in Names(table);
        var i :| 0 <= i < |table| && Names(table)[i] == x;
        assert Names(rest)[i - 1] == x;
      }
      forall e | e in rest ensures e.1 == Occurrences(items', e.0) {
        var i :| 0 <= i < |rest| && rest[i] == e;
        assert table[i + 1] == e && e in table;
        assert Names(table)[i + 1] == e.0;
      }
      assert Sorting.Distinct(Names(rest));
      CountTableTotal(rest, items');
    }
  }

  /** A count table holds exactly the pairs of a counted name and its count. */
  lemma CountTableMembership(table: seq<(string, nat)>, items: seq<string>)
    requires IsCountTable(table, items)
    ensures forall e :: e in table <==> e.0 in items && e.1 == Occurrences(items, e.0)
  {
    forall e | e in table ensures e.0 in items {
      var i :| 0 <= i < |table| && table[i] == e;
      assert Names(table)[i] == e.0;
    }
    forall e: (string, nat) | e.0 in items && e.1 == Occurrences(items, e.0) ensures e in table {
      assert e.0 in Names(table);
      var i :| 0 <= i < |table| && Names(table)[i] == e.0;
      assert table[i] in table;
      assert table[i] == e;
    }
  }

  /** An exact dictionary's entries form a count table. */
  lemma EntriesCountTable(t: Tally, items: seq<string>)
    requires Tallies(t, items)
    ensures IsCountTable(Entries(t), items)
    ensures Sorting.Distinct(Entries(t))
  {
    assert Names(Entries(t)) == t.keys;
    forall e | e in Entries(t) ensures e.1 == Occurrences(items, e.0) {
      var i :| 0 <= i < |Entries(t)| && Entries(t)[i] == e;
    }
  }

  /** A sequence of distinct pairs with the same members as a count table
      is a count table of the same items. */
  lemma SameMembersCountTable(table: seq<(string, nat)>, u: seq<(string, nat)>, items: seq<string>)
    requires IsCountTable(table, items) && Sorting.Distinct(u)
    requires forall e :: e in u <==> e in table
    ensures IsCountTable(u, items)
  {
    forall k | k in Names(u) ensures k in Names(table) {
      var i :| 0 <= i < |u| && Names(u)[i] == k;
      assert u[i] in table;
      var j :| 0 <= j < |table| && table[j] == u[i];
      assert Names(table)[j] == k;
    }
    forall k | k in Names(table) ensures k in Names(u) {
      var j :| 0 <= j < |table| && Names(table)[j] == k;
      assert table[j] in u;
      var i :| 0 <= i < |u| && u[i] == table[j];
      assert Names(u)[i] == k;
    }
    forall i, j | 0 <= i < j < |u| ensures Names(u)[i] != Names(u)[j] {
      assert u[i] in table && u[j] in table;
    }
  }

  /** Sorting a count table leaves it a count table of the same items. */
  lemma SortedCountTable(table: seq<(string, nat)>, items: seq<string>)
    requires IsCountTable(table, items) && Sorting.Distinct(table)
    ensures IsCountTable(Sorting.InsertionSort(table, Count), items)
  {
    var u := Sorting.InsertionSort(table, Count);
    Sorting.InsertionSortPermutation(table, Count);
    Sorting.InsertionSortDistinct(table, Count);
    forall e ensures e in u <==> e in table {
      assert e in u <==> e in multiset(u);
    }
    SameMembersCountTable(table, u, items);
  }

  /** `Object.entries(dict).sort((a, b) => b[1] - a[1])`. */
  method SortedTable(t: Tally, ghost items: seq<string>) returns (table: seq<(string, nat)>)
    requires Tallies(t, items)
    ensures IsCountTable(table, items)
    ensures Sorting.SortedDesc(table, Count)
    ensures Total(table) == |items|
  {
    EntriesCountTable(t, items);
    table := Sorting.SortArrayOf(Entries(t), Count);
    SortedCountTable(Entries(t), items);
    Sorting.InsertionSortSorted(Entries(t), Count);
    CountTableTotal(table, items);
  }

  /** The `designers` memo: each brand with its number of fragrances, most
      frequent first; the counts add up to the catalog size. */
  method DesignerCounts(catalog: seq<Listing>) returns (table: seq<(string, nat)>)
    ensures IsCountTable(table, Brands(catalog))
    ensures Sorting.SortedDesc(table, Count)
    ensures Total(table) == |catalog|
  {
    var brands := Tally([], map[]);
    for i := 0 to |catalog|
      invariant Tallies(brands, Brands(catalog[..i]))
    {
      assert catalog[..i + 1][..i] == catalog[..i];
      IncrementTallies(brands, Brands(catalog[..i]), catalog[i].record.brand);
      brands := Increment(brands, catalog[i].record.brand);
    }
    assert catalog[..|catalog|] == catalog;
    BrandsLength(catalog);
    table := SortedTable(brands, Brands(catalog));
  }

  lemma {:induction false} BrandsLength(catalog: seq<Listing>)
    ensures |Brands(catalog)| == |catalog|
  {
    if catalog != [] {
      BrandsLength(catalog[..|catalog| - 1]);
    }
  }

  /** The inner `forEach` of the `notes` memo: counts each name of one listing. */
  method TallyNames(t: Tally, names: seq<string>, ghost before: seq<string>) returns (t': Tally)
    requires Tallies(t, before)
    ensures Tallies(t', before + names)
  {
    t' := t;
    ghost var seen := before;
    assert before + names[..0] == before;
    for j := 0 to |names|
      invariant seen == before + names[..j]
      invariant Tallies(t', seen)
    {
      assert names[..j + 1] == names[..j] + [names[j]];
      IncrementTallies(t', seen, names[j]);
      t' := Increment(t', names[j]);
      seen := seen + [names[j]];
    }
    assert names[..|names|] == names;
  }

  /** The `notes` memo: each note name with its number of entries over the
      listings that have notes, most frequent first; the counts add up to
      the number of those entries. */
  method NoteCounts(catalog: seq<Listing>) returns (table: seq<(string, nat)>)
    ensures IsCountTable(table, NoteOccurrences(catalog))
    ensures Sorting.SortedDesc(table, Count)
    ensures Total(table) == |NoteOccurrences(catalog)|
  {
    var noteMap := Tally([], map[]);
    for i := 0 to |catalog|
      invariant Tallies(noteMap, NoteOccurrences(catalog[..i]))
    {
      assert catalog[..i + 1][..i] == catalog[..i];
      assert NoteOccurrences(catalog[..i + 1]) == NoteOccurrences(catalog[..i]) + NotesOf(catalog[i]);
      if catalog[i].record.notes.Some? {
        noteMap := TallyNames(noteMap, NoteNames(catalog[i].record.notes.value), NoteOccurrences(catalog[..i]));
      } else {
        assert NoteOccurrences(catalog[..i + 1]) == NoteOccurrences(catalog[..i]);
      }
    }
    assert catalog[..|catalog|] == catalog;
    table := SortedTable(noteMap, NoteOccurrences(catalog));
  }
}
