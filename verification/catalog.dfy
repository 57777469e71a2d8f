/** The fragrance records of the catalog's JSON data file, as the page and
    the developer scripts read them. Optional fields are `Option`s (an absent
    field is falsy in the source); numbers are integers: `rating` and `year`
    as stored, season scores in hundredths (a stored 0.9 is 90). */
module Catalog {

  datatype Option<T> = None | Some(value: T)

  /** A note is stored either as a bare name or as a name with a picture. */
  datatype NoteEntry = Plain(name: string) | Illustrated(name: string, image: string)

  /** One entry of a record's "Season Ranking" list. */
  datatype SeasonScore = SeasonScore(name: string, score: int)

  datatype Fragrance = Fragrance(
    name: string,
    brand: string,
    gender: string,
    year: Option<int>,
    popularity: string,
    rating: Option<int>,
    notes: Option<seq<seq<NoteEntry>>>,   // the note groups (top, middle, base) in key order
    seasonRanking: Option<seq<SeasonScore>>,
    imageUrl: string)                      // "" when the record has no image URL

  /** A record as the catalog page lists it: with `ID`, its position in the data file. */
  datatype Listing = Listing(id: nat, record: Fragrance)

  /** The names of one note group. */
  function GroupNames(group: seq<NoteEntry>): (r: seq<string>)
    ensures |r| == |group|
    ensures forall i :: 0 <= i < |group| ==> r[i] == group[i].name
  {
    seq(|group|, i requires 0 <= i < |group| => group[i].name)
  }

  /** The names of all notes of all groups, in order: `Object.values(Notes).flat()`
      with each entry replaced by its name. */
  function NoteNames(groups: seq<seq<NoteEntry>>): (r: seq<string>)
  {
    if groups == [] then []
    else NoteNames(groups[..|groups| - 1]) + GroupNames(groups[|groups| - 1])
  }

  /** A note name is listed exactly when some group holds an entry with that name. */
  lemma {:induction false} NoteNamesMembership(groups: seq<seq<NoteEntry>>, n: string)
    ensures n in NoteNames(groups) <==>
      exists g, i :: 0 <= g < |groups| && 0 <= i < |groups[g]| && groups[g][i].name == n
  {
    if groups != [] {
      var front, last := groups[..|groups| - 1], groups[|groups| - 1];
      NoteNamesMembership(front, n);
      if n in NoteNames(groups) {
        if n in NoteNames(front) {
          var g, i :| 0 <= g < |front| && 0 <= i < |front[g]| && front[g][i].name == n;
          assert groups[g] == front[g];
        } else {
          assert n in GroupNames(last);
          var i :| 0 <= i < |last| && GroupNames(last)[i] == n;
          assert groups[|groups| - 1][i].name == n;
        }
      } else {
        forall g, i | 0 <= g < |groups| && 0 <= i < |groups[g]|
          ensures groups[g][i].name != n
        {
          if g < |front| {
            assert groups[g] == front[g];
          } else {
            assert GroupNames(last)[i] == groups[g][i].name;
          }
        }
      }
    }
  }

  /** `fragrancesData.map((f, index) => ({ ...f, ID: index }))`. */
  function WithIds(data: seq<Fragrance>): (r: seq<Listing>)
    ensures |r| == |data|
    ensures forall i :: 0 <= i < |data| ==> r[i].id == i && r[i].record == data[i]
  {
    seq(|data|, i requires 0 <= i < |data| => Listing(i, data[i]))
  }
}
