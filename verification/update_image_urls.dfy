/** The image URL rewrite script (dev-scripts/update-image-urls.js): every
    record whose index has a local path in the image mapping gets that path
    as its image URL, in place, and the script counts the records it
    updated and skipped. */
module UpdateImageUrls {
  import opened Catalog
  import DownloadImages

  /** `imageMapping[i]` is truthy: present and not empty. */
  predicate Mapped(m: map<nat, string>, i: nat)
  {
    i in m && m[i] != ""
  }

  /** The records after the rewrite: a mapped record's image URL is its
      mapping entry; every other field, and every unmapped record, is as
      before. */
  function Rewritten(s: seq<Fragrance>, m: map<nat, string>): (r: seq<Fragrance>)
    ensures |r| == |s|
    ensures forall i :: 0 <= i < |s| ==> r[i].imageUrl == (if Mapped(m, i) then m[i] else s[i].imageUrl)
    ensures forall i :: 0 <= i < |s| ==> r[i].(imageUrl := s[i].imageUrl) == s[i]
  {
    seq(|s|, i requires 0 <= i < |s| => if Mapped(m, i) then s[i].(imageUrl := m[i]) else s[i])
  }

  /** Running the rewrite a second time with the same mapping changes nothing. */
  lemma RewrittenIdempotent(s: seq<Fragrance>, m: map<nat, string>)
    ensures Rewritten(Rewritten(s, m), m) == Rewritten(s, m)
  {
    var once := Rewritten(s, m);
    var twice := Rewritten(once, m);
    forall i | 0 <= i < |s| ensures twice[i] == once[i] {
      assert twice[i].(imageUrl := once[i].imageUrl) == once[i];
    }
  }

  /** The number of indices below `n` with a truthy mapping entry. */
  function MappedCount(m: map<nat, string>, n: nat): (r: nat)
    ensures r <= n
  {
    if n == 0 then 0 else MappedCount(m, n - 1) + (if Mapped(m, n - 1) then 1 else 0)
  }

  /** The indices below `n` with a truthy mapping entry. */
  ghost function MappedSet(m: map<nat, string>, n: nat): set<nat>
  {
    set i: nat | i < n && Mapped(m, i)
  }

  /** `MappedCount` counts exactly the mapped indices. */
  lemma {:induction false} MappedCountIsSize(m: map<nat, string>, n: nat)
    ensures MappedCount(m, n) == |MappedSet(m, n)|
  {
    if n > 0 {
      MappedCountIsSize(m, n - 1);
      if Mapped(m, n - 1) {
        assert MappedSet(m, n) == MappedSet(m, n - 1) + {n - 1};
      } else {
        assert MappedSet(m, n) == MappedSet(m, n - 1);
      }
    }
  }

  /** The loop of the script, over the records in place. */
  method UpdateImageUrls(fragrancesData: array<Fragrance>, imageMapping: map<nat, string>)
    returns (updatedCount: nat, skippedCount: nat)
    modifies fragrancesData
    ensures fragrancesData[..] == Rewritten(old(fragrancesData[..]), imageMapping)
    ensures updatedCount == MappedCount(imageMapping, fragrancesData.Length)
    ensures updatedCount + skippedCount == fragrancesData.Length
  {
    ghost var original := fragrancesData[..];
    ghost var target := Rewritten(original, imageMapping);
    updatedCount, skippedCount := 0, 0;
    for i := 0 to fragrancesData.Length
      invariant fragrancesData[..i] == target[..i]
      invariant forall k :: i <= k < fragrancesData.Length ==> fragrancesData[k] == original[k]
      invariant updatedCount == MappedCount(imageMapping, i)
      invariant updatedCount + skippedCount == i
    {
      if i in imageMapping && imageMapping[i] != "" {
        fragrancesData[i] := fragrancesData[i].(imageUrl := imageMapping[i]);
        updatedCount := updatedCount + 1;
      } else {
        skippedCount := skippedCount + 1;
      }
      assert fragrancesData[..i + 1] == fragrancesData[..i] + [fragrancesData[i]];
      assert target[..i + 1] == target[..i] + [target[i]];
    }
    assert fragrancesData[..] == fragrancesData[..fragrancesData.Length];
  }

  /** The two scripts one after the other: a record whose picture is on disk
      after the download now points at its local file, every other record
      keeps its URL, and the update count equals the download count. */
  lemma DownloadThenUpdate(data: seq<Fragrance>, outcome: nat -> DownloadImages.Outcome, imageMapping: map<nat, string>)
    requires forall i: nat :: i in imageMapping <==> i < |data| && DownloadImages.Saved(data, outcome, i)
    requires forall i :: i in imageMapping ==> imageMapping[i] == DownloadImages.LocalPath(data[i].name, i)
    ensures forall i :: 0 <= i < |data| ==>
      Rewritten(data, imageMapping)[i].imageUrl ==
        (if DownloadImages.Saved(data, outcome, i) then DownloadImages.LocalPath(data[i].name, i) else data[i].imageUrl)
    ensures MappedCount(imageMapping, |data|) == DownloadImages.SavedCount(data, outcome, |data|)
  {
    SameCount(data, outcome, imageMapping, |data|);
  }

  lemma {:induction false} SameCount(data: seq<Fragrance>, outcome: nat -> DownloadImages.Outcome, imageMapping: map<nat, string>, n: nat)
    requires n <= |data|
    requires forall i: nat :: i in imageMapping <==> i < |data| && DownloadImages.Saved(data, outcome, i)
    requires forall i :: i in imageMapping ==> imageMapping[i] == DownloadImages.LocalPath(data[i].name, i)
    ensures MappedCount(imageMapping, n) == DownloadImages.SavedCount(data, outcome, n)
  {
    if n > 0 {
      SameCount(data, outcome, imageMapping, n - 1);
      assert Mapped(imageMapping, n - 1) <==> DownloadImages.Saved(data, outcome, n - 1);
    }
  }
}
