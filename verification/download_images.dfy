/** The image download script (dev-scripts/download-images.js): the local
    file name of each record's picture, and the loop that fetches every
    picture and records which local path stands for which record. The
    download itself is not modelled: each record's attempt has an outcome
    given as a parameter. */
module DownloadImages {
  import opened Catalog
  import opened Text

  /** The characters the sanitiser keeps: `[a-z0-9]`. */
  predicate Allowed(c: char)
  {
    IsLowerLetter(c) || IsDigit(c)
  }

  /** `s` without its leading run of characters outside `[a-z0-9]`. */
  function DropDisallowed(s: string): (r: string)
    ensures |r| <= |s| && r == s[|s| - |r|..]
    ensures r == [] || Allowed(r[0])
    ensures forall i :: 0 <= i < |s| - |r| ==> !Allowed(s[i])
  {
    if s == [] || Allowed(s[0]) then s else DropDisallowed(s[1..])
  }

  /** `replace(/[^a-z0-9]+/g, '-')`: each maximal run of other characters
      becomes one `-`. The result holds only `[a-z0-9]` and `-`, never two
      `-` in a row, and starts with the first character of `s` when that
      one is kept. */
  function Collapse(s: string): (r: string)
    ensures forall i :: 0 <= i < |r| ==> Allowed(r[i]) || r[i] == '-'
    ensures forall i :: 0 <= i < |r| - 1 ==> r[i] != '-' || r[i + 1] != '-'
    ensures s == [] <==> r == []
    ensures s != [] && Allowed(s[0]) ==> r[0] == s[0]
    decreases |s|
  {
    if s == [] then []
    else if Allowed(s[0]) then [s[0]] + Collapse(s[1..])
    else "-" + Collapse(DropDisallowed(s[1..]))
  }

  /** The characters of `s` the sanitiser keeps, in order. */
  function Kept(s: string): (r: string)
    ensures forall i :: 0 <= i < |r| ==> Allowed(r[i])
  {
    if s == [] then []
    else (if Allowed(s[0]) then [s[0]] else []) + Kept(s[1..])
  }

  lemma {:induction false} KeptDropDisallowed(s: string)
    ensures Kept(DropDisallowed(s)) == Kept(s)
  {
    if s != [] && !Allowed(s[0]) {
      KeptDropDisallowed(s[1..]);
    }
  }

  /** Collapsing drops no letter or digit and reorders none. */
  lemma {:induction false} CollapseKeepsLetters(s: string)
    ensures Kept(Collapse(s)) == Kept(s)
    decreases |s|
  {
    if s != [] {
      if Allowed(s[0]) {
        CollapseKeepsLetters(s[1..]);
        assert ([s[0]] + Collapse(s[1..]))[1..] == Collapse(s[1..]);
      } else {
        var t := DropDisallowed(s[1..]);
        CollapseKeepsLetters(t);
        KeptDropDisallowed(s[1..]);
        assert ("-" + Collapse(t))[1..] == Collapse(t);
      }
    }
  }

  /** Past a kept character, the leading run to drop lies inside `s`. */
  lemma {:induction false} DropDisallowedAppend(s: string, v: string)
    requires s != [] && Allowed(s[|s| - 1])
    ensures DropDisallowed(s + v) == DropDisallowed(s) + v
    decreases |s|
  {
    if !Allowed(s[0]) {
      assert (s + v)[1..] == s[1..] + v;
      DropDisallowedAppend(s[1..], v);
    }
  }

  /** A run of other characters is dropped whole when a kept character, or
      the end, follows it. */
  lemma {:induction false} DropDisallowedRun(w: string, v: string)
    requires forall i :: 0 <= i < |w| ==> !Allowed(w[i])
    requires v == [] || Allowed(v[0])
    ensures DropDisallowed(w + v) == v
    decreases |w|
  {
    if w != [] {
      assert (w + v)[1..] == w[1..] + v;
      DropDisallowedRun(w[1..], v);
    } else {
      assert w + v == v;
    }
  }

  /** Collapsing splits after a kept character: what precedes it and what
      follows it are collapsed on their own. */
  lemma {:induction false} CollapseAppend(u: string, v: string)
    requires u == [] || Allowed(u[|u| - 1])
    ensures Collapse(u + v) == Collapse(u) + Collapse(v)
    decreases |u|
  {
    if u == [] {
      assert u + v == v;
    } else if Allowed(u[0]) {
      assert (u + v)[1..] == u[1..] + v;
      CollapseAppend(u[1..], v);
    } else {
      var t := DropDisallowed(u[1..]);
      assert (u + v)[1..] == u[1..] + v;
      DropDisallowedAppend(u[1..], v);
      assert t == [] || Allowed(t[|t| - 1]) by {
        if t != [] {
          assert t[|t| - 1] == u[1..][|u| - 2];
        }
      }
      CollapseAppend(t, v);
    }
  }

  /** How `Collapse` starts on a character outside `[a-z0-9]`. */
  lemma CollapseDisallowedHead(s: string)
    requires s != [] && !Allowed(s[0])
    ensures Collapse(s) == "-" + Collapse(DropDisallowed(s[1..]))
  {
  }

  /** A maximal run of characters outside `[a-z0-9]` becomes exactly one `-`. */
  lemma CollapseRun(w: string, v: string)
    requires w != [] && forall i :: 0 <= i < |w| ==> !Allowed(w[i])
    requires v == [] || Allowed(v[0])
    ensures Collapse(w + v) == "-" + Collapse(v)
  {
    var s := w + v;
    assert s[0] == w[0] && s[1..] == w[1..] + v;
    CollapseDisallowedHead(s);
    DropDisallowedRun(w[1..], v);
  }

  /** One leading `-` removed, if there is one. */
  function StripLeadingDash(s: string): (r: string)
    ensures s != [] && s[0] == '-' ==> r == s[1..]
    ensures s == [] || s[0] != '-' ==> r == s
  {
    if s != [] && s[0] == '-' then s[1..] else s
  }

  /** One trailing `-` removed, if there is one. */
  function StripTrailingDash(s: string): (r: string)
    ensures s != [] && s[|s| - 1] == '-' ==> r == s[..|s| - 1]
    ensures s == [] || s[|s| - 1] != '-' ==> r == s
  {
    if s != [] && s[|s| - 1] == '-' then s[..|s| - 1] else s
  }

  /** What a sanitised name looks like: `[a-z0-9]` runs joined by single `-`. */
  predicate Clean(s: string)
  {
    && (forall i :: 0 <= i < |s| ==> Allowed(s[i]) || s[i] == '-')
    && (forall i :: 0 <= i < |s| - 1 ==> s[i] != '-' || s[i + 1] != '-')
    && (s != [] ==> s[0] != '-' && s[|s| - 1] != '-')
  }

  /** The `sanitized` part of `generateFileName`: lower case, runs collapsed,
      then `replace(/^-|-$/g, '')`. */
  function Sanitize(name: string): (r: string)
    ensures Clean(r)
  {
    StripTrailingDash(StripLeadingDash(Collapse(LowerStr(name))))
  }

  /** A kept character, a separator, a kept character and a trailing symbol
      (as in `"a b!"`) collapse to the two kept characters, each followed
      by one `-`. */
  lemma CollapseExample(x: char, sep: char, y: char, end: char)
    requires Allowed(x) && Allowed(y) && !Allowed(sep) && !Allowed(end)
    ensures Collapse([x, sep, y, end]) == [x, '-', y, '-']
  {
    assert [x, sep, y, end] == [x] + ([sep] + ([y] + [end]));
    CollapseAppend([x], [sep] + ([y] + [end]));
    CollapseRun([sep], [y] + [end]);
    CollapseAppend([y], [end]);
    assert [end] == [end] + [];
    CollapseRun([end], []);
    assert Collapse([x]) == [x] && Collapse([y]) == [y];
  }

  /** Such a name (`"a b!"`, say) sanitises to the two kept characters
      joined by one `-`: the trailing `-` is stripped. */
  lemma SanitizeExample(x: char, sep: char, y: char, end: char)
    requires Allowed(x) && Allowed(y) && !Allowed(sep) && !Allowed(end)
    requires !IsUpper(sep) && !IsUpper(end)
    ensures Sanitize([x, sep, y, end]) == [x, '-', y]
  {
    assert LowerStr([x, sep, y, end]) == [x, sep, y, end];
    CollapseExample(x, sep, y, end);
    assert StripLeadingDash([x, '-', y, '-']) == [x, '-', y, '-'];
  }

  /** Sanitising keeps every ASCII letter (lower-cased) and digit of the name, in order. */
  lemma SanitizeKeepsLetters(name: string)
    ensures Kept(Sanitize(name)) == Kept(LowerStr(name))
  {
    CollapseKeepsLetters(LowerStr(name));
    StripKeepsLetters(Collapse(LowerStr(name)));
  }

  /** Removing the dashes at either end keeps every letter and digit. */
  lemma StripKeepsLetters(c: string)
    ensures Kept(StripTrailingDash(StripLeadingDash(c))) == Kept(c)
  {
    var l := StripLeadingDash(c);
    if c != [] && c[0] == '-' {
      KeptDashPrefix(l);
      assert c == "-" + l;
    }
    var t := StripTrailingDash(l);
    if l != [] && l[|l| - 1] == '-' {
      KeptDashSuffix(t);
      assert l == t + "-";
    }
  }

  lemma KeptDashPrefix(s: string)
    ensures Kept("-" + s) == Kept(s)
  {
    assert ("-" + s)[1..] == s;
  }

  lemma {:induction false} KeptDashSuffix(s: string)
    ensures Kept(s + "-") == Kept(s)
  {
    if s != [] {
      KeptDashSuffix(s[1..]);
      assert (s + "-")[1..] == s[1..] + "-";
    }
  }

  /** A string of kept characters and single dashes collapses to itself. */
  lemma {:induction false} CollapseFixed(s: string)
    requires forall i :: 0 <= i < |s| ==> Allowed(s[i]) || s[i] == '-'
    requires forall i :: 0 <= i < |s| - 1 ==> s[i] != '-' || s[i + 1] != '-'
    ensures Collapse(s) == s
    decreases |s|
  {
    if s != [] {
      CollapseFixed(s[1..]);
      if !Allowed(s[0]) {
        assert DropDisallowed(s[1..]) == s[1..];
      }
    }
  }

  /** Sanitising a sanitised name changes nothing. */
  lemma SanitizeIdempotent(name: string)
    ensures Sanitize(Sanitize(name)) == Sanitize(name)
  {
    CleanFixed(Sanitize(name));
  }

  /** A clean string is its own sanitised form. */
  lemma CleanFixed(s: string)
    requires Clean(s)
    ensures Sanitize(s) == s
  {
    assert LowerStr(s) == s;
    CollapseFixed(s);
  }

  /** `generateFileName(name, index)`: `${index}-${sanitized}.jpg`. The
      name begins with the index numeral, whose end the first `-` marks,
      then holds the sanitised name and ends with `.jpg`; it uses only
      `[a-z0-9]`, `-` and `.`. */
  function GenerateFileName(name: string, index: nat): (r: string)
    ensures var d := Decimal(index);
      && |r| == |d| + |Sanitize(name)| + 5
      && r[..|d|] == d && r[|d|] == '-' && r[|d| + 1..|r| - 4] == Sanitize(name) && r[|r| - 4..] == ".jpg"
      && (forall i :: 0 <= i < |d| ==> r[i] != '-')
      && (forall i :: 0 <= i < |r| ==> Allowed(r[i]) || r[i] == '-' || r[i] == '.')
  {
    FileNameParts(Decimal(index), Sanitize(name));
    Decimal(index) + "-" + Sanitize(name) + ".jpg"
  }

  /** The parts of `d-s.jpg` for a numeral `d` and a sanitised `s`. */
  lemma FileNameParts(d: string, s: string)
    requires forall i :: 0 <= i < |d| ==> IsDigit(d[i])
    requires Clean(s)
    ensures var f := d + "-" + s + ".jpg";
      && (forall i :: 0 <= i < |f| ==> Allowed(f[i]) || f[i] == '-' || f[i] == '.')
      && f[..|d|] == d && f[|d|] == '-' && f[|f| - 4..] == ".jpg"
      && (forall i :: 0 <= i < |d| ==> f[i] != '-')
      && f[|d| + 1..|f| - 4] == s
  {
    var f := d + "-" + s + ".jpg";
    assert f[..|d|] == d;
    assert f[|d| + 1..|f| - 4] == s;
    forall i | 0 <= i < |f| ensures Allowed(f[i]) || f[i] == '-' || f[i] == '.' {
      if i < |d| {
        assert f[i] == d[i];
      } else if |d| < i < |d| + 1 + |s| {
        assert f[i] == s[i - |d| - 1];
      }
    }
  }

  /** Different indices never give the same file name, whatever the names:
      the index is exactly what precedes the first `-`. */
  lemma FileNameInjective(name1: string, index1: nat, name2: string, index2: nat)
    requires GenerateFileName(name1, index1) == GenerateFileName(name2, index2)
    ensures index1 == index2
  {
    var f, d1, d2 := GenerateFileName(name1, index1), Decimal(index1), Decimal(index2);
    assert |d1| == |d2|;
    assert d1 == f[..|d1|] == d2;
    DecimalInjective(index1, index2);
  }

  /** Where the script saves pictures, as the site serves them. */
  const ImagesPath: string := "/fragrances/images/"

  /** `localPath`: the path the mapping records for record `index`. */
  function LocalPath(name: string, index: nat): (r: string)
    ensures r != ""
  {
    ImagesPath + GenerateFileName(name, index)
  }

  /** The record has an image URL (a truthy `Image URL`). */
  predicate HasUrl(f: Fragrance)
  {
    f.imageUrl != ""
  }

  /** What happens to a record that has a URL: the file was already on disk,
      it was downloaded, or the download failed with a message. */
  datatype Outcome = AlreadyOnDisk | Fetched | FetchFailed(message: string)

  /** An entry of `failedUrls`. */
  datatype FailedDownload = FailedDownload(index: nat, name: string, url: string, error: string)

  /** The record has a picture on disk after its turn in the loop. */
  predicate Saved(data: seq<Fragrance>, outcome: nat -> Outcome, i: nat)
    requires i < |data|
  {
    HasUrl(data[i]) && !outcome(i).FetchFailed?
  }

  /** The record's download was attempted and failed. */
  predicate Failed(data: seq<Fragrance>, outcome: nat -> Outcome, i: nat)
    requires i < |data|
  {
    HasUrl(data[i]) && outcome(i).FetchFailed?
  }

  /** The failure entries the loop collects over the first `n` records. */
  function Failures(data: seq<Fragrance>, outcome: nat -> Outcome, n: nat): (r: seq<FailedDownload>)
    requires n <= |data|
    ensures |r| <= n
    ensures forall k :: 0 <= k < |r| ==> r[k].index < n
  {
    if n == 0 then []
    else
      Failures(data, outcome, n - 1) +
      (if Failed(data, outcome, n - 1)
       then [FailedDownload(n - 1, data[n - 1].name, data[n - 1].imageUrl, outcome(n - 1).message)]
       else [])
  }

  /** Each report is of a failed record, with that record's name, URL and
      error, and the reports follow record order. */
  predicate ReportsSound(data: seq<Fragrance>, outcome: nat -> Outcome, r: seq<FailedDownload>)
  {
    && (forall k :: 0 <= k < |r| ==>
          && r[k].index < |data|
          && Failed(data, outcome, r[k].index)
          && r[k] == FailedDownload(r[k].index, data[r[k].index].name, data[r[k].index].imageUrl,
                                    outcome(r[k].index).message))
    && (forall k, l :: 0 <= k < l < |r| ==> r[k].index < r[l].index)
  }

  /** Every reported failure is a failed record, reported with its name, URL
      and error, and the reports follow record order. */
  lemma {:induction false} FailuresSound(data: seq<Fragrance>, outcome: nat -> Outcome, n: nat)
    requires n <= |data|
    ensures ReportsSound(data, outcome, Failures(data, outcome, n))
  {
    if n > 0 {
      FailuresSound(data, outcome, n - 1);
      var r0, r := Failures(data, outcome, n - 1), Failures(data, outcome, n);
      if Failed(data, outcome, n - 1) {
        var e := FailedDownload(n - 1, data[n - 1].name, data[n - 1].imageUrl, outcome(n - 1).message);
        assert r == r0 + [e];
        forall k, l | 0 <= k < l < |r| ensures r[k].index < r[l].index {
          assert r[k] == r0[k];
        }
      } else {
        assert r == r0;
      }
    }
  }

  /** Every failed record among the first `n` is reported. */
  lemma {:induction false} FailuresComplete(data: seq<Fragrance>, outcome: nat -> Outcome, n: nat, i: nat)
    requires i < n <= |data| && Failed(data, outcome, i)
    ensures exists k :: 0 <= k < |Failures(data, outcome, n)| && Failures(data, outcome, n)[k].index == i
  {
    var r0 := Failures(data, outcome, n - 1);
    var r := Failures(data, outcome, n);
    if i < n - 1 {
      FailuresComplete(data, outcome, n - 1, i);
      var k :| 0 <= k < |r0| && r0[k].index == i;
      assert r[k] == r0[k];
    } else {
      assert r[|r0|].index == i;
    }
  }

  /** The number of records among the first `n` whose picture is on disk. */
  function SavedCount(data: seq<Fragrance>, outcome: nat -> Outcome, n: nat): (r: nat)
    requires n <= |data|
    ensures r <= n
  {
    if n == 0 then 0 else SavedCount(data, outcome, n - 1) + (if Saved(data, outcome, n - 1) then 1 else 0)
  }

  /** The indices among the first `n` whose picture is on disk. */
  ghost function SavedSet(data: seq<Fragrance>, outcome: nat -> Outcome, n: nat): set<nat>
    requires n <= |data|
  {
    set k: nat | k < n && Saved(data, outcome, k)
  }

  lemma {:induction false} SavedSetSize(data: seq<Fragrance>, outcome: nat -> Outcome, n: nat)
    requires n <= |data|
    ensures |SavedSet(data, outcome, n)| == SavedCount(data, outcome, n)
  {
    if n > 0 {
      SavedSetSize(data, outcome, n - 1);
      var before := SavedSet(data, outcome, n - 1);
      if Saved(data, outcome, n - 1) {
        assert SavedSet(data, outcome, n) == before + {n - 1};
      } else {
        assert SavedSet(data, outcome, n) == before;
      }
    }
  }

  /** The number of records without an image URL among the first `n`. */
  function NoUrlCount(data: seq<Fragrance>, n: nat): (r: nat)
    requires n <= |data|
    ensures r <= n
  {
    if n == 0 then 0 else NoUrlCount(data, n - 1) + (if HasUrl(data[n - 1]) then 0 else 1)
  }

  /** `downloadAllImages` without the I/O: `outcome(i)` is what checking for
      and fetching record `i`'s picture gives. Afterwards the mapping holds
      exactly the records whose picture is on disk, each with its local path;
      every failure is listed; and every record is counted once, as
      downloaded, failed or without URL. */
  method DownloadAllImages(data: seq<Fragrance>, outcome: nat -> Outcome)
    returns (downloaded: nat, failed: nat, failedUrls: seq<FailedDownload>, imageMapping: map<nat, string>)
    ensures forall i: nat :: i in imageMapping <==> i < |data| && Saved(data, outcome, i)
    ensures forall i :: i in imageMapping ==> imageMapping[i] == LocalPath(data[i].name, i)
    ensures downloaded == |imageMapping|
    ensures failedUrls == Failures(data, outcome, |data|) && failed == |failedUrls|
    ensures downloaded + failed + NoUrlCount(data, |data|) == |data|
  {
    downloaded, failed, failedUrls, imageMapping := 0, 0, [], map[];
    for i := 0 to |data|
      invariant forall k: nat :: k in imageMapping <==> k < i && Saved(data, outcome, k)
      invariant forall k :: k in imageMapping ==> imageMapping[k] == LocalPath(data[k].name, k)
      invariant downloaded == SavedCount(data, outcome, i)
      invariant failedUrls == Failures(data, outcome, i) && failed == |failedUrls|
      invariant downloaded + failed + NoUrlCount(data, i) == i
    {
      var fragrance := data[i];
      if fragrance.imageUrl == "" {
        assert Failures(data, outcome, i + 1) == Failures(data, outcome, i);
        assert !Saved(data, outcome, i);
        continue;
      }
      var localPath := LocalPath(fragrance.name, i);
      if outcome(i).FetchFailed? {
        failed := failed + 1;
        failedUrls := failedUrls + [FailedDownload(i, fragrance.name, fragrance.imageUrl, outcome(i).message)];
        assert !Saved(data, outcome, i);
      } else {
        // the file was already on disk, or it has just been fetched
        assert Failures(data, outcome, i + 1) == Failures(data, outcome, i);
        imageMapping := imageMapping[i := localPath];
        downloaded := downloaded + 1;
        assert Saved(data, outcome, i);
      }
    }
    assert imageMapping.Keys == SavedSet(data, outcome, |data|);
    SavedSetSize(data, outcome, |data|);
  }
}
