/** The pure rules the page applies to the catalogue: which images star mode
    shows, which grid items and titles are visible for the current section,
    and the file name a download is saved under. */
module View {
  import opened Text
  import opened Scan

  /** A thumbnail in the masonry grid: its section, the image path, its alt
      text, and whether it carries the `hidden` class. */
  datatype Item = Item(section: string, path: string, alt: string, hidden: bool)

  /** A section title above the grid: its section, its text, and whether it
      is displayed (`display: block`) rather than not (`display: none`). */
  datatype Title = Title(section: string, text: string, displayed: bool)

  /** The images star mode shows: the catalogue entries of section `current`,
      in catalogue order. */
  function StarImages(all: seq<ImageRef>, current: string): (r: seq<ImageRef>)
    ensures |r| <= |all|
    ensures forall x :: x in r <==> x in all && x.section == current
  {
    if all == [] then []
    else (if all[0].section == current then [all[0]] else []) + StarImages(all[1..], current)
  }

  /** Filtering distributes over concatenation, so the star images keep the
      catalogue's order. */
  lemma {:induction false} StarImagesAppend(a: seq<ImageRef>, b: seq<ImageRef>, current: string)
    ensures StarImages(a + b, current) == StarImages(a, current) + StarImages(b, current)
  {
    if a != [] {
      assert (a + b)[1..] == a[1..] + b;
      StarImagesAppend(a[1..], b, current);
    } else {
      assert a + b == b;
    }
  }

  /** A catalogue slice whose entries all belong to `current` is kept whole. */
  lemma {:induction false} StarImagesAll(a: seq<ImageRef>, current: string)
    requires forall x :: x in a ==> x.section == current
    ensures StarImages(a, current) == a
  {
    if a != [] {
      assert forall x :: x in a[1..] ==> x in a;
      StarImagesAll(a[1..], current);
    }
  }

  /** A catalogue slice with no entry of `current` contributes nothing. */
  lemma {:induction false} StarImagesNone(a: seq<ImageRef>, current: string)
    requires forall x :: x in a ==> x.section != current
    ensures StarImages(a, current) == []
  {
    if a != [] {
      assert forall x :: x in a[1..] ==> x in a;
      StarImagesNone(a[1..], current);
    }
  }

  /** The star images of a catalogue extended by one section's entries. */
  lemma StarsOfAppended(a: seq<ImageRef>, b: seq<ImageRef>, current: string, added: string)
    requires forall x :: x in b ==> x.section == added
    ensures StarImages(a + b, current) == StarImages(a, current) + (if current == added then b else [])
  {
    StarImagesAppend(a, b, current);
    if current == added {
      StarImagesAll(b, current);
    } else {
      StarImagesNone(b, current);
    }
  }

  /** Star mode for section `secs[k]` shows exactly that section's scan, in
      increasing image number, whatever the other sections hold. */
  lemma {:induction false} StarsOfSection(loads: string -> bool, secs: seq<Section>, k: nat)
    requires DistinctIds(secs)
    requires k < |secs|
    ensures StarImages(ScanAll(loads, secs), secs[k].id) == ScanSection(loads, secs[k])
  {
    var init, last := secs[..|secs| - 1], secs[|secs| - 1];
    ScanFromSection(loads, last, 1);
    StarsOfAppended(ScanAll(loads, init), ScanSection(loads, last), secs[k].id, last.id);
    if k == |secs| - 1 {
      forall j | 0 <= j < |init| ensures init[j].id != secs[k].id {
        assert init[j] == secs[j];
      }
      StarsOfMissingSection(loads, init, secs[k].id);
    } else {
      assert DistinctIds(init) by {
        forall i, j | 0 <= i < j < |init| ensures init[i].id != init[j].id {
          assert init[i] == secs[i] && init[j] == secs[j];
        }
      }
      assert init[k] == secs[k];
      StarsOfSection(loads, init, k);
    }
  }

  /** A section id that no section of `secs` has shows no stars. */
  lemma {:induction false} StarsOfMissingSection(loads: string -> bool, secs: seq<Section>, id: string)
    requires forall j :: 0 <= j < |secs| ==> secs[j].id != id
    ensures StarImages(ScanAll(loads, secs), id) == []
  {
    if secs != [] {
      var init, last := secs[..|secs| - 1], secs[|secs| - 1];
      assert forall j :: 0 <= j < |init| ==> init[j] == secs[j];
      StarsOfMissingSection(loads, init, id);
      ScanFromSection(loads, last, 1);
      StarsOfAppended(ScanAll(loads, init), ScanSection(loads, last), id, last.id);
    }
  }

  /** The grid items after selecting section `s`: each item keeps its section,
      path and alt text, and is hidden exactly when it is of another section. */
  function ShowSection(items: seq<Item>, s: string): (r: seq<Item>)
    ensures |r| == |items|
    ensures forall i :: 0 <= i < |r| ==>
      r[i].section == items[i].section && r[i].path == items[i].path && r[i].alt == items[i].alt
    ensures forall i :: 0 <= i < |r| ==> (r[i].hidden <==> r[i].section != s)
  {
    seq(|items|, i requires 0 <= i < |items| => items[i].(hidden := items[i].section != s))
  }

  /** The section titles for current section `current`: each keeps its section
      and text, and is displayed exactly when its section is `current`. */
  function ShowTitles(titles: seq<Title>, current: string): (r: seq<Title>)
    ensures |r| == |titles|
    ensures forall i :: 0 <= i < |r| ==> r[i].section == titles[i].section && r[i].text == titles[i].text
    ensures forall i :: 0 <= i < |r| ==> (r[i].displayed <==> r[i].section == current)
  {
    seq(|titles|, i requires 0 <= i < |titles| => titles[i].(displayed := titles[i].section == current))
  }

  /** The paths of the grid items that are not hidden, in grid order. */
  function VisiblePaths(items: seq<Item>): seq<string> {
    if items == [] then []
    else (if items[0].hidden then [] else [items[0].path]) + VisiblePaths(items[1..])
  }

  /** The paths of catalogue entries, in order. */
  function Paths(refs: seq<ImageRef>): seq<string> {
    if refs == [] then [] else [refs[0].path] + Paths(refs[1..])
  }

  /** Each grid item stands for the catalogue entry at the same position. */
  predicate Mirrors(items: seq<Item>, all: seq<ImageRef>) {
    |items| == |all| &&
    forall i :: 0 <= i < |items| ==> items[i].section == all[i].section && items[i].path == all[i].path
  }

  /** Once section `s` is selected, the grid shows exactly the images star
      mode shows for `s`, in the same order. */
  lemma {:induction false} GridMatchesStars(items: seq<Item>, all: seq<ImageRef>, s: string)
    requires Mirrors(items, all)
    ensures VisiblePaths(ShowSection(items, s)) == Paths(StarImages(all, s))
  {
    if items != [] {
      var shown := ShowSection(items, s);
      assert shown[1..] == ShowSection(items[1..], s);
      assert Mirrors(items[1..], all[1..]) by {
        forall i | 0 <= i < |items| - 1
          ensures items[1..][i].section == all[1..][i].section && items[1..][i].path == all[1..][i].path
        {
          assert items[1..][i] == items[i + 1] && all[1..][i] == all[i + 1];
        }
      }
      GridMatchesStars(items[1..], all[1..], s);
      PathsAppend(if all[0].section == s then [all[0]] else [], StarImages(all[1..], s));
    }
  }

  lemma {:induction false} PathsAppend(a: seq<ImageRef>, b: seq<ImageRef>)
    ensures Paths(a + b) == Paths(a) + Paths(b)
  {
    if a != [] {
      assert (a + b)[1..] == a[1..] + b;
      PathsAppend(a[1..], b);
    } else {
      assert a + b == b;
    }
  }

  /** The file name a download is saved under: the part of the image path
      after its last `/`, or "image.jpg" when that part is empty. */
  function DownloadName(path: string): (r: string)
    ensures r != [] && '/' !in r
  {
    var last := Last(Split(path, '/'));
    if last == [] then "image.jpg" else last
  }

  /** A file name under any directory downloads under that file name. */
  lemma DownloadNameOfFile(dir: string, file: string)
    requires file != [] && '/' !in file
    ensures DownloadName(dir + "/" + file) == file
  {
    assert dir + "/" + file == dir + ['/'] + file;
    LastPieceAfterSeparator(dir, file, '/');
    SplitWithoutSeparator(file, '/');
  }

  /** A path ending in `/` downloads under the fallback name. */
  lemma DownloadNameFallback(dir: string)
    ensures DownloadName(dir + "/") == "image.jpg"
  {
    assert dir + "/" == dir + ['/'] + [];
    LastPieceAfterSeparator(dir, [], '/');
  }

  /** Every catalogue entry of a configured section downloads under its own
      name and extension, whatever the page's address in front of its path. */
  lemma EntryDownloadName(base: string, k: nat, n: nat, e: nat)
    requires k < |Sections| && e < |Extensions|
    ensures var x := Entry(Sections[k], n, Extensions[e]);
      DownloadName(base + x.path) == x.name + "." + Extensions[e]
  {
    var sec, ext := Sections[k], Extensions[e];
    var x := Entry(sec, n, ext);
    var file := x.name + "." + ext;
    assert '/' !in sec.prefix && '/' !in ext;
    assert '/' !in Decimal(n) by {
      forall i | 0 <= i < |Decimal(n)| ensures Decimal(n)[i] != '/' { assert IsDigit(Decimal(n)[i]); }
    }
    assert '/' !in file by {
      assert file == sec.prefix + Decimal(n) + "." + ext;
    }
    assert base + x.path == (base + "images") + "/" + file;
    DownloadNameOfFile(base + "images", file);
  }
}
