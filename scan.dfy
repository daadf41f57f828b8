/** The image discovery scan of the gallery page, as a specification over an
    existence oracle: `loads(path)` answers whether the browser manages to
    load the image at `path` (its `onload` fires rather than `onerror`). */
module Scan {
  import opened Text

  datatype Option<T> = None | Some(value: T)

  /** A gallery section: its key, the file-name prefix of its images and the
      title shown above them. */
  datatype Section = Section(id: string, prefix: string, name: string)

  /** One catalogue entry, as pushed onto `allImages`. */
  datatype ImageRef = ImageRef(path: string, name: string, section: string)

  /** The configured sections, in page order. */
  const Sections: seq<Section> := [
    Section("losing-it", "A", "losing it"),
    Section("explore", "B", "explore"),
    Section("stars", "C", "STARS"),
    Section("more-stars", "D", "more stars"),
    Section("blue", "E", "blue")
  ]

  /** The section shown when the page opens. */
  const InitialSection: string := "losing-it"

  /** Extensions tried for every image name, in this order. */
  const Extensions: seq<string> := ["jpg", "jpeg", "png", "gif", "webp"]

  function Min(a: nat, b: nat): nat {
    if a <= b then a else b
  }

  /** The highest image number probed in a section. */
  const MaxIndex: nat := 100

  /** The image name for number `n`: the prefix followed by `n` in decimal. */
  function ImageName(prefix: string, n: nat): string {
    prefix + Decimal(n)
  }

  /** Where the image `name` with extension `ext` is looked for. */
  function ImagePath(name: string, ext: string): string {
    "images/" + name + "." + ext
  }

  /** The position of the first extension, at `from` or later, under which
      `name` loads; None when none of them does. */
  function FirstLoading(loads: string -> bool, name: string, exts: seq<string>, from: nat): (r: Option<nat>)
    ensures r.Some? ==> from <= r.value < |exts|
    decreases |exts| - from
  {
    if from >= |exts| then None
    else if loads(ImagePath(name, exts[from])) then Some(from)
    else FirstLoading(loads, name, exts, from + 1)
  }

  /** FirstLoading finds the first loading extension at `from` or later:
      the one it reports loads and none before it does, and it reports
      none exactly when none of them loads. */
  lemma {:induction false} FirstLoadingSpec(loads: string -> bool, name: string, exts: seq<string>, from: nat)
    ensures var r := FirstLoading(loads, name, exts, from);
      && (r.Some? ==> loads(ImagePath(name, exts[r.value])))
      && (r.Some? ==> forall j :: from <= j < r.value ==> !loads(ImagePath(name, exts[j])))
      && (r.None? <==> forall j :: from <= j < |exts| ==> !loads(ImagePath(name, exts[j])))
    decreases |exts| - from
  {
    if from < |exts| && !loads(ImagePath(name, exts[from])) {
      FirstLoadingSpec(loads, name, exts, from + 1);
    }
  }

  /** The outcome of probing image number `n` of `sec` with every extension. */
  function Probe(loads: string -> bool, sec: Section, n: nat): Option<nat> {
    FirstLoading(loads, ImageName(sec.prefix, n), Extensions, 0)
  }

  /** The catalogue entry recorded for image number `n` of `sec` found under `ext`. */
  function Entry(sec: Section, n: nat, ext: string): ImageRef {
    var name := ImageName(sec.prefix, n);
    ImageRef(ImagePath(name, ext), name, sec.id)
  }

  /** The entries the scan of `sec` records from image number `n` on: one per
      number while some extension loads, ending at the first number for which
      none does, or after number MaxIndex. */
  function ScanFrom(loads: string -> bool, sec: Section, n: nat): seq<ImageRef>
    decreases MaxIndex + 1 - n
  {
    if n > MaxIndex || Probe(loads, sec, n).None? then []
    else [Entry(sec, n, Extensions[Probe(loads, sec, n).value])] + ScanFrom(loads, sec, n + 1)
  }

  /** One step of the scan, stated without a match. */
  lemma ScanFromStep(loads: string -> bool, sec: Section, n: nat)
    ensures ScanFrom(loads, sec, n) ==
      if n <= MaxIndex && Probe(loads, sec, n).Some?
      then [Entry(sec, n, Extensions[Probe(loads, sec, n).value])] + ScanFrom(loads, sec, n + 1)
      else []
  {
  }

  /** The scan advances by one number: what was found so far, followed by
      the scan from number `n`, stays the whole section's scan. */
  lemma ScanFromAdvance(loads: string -> bool, sec: Section, n: nat, found: seq<ImageRef>, whole: seq<ImageRef>)
    requires n <= MaxIndex && Probe(loads, sec, n).Some?
    requires found + ScanFrom(loads, sec, n) == whole
    ensures (found + [Entry(sec, n, Extensions[Probe(loads, sec, n).value])]) + ScanFrom(loads, sec, n + 1) == whole
  {
    ScanFromStep(loads, sec, n);
  }

  /** The whole scan of a section, which starts at image number 1. */
  function ScanSection(loads: string -> bool, sec: Section): seq<ImageRef> {
    ScanFrom(loads, sec, 1)
  }

  /** The catalogue the scan builds over `secs`, one section after the other. */
  function ScanAll(loads: string -> bool, secs: seq<Section>): seq<ImageRef> {
    if secs == [] then []
    else ScanAll(loads, secs[..|secs| - 1]) + ScanSection(loads, secs[|secs| - 1])
  }

  /** The paths requested for the first `count` extensions of `name`, in
      the order the extensions are tried. */
  function Tries(name: string, count: nat): seq<string>
    requires count <= |Extensions|
  {
    seq(count, j requires 0 <= j < count => ImagePath(name, Extensions[j]))
  }

  /** The paths requested for image number `n` of `sec`: every extension up
      to and including the first that loads, or all of them when none does. */
  function Attempts(loads: string -> bool, sec: Section, n: nat): seq<string> {
    var p := Probe(loads, sec, n);
    Tries(ImageName(sec.prefix, n), if p.Some? then p.value + 1 else |Extensions|)
  }

  /** The paths the scan of `sec` requests from image number `n` on. */
  function RequestsFrom(loads: string -> bool, sec: Section, n: nat): seq<string>
    decreases MaxIndex + 1 - n
  {
    if n > MaxIndex then []
    else if Probe(loads, sec, n).None? then Attempts(loads, sec, n)
    else Attempts(loads, sec, n) + RequestsFrom(loads, sec, n + 1)
  }

  /** The paths the scan of a section requests, in order. */
  function SectionRequests(loads: string -> bool, sec: Section): seq<string> {
    RequestsFrom(loads, sec, 1)
  }

  /** The paths the scan requests over `secs`, one section after the other. */
  function AllRequests(loads: string -> bool, secs: seq<Section>): seq<string> {
    if secs == [] then []
    else AllRequests(loads, secs[..|secs| - 1]) + SectionRequests(loads, secs[|secs| - 1])
  }

  /** The requests for image numbers `a` up to but excluding `b`, number by
      number. */
  function AttemptsRange(loads: string -> bool, sec: Section, a: nat, b: nat): seq<string>
    decreases b - a
  {
    if a >= b then [] else Attempts(loads, sec, a) + AttemptsRange(loads, sec, a + 1, b)
  }

  /** The ids of `secs` are pairwise distinct. */
  predicate DistinctIds(secs: seq<Section>) {
    forall i, j :: 0 <= i < j < |secs| ==> secs[i].id != secs[j].id
  }

  /** The position of the first section of `secs` with this id, or |secs|. */
  function Rank(secs: seq<Section>, id: string): (r: nat)
    ensures r <= |secs|
    ensures r < |secs| ==> secs[r].id == id
    ensures forall j :: 0 <= j < r ==> secs[j].id != id
  {
    if secs == [] then 0
    else if secs[0].id == id then 0
    else 1 + Rank(secs[1..], id)
  }

  /** Image number `m`, when the scan from number `n` gets that far, is
      recorded as entry `m - n`, under its first loading extension. */
  lemma {:induction false} ScanFromAt(loads: string -> bool, sec: Section, n: nat, m: nat)
    requires n <= m < n + |ScanFrom(loads, sec, n)|
    ensures Probe(loads, sec, m).Some?
    ensures ScanFrom(loads, sec, n)[m - n] == Entry(sec, m, Extensions[Probe(loads, sec, m).value])
    decreases m - n
  {
    var s, t := ScanFrom(loads, sec, n), ScanFrom(loads, sec, n + 1);
    assert n <= MaxIndex && Probe(loads, sec, n).Some?;
    assert s == [Entry(sec, n, Extensions[Probe(loads, sec, n).value])] + t;
    if m > n {
      ScanFromAt(loads, sec, n + 1, m);
      var k := m - n;
      assert s[k] == t[k - 1];
    }
  }

  /** The scan from number `n` records at most MaxIndex + 1 - n entries. */
  lemma {:induction false} ScanFromBound(loads: string -> bool, sec: Section, n: nat)
    requires 1 <= n <= MaxIndex + 1
    ensures |ScanFrom(loads, sec, n)| <= MaxIndex + 1 - n
    decreases MaxIndex + 1 - n
  {
    if n <= MaxIndex && Probe(loads, sec, n).Some? {
      ScanFromBound(loads, sec, n + 1);
    }
  }

  /** Unless the scan from number `n` runs past MaxIndex, the number `m`
      right after its last entry has no loading extension. */
  lemma {:induction false} ScanFromEnd(loads: string -> bool, sec: Section, n: nat, m: nat)
    requires m == n + |ScanFrom(loads, sec, n)| <= MaxIndex
    ensures Probe(loads, sec, m).None?
    decreases MaxIndex + 1 - n
  {
    var s, t := ScanFrom(loads, sec, n), ScanFrom(loads, sec, n + 1);
    if Probe(loads, sec, n).Some? {
      assert s == [Entry(sec, n, Extensions[Probe(loads, sec, n).value])] + t;
      ScanFromEnd(loads, sec, n + 1, m);
    } else {
      assert s == [];
    }
  }

  /** The recorded numbers of a section are exactly 1..k with no gap, where
      k <= MaxIndex; number i is recorded as entry i - 1, under its first
      loading extension; and number k + 1 has no loading extension unless
      k == MaxIndex. */
  lemma SectionShape(loads: string -> bool, sec: Section)
    ensures var r := ScanSection(loads, sec);
      && |r| <= MaxIndex
      && (forall i :: 1 <= i <= |r| ==>
            Probe(loads, sec, i).Some? &&
            r[i - 1] == Entry(sec, i, Extensions[Probe(loads, sec, i).value]))
      && (|r| < MaxIndex ==> Probe(loads, sec, |r| + 1).None?)
  {
    ScanFromBound(loads, sec, 1);
    var r := ScanSection(loads, sec);
    if |r| < MaxIndex {
      ScanFromEnd(loads, sec, 1, 1 + |r|);
    }
    forall i | 1 <= i <= |r| {
      ScanFromAt(loads, sec, 1, i);
    }
  }

  /** The converse: if numbers 1..k all load and k + 1 does not (or k is
      MaxIndex), the scan of the section records exactly k entries. */
  lemma SectionLength(loads: string -> bool, sec: Section, k: nat)
    requires k <= MaxIndex
    requires forall i :: 1 <= i <= k ==> Probe(loads, sec, i).Some?
    requires k < MaxIndex ==> Probe(loads, sec, k + 1).None?
    ensures |ScanSection(loads, sec)| == k
  {
    SectionShape(loads, sec);
    var r := ScanSection(loads, sec);
    var below: nat, above: nat := |r| + 1, k + 1;
    assert below <= k ==> Probe(loads, sec, below).Some?;
    assert above <= |r| ==> Probe(loads, sec, above).Some?;
  }

  /** The scan has no tolerance for a missing number: nothing at or past the
      first number without a loading extension is recorded. */
  lemma StopsAtFirstMiss(loads: string -> bool, sec: Section, m: nat)
    requires 1 <= m <= MaxIndex
    requires Probe(loads, sec, m).None?
    ensures |ScanSection(loads, sec)| < m
  {
    SectionShape(loads, sec);
  }

  /** Entry `m - 1` of a section's scan is image number `m` under the first
      extension that loads for it: its path loads, no earlier extension
      does, and it carries the section's id. */
  lemma SectionEntryLoads(loads: string -> bool, sec: Section, m: nat)
    requires 1 <= m <= |ScanSection(loads, sec)|
    ensures Probe(loads, sec, m).Some?
    ensures var x, name, k := ScanSection(loads, sec)[m - 1], ImageName(sec.prefix, m), Probe(loads, sec, m).value;
      && x == ImageRef(ImagePath(name, Extensions[k]), name, sec.id)
      && loads(x.path)
      && forall j :: 0 <= j < k ==> !loads(ImagePath(name, Extensions[j]))
  {
    ScanFromAt(loads, sec, 1, m);
    FirstLoadingSpec(loads, ImageName(sec.prefix, m), Extensions, 0);
  }

  /** For each image number the extensions are requested in the configured
      order; no extension after the first that loads is requested: every
      request but the last fails, and the last succeeds exactly when the
      number has a loading extension. */
  lemma AttemptsStopAtFirstLoad(loads: string -> bool, sec: Section, n: nat)
    ensures var r := Attempts(loads, sec, n);
      && 1 <= |r| <= |Extensions|
      && (forall j :: 0 <= j < |r| ==> r[j] == ImagePath(ImageName(sec.prefix, n), Extensions[j]))
      && (forall j :: 0 <= j < |r| - 1 ==> !loads(r[j]))
      && (loads(r[|r| - 1]) <==> Probe(loads, sec, n).Some?)
  {
    FirstLoadingSpec(loads, ImageName(sec.prefix, n), Extensions, 0);
  }

  /** The scan from number `n` requests exactly the numbers `n` up to the
      number after its last entry, but no number above MaxIndex. */
  lemma {:induction false} RequestsFromRange(loads: string -> bool, sec: Section, n: nat, hi: nat)
    requires 1 <= n <= MaxIndex + 1
    requires hi == Min(n + |ScanFrom(loads, sec, n)|, MaxIndex) + 1
    ensures RequestsFrom(loads, sec, n) == AttemptsRange(loads, sec, n, hi)
    decreases MaxIndex + 1 - n
  {
    var s, t := ScanFrom(loads, sec, n), ScanFrom(loads, sec, n + 1);
    if n <= MaxIndex {
      if Probe(loads, sec, n).Some? {
        assert s == [Entry(sec, n, Extensions[Probe(loads, sec, n).value])] + t;
        assert n + |s| == (n + 1) + |t|;
        RequestsFromRange(loads, sec, n + 1, hi);
        assert RequestsFrom(loads, sec, n) == Attempts(loads, sec, n) + RequestsFrom(loads, sec, n + 1);
        assert AttemptsRange(loads, sec, n, hi) == Attempts(loads, sec, n) + AttemptsRange(loads, sec, n + 1, hi);
      } else {
        assert s == [] && hi == n + 1;
        assert AttemptsRange(loads, sec, n, hi) == Attempts(loads, sec, n) + [];
      }
    } else {
      assert s == [] && hi == n;
    }
  }

  /** The requests of a section's scan are those of image numbers 1 up to
      one past its last entry, stopping at MaxIndex: no number beyond the
      first miss, and none above MaxIndex, is ever requested. */
  lemma SectionRequestsNumbers(loads: string -> bool, sec: Section)
    ensures SectionRequests(loads, sec)
      == AttemptsRange(loads, sec, 1, Min(|ScanSection(loads, sec)| + 1, MaxIndex) + 1)
  {
    RequestsFromRange(loads, sec, 1, Min(1 + |ScanFrom(loads, sec, 1)|, MaxIndex) + 1);
  }

  /** Distinct image numbers give distinct image names. */
  lemma ImageNameInjective(prefix: string, m: nat, n: nat)
    ensures m != n ==> ImageName(prefix, m) != ImageName(prefix, n)
  {
    if ImageName(prefix, m) == ImageName(prefix, n) {
      DecimalInjective(prefix, m, n);
    }
  }

  /** Entry `m - 1` of a section's scan is named after image number `m`. */
  lemma SectionNameAt(loads: string -> bool, sec: Section, m: nat)
    requires 1 <= m <= |ScanSection(loads, sec)|
    ensures ScanSection(loads, sec)[m - 1].name == ImageName(sec.prefix, m)
  {
    ScanFromAt(loads, sec, 1, m);
  }

  /** A section records at most one entry per image number: the names in its
      scan are pairwise distinct. */
  lemma SectionNamesDistinct(loads: string -> bool, sec: Section)
    ensures var r := ScanSection(loads, sec);
      forall i, j :: 0 <= i < j < |r| ==> r[i].name != r[j].name
  {
    var r := ScanSection(loads, sec);
    forall i, j | 0 <= i < j < |r| ensures r[i].name != r[j].name {
      SectionNameAt(loads, sec, i + 1);
      SectionNameAt(loads, sec, j + 1);
      ImageNameInjective(sec.prefix, i + 1, j + 1);
    }
  }

  /** Every entry of a section's scan belongs to that section. */
  lemma {:induction false} ScanFromSection(loads: string -> bool, sec: Section, n: nat)
    ensures forall x :: x in ScanFrom(loads, sec, n) ==> x.section == sec.id
    decreases MaxIndex + 1 - n
  {
    if n <= MaxIndex && Probe(loads, sec, n).Some? {
      ScanFromSection(loads, sec, n + 1);
    }
  }

  /** Appending a section keeps the rank of every id already present and
      gives the appended section's id, if new, the last rank. */
  lemma {:induction false} RankAppend(secs: seq<Section>, sec: Section, id: string)
    ensures Rank(secs, id) < |secs| ==> Rank(secs + [sec], id) == Rank(secs, id)
    ensures Rank(secs, id) == |secs| && id == sec.id ==> Rank(secs + [sec], id) == |secs|
  {
    if secs != [] {
      assert (secs + [sec])[1..] == secs[1..] + [sec];
      RankAppend(secs[1..], sec, id);
    }
  }

  /** The entries of `r` all belong to sections of `secs`, and their section
      positions never decrease along `r`. */
  predicate GroupedBy(secs: seq<Section>, r: seq<ImageRef>) {
    && (forall i :: 0 <= i < |r| ==> Rank(secs, r[i].section) < |secs|)
    && (forall i, j :: 0 <= i < j < |r| ==> Rank(secs, r[i].section) <= Rank(secs, r[j].section))
  }

  /** Appending the entries of one more section to a catalogue grouped by the
      sections before it gives a catalogue grouped by all of them. */
  lemma GroupedAppend(init: seq<Section>, sec: Section, a: seq<ImageRef>, b: seq<ImageRef>)
    requires DistinctIds(init + [sec])
    requires GroupedBy(init, a)
    requires forall x :: x in b ==> x.section == sec.id
    ensures GroupedBy(init + [sec], a + b)
  {
    var secs, r := init + [sec], a + b;
    forall j | 0 <= j < |init| ensures init[j].id != sec.id {
      assert secs[j] == init[j] && secs[|init|] == sec;
    }
    RankAppend(init, sec, sec.id);
    forall i | 0 <= i < |a|
      ensures Rank(secs, a[i].section) == Rank(init, a[i].section) < |init|
    {
      RankAppend(init, sec, a[i].section);
    }
    forall i | 0 <= i < |b| ensures Rank(secs, b[i].section) == |init| {
      assert b[i] in b;
    }
    forall i | 0 <= i < |r| ensures Rank(secs, r[i].section) < |secs| {
      if i < |a| { assert r[i] == a[i]; } else { assert r[i] == b[i - |a|]; }
    }
    forall i, j | 0 <= i < j < |r| ensures Rank(secs, r[i].section) <= Rank(secs, r[j].section) {
      if j < |a| {
        assert r[i] == a[i] && r[j] == a[j];
      } else if i < |a| {
        assert r[i] == a[i] && r[j] == b[j - |a|];
      } else {
        assert r[i] == b[i - |a|] && r[j] == b[j - |a|];
      }
    }
  }

  /** The catalogue is grouped by section in configured order: every entry
      belongs to one of `secs`, and the section positions of the entries
      never decrease along the catalogue. */
  lemma {:induction false} ScanAllGrouped(loads: string -> bool, secs: seq<Section>)
    requires DistinctIds(secs)
    ensures GroupedBy(secs, ScanAll(loads, secs))
  {
    if secs != [] {
      var init, sec := secs[..|secs| - 1], secs[|secs| - 1];
      assert secs == init + [sec];
      assert DistinctIds(init) by {
        forall i, j | 0 <= i < j < |init| ensures init[i].id != init[j].id {
          assert init[i] == secs[i] && init[j] == secs[j];
        }
      }
      ScanAllGrouped(loads, init);
      ScanFromSection(loads, sec, 1);
      GroupedAppend(init, sec, ScanAll(loads, init), ScanSection(loads, sec));
    }
  }

  /** A section's scan, and so the whole catalogue, holds at most MaxIndex
      entries per section. */
  lemma {:induction false} ScanAllBound(loads: string -> bool, secs: seq<Section>)
    ensures |ScanAll(loads, secs)| <= MaxIndex * |secs|
  {
    if secs != [] {
      ScanAllBound(loads, secs[..|secs| - 1]);
      ScanFromBound(loads, secs[|secs| - 1], 1);
    }
  }

  /** The configured sections have distinct ids. */
  lemma ConfiguredIdsDistinct()
    ensures DistinctIds(Sections)
  {
  }
}
