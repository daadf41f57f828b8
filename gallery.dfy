/** The gallery page's state and the operations that change it: the image
    catalogue `allImages` that the discovery scan fills, the grid items and
    section titles it creates, the current section, and star mode. */
module Page {
  import opened Text
  import opened Scan
  import opened View

  /** The grid item created for a catalogue entry: hidden unless it belongs
      to the section shown when the page opens. */
  function ItemFor(x: ImageRef): Item {
    Item(x.section, x.path, x.name, x.section != InitialSection)
  }

  function ItemsFor(refs: seq<ImageRef>): (r: seq<Item>)
    ensures Mirrors(r, refs)
  {
    seq(|refs|, i requires 0 <= i < |refs| => ItemFor(refs[i]))
  }

  /** The title created for a section: displayed only for the section shown
      when the page opens. */
  function TitleFor(sec: Section): Title {
    Title(sec.id, sec.name, sec.id == InitialSection)
  }

  function TitlesFor(secs: seq<Section>): seq<Title> {
    seq(|secs|, i requires 0 <= i < |secs| => TitleFor(secs[i]))
  }

  lemma AppendAssoc<T>(a: seq<T>, b: seq<T>, c: seq<T>)
    ensures (a + b) + c == a + (b + c)
  {
  }

  lemma ItemsForAppend(a: seq<ImageRef>, b: seq<ImageRef>)
    ensures ItemsFor(a + b) == ItemsFor(a) + ItemsFor(b)
  {
  }

  /** Scanning one more section appends its entries to the catalogue. */
  lemma ScanAllStep(loads: string -> bool, secs: seq<Section>, si: nat)
    requires si < |secs|
    ensures ScanAll(loads, secs[..si + 1]) == ScanAll(loads, secs[..si]) + ScanSection(loads, secs[si])
  {
    assert secs[..si + 1][..si] == secs[..si];
  }

  /** Appending a batch of entries to the catalogue and their items to the grid. */
  lemma ExtendCatalogue(base: seq<ImageRef>, baseItems: seq<Item>, done: seq<ImageRef>, found: seq<ImageRef>)
    ensures (base + done) + found == base + (done + found)
    ensures (baseItems + ItemsFor(done)) + ItemsFor(found) == baseItems + ItemsFor(done + found)
  {
    ItemsForAppend(done, found);
  }

  lemma TitlesForStep(secs: seq<Section>, si: nat)
    requires si < |secs|
    ensures TitlesFor(secs[..si + 1]) == TitlesFor(secs[..si]) + [TitleFor(secs[si])]
  {
  }

  /** Loading section `secs[si]` after sections `secs[..si]` extends the
      catalogue, the grid and the titles to those of `secs[..si + 1]`. */
  lemma LoadStep(loads: string -> bool, secs: seq<Section>, si: nat,
                 base: seq<ImageRef>, baseItems: seq<Item>, baseTitles: seq<Title>)
    requires si < |secs|
    ensures (base + ScanAll(loads, secs[..si])) + ScanSection(loads, secs[si])
      == base + ScanAll(loads, secs[..si + 1])
    ensures (baseItems + ItemsFor(ScanAll(loads, secs[..si]))) + ItemsFor(ScanSection(loads, secs[si]))
      == baseItems + ItemsFor(ScanAll(loads, secs[..si + 1]))
    ensures (baseTitles + TitlesFor(secs[..si])) + [TitleFor(secs[si])]
      == baseTitles + TitlesFor(secs[..si + 1])
  {
    ScanAllStep(loads, secs, si);
    ExtendCatalogue(base, baseItems, ScanAll(loads, secs[..si]), ScanSection(loads, secs[si]));
    TitlesForStep(secs, si);
    AppendAssoc(baseTitles, TitlesFor(secs[..si]), [TitleFor(secs[si])]);
  }

  /** Scanning one more section appends its requests to the request log. */
  lemma RequestStep(loads: string -> bool, secs: seq<Section>, si: nat, baseProbed: seq<string>)
    requires si < |secs|
    ensures (baseProbed + AllRequests(loads, secs[..si])) + SectionRequests(loads, secs[si])
      == baseProbed + AllRequests(loads, secs[..si + 1])
  {
    assert secs[..si + 1][..si] == secs[..si];
    AppendAssoc(baseProbed, AllRequests(loads, secs[..si]), SectionRequests(loads, secs[si]));
  }

  /** The requests made for one more image number, followed by those the
      scan makes after it, are the rest of the section's requests. */
  lemma RequestsAdvance(loads: string -> bool, sec: Section, n: nat, asked: seq<string>, whole: seq<string>)
    requires n <= MaxIndex
    requires asked + RequestsFrom(loads, sec, n) == whole
    ensures Probe(loads, sec, n).None? ==> asked + Attempts(loads, sec, n) == whole
    ensures Probe(loads, sec, n).Some? ==> (asked + Attempts(loads, sec, n)) + RequestsFrom(loads, sec, n + 1) == whole
  {
    AppendAssoc(asked, Attempts(loads, sec, n), RequestsFrom(loads, sec, n + 1));
  }

  /** Recording one more entry keeps the catalogue and the grid in step. */
  lemma CatalogueAppend(all: seq<ImageRef>, items: seq<Item>, found: seq<ImageRef>, x: ImageRef)
    ensures (all + found) + [x] == all + (found + [x])
    ensures (items + ItemsFor(found)) + ItemsFor([x]) == items + ItemsFor(found + [x])
  {
    ItemsForAppend(found, [x]);
  }

  /** Once the scan is over and the initial section is selected, the grid
      shows exactly the images found for that section, in the order found. */
  lemma InitialGridShowsFirstSection(loads: string -> bool)
    ensures VisiblePaths(ShowSection(ItemsFor(ScanAll(loads, Sections)), InitialSection))
      == Paths(ScanSection(loads, Sections[0]))
  {
    var all := ScanAll(loads, Sections);
    ConfiguredIdsDistinct();
    GridMatchesStars(ItemsFor(all), all, InitialSection);
    StarsOfSection(loads, Sections, 0);
  }

  /** Opening the page: an empty gallery runs the discovery scan. Afterwards
      the catalogue is the scan of every section, and the visible grid is
      exactly the scan of the first section. */
  method OpenPage(loads: string -> bool) returns (g: Gallery)
    ensures fresh(g) && g.Valid()
    ensures g.allImages == ScanAll(loads, Sections)
    ensures g.currentSection == InitialSection && !g.starMode
    ensures VisiblePaths(g.items) == Paths(ScanSection(loads, Sections[0]))
    ensures g.probed == AllRequests(loads, Sections)
  {
    g := new Gallery();
    g.LoadImages(loads);
    assert [] + ItemsFor(ScanAll(loads, Sections)) == ItemsFor(ScanAll(loads, Sections));
    assert [] + AllRequests(loads, Sections) == AllRequests(loads, Sections);
    InitialGridShowsFirstSection(loads);
  }

  class Gallery {
    /** Every image found so far, in the order found. */
    var allImages: seq<ImageRef>
    /** The grid items, one per catalogue entry. */
    var items: seq<Item>
    /** The section titles, one per scanned section. */
    var titles: seq<Title>
    var currentSection: string
    /** Whether the page is in star mode. */
    var starMode: bool
    /** The images shown as stars. */
    var stars: seq<ImageRef>
    /** Every image path the page has asked the browser to load, in order. */
    ghost var probed: seq<string>

    /** The grid items stand for the catalogue entries, position by position. */
    ghost predicate Valid()
      reads this
    {
      Mirrors(items, allImages)
    }

    /** The page as it is before any image is found. */
    constructor ()
      ensures Valid()
      ensures allImages == [] && items == [] && titles == []
      ensures currentSection == InitialSection && !starMode && stars == []
      ensures probed == []
    {
      allImages, items, titles, probed := [], [], [], [];
      currentSection := InitialSection;
      starMode, stars := false, [];
    }

    /** Adds the grid item for a found image and records it in the
        catalogue. Nothing already in the catalogue changes. */
    method CreateImageItem(imagePath: string, imageName: string, sectionId: string)
      requires Valid()
      modifies this`allImages, this`items
      ensures Valid()
      ensures allImages == old(allImages) + [ImageRef(imagePath, imageName, sectionId)]
      ensures items == old(items) + [ItemFor(ImageRef(imagePath, imageName, sectionId))]
    {
      items := items + [Item(sectionId, imagePath, imageName, sectionId != InitialSection)];
      allImages := allImages + [ImageRef(imagePath, imageName, sectionId)];
    }

    /** Fills the star container with the images of the current section. */
    method CreateStars()
      modifies this`stars
      ensures stars == StarImages(allImages, currentSection)
    {
      stars := StarImages(allImages, currentSection);
    }

    method ClearStars()
      modifies this`stars
      ensures stars == []
    {
      stars := [];
    }

    /** Displays the title of the current section and no other. */
    method UpdateSectionTitles()
      modifies this`titles
      ensures titles == ShowTitles(old(titles), currentSection)
    {
      titles := ShowTitles(titles, currentSection);
    }

    /** Makes `sectionId` the current section: only its grid items and its
        title are shown, and in star mode the stars are rebuilt for it. */
    method SwitchSection(sectionId: string)
      requires Valid()
      modifies this
      ensures Valid()
      ensures currentSection == sectionId
      ensures allImages == old(allImages) && starMode == old(starMode) && probed == old(probed)
      ensures items == ShowSection(old(items), sectionId)
      ensures titles == ShowTitles(old(titles), sectionId)
      ensures stars == if starMode then StarImages(allImages, sectionId) else old(stars)
    {
      currentSection := sectionId;
      items := ShowSection(items, sectionId);
      UpdateSectionTitles();
      if starMode {
        CreateStars();
      }
    }

    /** The star-mode button: switches star mode and builds or clears the stars. */
    method ToggleStarMode()
      modifies this`starMode, this`stars
      ensures starMode == !old(starMode)
      ensures stars == if starMode then StarImages(allImages, currentSection) else []
    {
      starMode := !starMode;
      if starMode {
        CreateStars();
      } else {
        ClearStars();
      }
    }

    /** The discovery scan: for each configured section in order, adds its
        title and scans its images; then shows the initial section. */
    method LoadImages(loads: string -> bool)
      requires Valid()
      modifies this
      ensures Valid()
      ensures allImages == old(allImages) + ScanAll(loads, Sections)
      ensures items == ShowSection(old(items) + ItemsFor(ScanAll(loads, Sections)), InitialSection)
      ensures titles == ShowTitles(old(titles) + TitlesFor(Sections), InitialSection)
      ensures currentSection == InitialSection && starMode == old(starMode)
      ensures stars == if starMode then StarImages(allImages, InitialSection) else old(stars)
      ensures probed == old(probed) + AllRequests(loads, Sections)
    {
      LoadSections(loads, Sections);
      SwitchSection(InitialSection);
    }

    /** The loop of the discovery scan over the sections `secs`, in order. */
    method LoadSections(loads: string -> bool, secs: seq<Section>)
      requires Valid()
      modifies this`allImages, this`items, this`titles, this`probed
      ensures Valid()
      ensures allImages == old(allImages) + ScanAll(loads, secs)
      ensures items == old(items) + ItemsFor(ScanAll(loads, secs))
      ensures titles == old(titles) + TitlesFor(secs)
      ensures probed == old(probed) + AllRequests(loads, secs)
    {
      ghost var base, baseItems, baseTitles, baseProbed := allImages, items, titles, probed;
      for si := 0 to |secs|
        invariant Valid()
        invariant allImages == base + ScanAll(loads, secs[..si])
        invariant items == baseItems + ItemsFor(ScanAll(loads, secs[..si]))
        invariant titles == baseTitles + TitlesFor(secs[..si])
        invariant probed == baseProbed + AllRequests(loads, secs[..si])
      {
        LoadSection(loads, secs[si]);
        LoadStep(loads, secs, si, base, baseItems, baseTitles);
        RequestStep(loads, secs, si, baseProbed);
      }
      assert secs[..|secs|] == secs;
    }

    /** One section of the discovery scan: its title, then its images. */
    method LoadSection(loads: string -> bool, section: Section)
      requires Valid()
      modifies this`allImages, this`items, this`titles, this`probed
      ensures Valid()
      ensures titles == old(titles) + [TitleFor(section)]
      ensures allImages == old(allImages) + ScanSection(loads, section)
      ensures items == old(items) + ItemsFor(ScanSection(loads, section))
      ensures probed == old(probed) + SectionRequests(loads, section)
    {
      titles := titles + [Title(section.id, section.name, section.id == InitialSection)];
      ScanSectionImages(loads, section);
    }

    /** The scan of one section: probes image numbers 1, 2, ... up to
        MaxIndex and stops at the first number under which no extension
        loads. */
    method ScanSectionImages(loads: string -> bool, section: Section)
      requires Valid()
      modifies this`allImages, this`items, this`probed
      ensures Valid()
      ensures allImages == old(allImages) + ScanSection(loads, section)
      ensures items == old(items) + ItemsFor(ScanSection(loads, section))
      ensures probed == old(probed) + SectionRequests(loads, section)
    {
      ghost var found: seq<ImageRef> := [];
      ghost var asked: seq<string> := [];
      var imageNum := 1;
      while imageNum <= MaxIndex
        invariant 1 <= imageNum <= MaxIndex + 1
        invariant Valid()
        invariant allImages == old(allImages) + found && items == old(items) + ItemsFor(found)
        invariant found + ScanFrom(loads, section, imageNum) == ScanSection(loads, section)
        invariant probed == old(probed) + asked
        invariant asked + RequestsFrom(loads, section, imageNum) == SectionRequests(loads, section)
        decreases MaxIndex + 1 - imageNum
      {
        var imageName := ImageName(section.prefix, imageNum);
        var imageLoaded := TryExtensions(loads, section, imageName, imageNum);
        RequestsAdvance(loads, section, imageNum, asked, SectionRequests(loads, section));
        AppendAssoc(old(probed), asked, Attempts(loads, section, imageNum));
        asked := asked + Attempts(loads, section, imageNum);
        if !imageLoaded {
          break;
        }
        ghost var x := Entry(section, imageNum, Extensions[Probe(loads, section, imageNum).value]);
        ScanFromAdvance(loads, section, imageNum, found, ScanSection(loads, section));
        CatalogueAppend(old(allImages), old(items), found, x);
        found := found + [x];
        imageNum := imageNum + 1;
      }
      ScanFromStep(loads, section, imageNum);
      assert found + [] == found && asked + [] == asked;
    }

    /** Tries the extensions in order under image number `imageNum`, named
        `imageName`, and records the first that loads, trying no later one.
        Reports whether any loaded. */
    method TryExtensions(loads: string -> bool, section: Section, imageName: string, imageNum: nat)
      returns (imageLoaded: bool)
      requires Valid()
      requires imageName == ImageName(section.prefix, imageNum)
      modifies this`allImages, this`items, this`probed
      ensures Valid()
      ensures imageLoaded == Probe(loads, section, imageNum).Some?
      ensures probed == old(probed) + Attempts(loads, section, imageNum)
      ensures var added := if imageLoaded
                then [Entry(section, imageNum, Extensions[Probe(loads, section, imageNum).value])]
                else [];
        allImages == old(allImages) + added && items == old(items) + ItemsFor(added)
    {
      imageLoaded := false;
      for e := 0 to |Extensions|
        invariant !imageLoaded
        invariant FirstLoading(loads, imageName, Extensions, e) == Probe(loads, section, imageNum)
        invariant allImages == old(allImages) && items == old(items) && Valid()
        invariant probed == old(probed) + Tries(imageName, e)
      {
        var imagePath := "images/" + imageName + "." + Extensions[e];
        probed := probed + [imagePath];
        assert Tries(imageName, e) + [imagePath] == Tries(imageName, e + 1);
        if loads(imagePath) {
          CreateImageItem(imagePath, imageName, section.id);
          imageLoaded := true;
          assert probed == old(probed) + Attempts(loads, section, imageNum);
          break;
        }
      }
    }
  }
}
