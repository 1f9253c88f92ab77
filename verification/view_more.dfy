/**
 * The "view more" button of gallery.js. A click hides the button, works out
 * which catalog entries are not yet on the page (a tile shows the name left
 * after removing `images/` from its `src`), and appends a tile for each of
 * them. Only when it appended something does it come back a second later
 * to show the button again, and then only if some entry is still missing.
 * An appended tile whose image fails to load switches to `images/01.png`.
 */
module ViewMore {
  import opened Seqs
  import opened Text
  import opened Catalog
  import opened Render
  import LocalCatalog

  /** The picture an appended tile falls back to when its image fails (gallery.js:359). */
  const NewTileFallback: string := "images/01.png"

  /** `img.getAttribute('src').replace('images/', '')`: the name a tile shows. */
  function DisplayedName(t: Tile): string
  {
    ReplaceFirst(t.src, ImagesPrefix, "")
  }

  function DisplayedNames(tiles: seq<Tile>): (names: seq<string>)
    ensures |names| == |tiles|
    ensures forall i :: 0 <= i < |tiles| ==> names[i] == DisplayedName(tiles[i])
  {
    seq(|tiles|, i requires 0 <= i < |tiles| => DisplayedName(tiles[i]))
  }

  /**
   * `allImages.filter(image => !displayedImages.includes(image.name))`: the
   * catalog entries whose name no tile shows, in catalog order.
   */
  function Undisplayed(catalog: seq<ImageEntry>, displayed: seq<string>): seq<ImageEntry>
  {
    Filter(NotDisplayed(displayed), catalog)
  }

  /** The test of that filter: no tile shows the entry's name. */
  function NotDisplayed(displayed: seq<string>): ImageEntry -> bool
  {
    (e: ImageEntry) => e.name !in displayed
  }

  /** The entries `Undisplayed` keeps are exactly the catalog entries whose name is not displayed. */
  lemma UndisplayedMembers(catalog: seq<ImageEntry>, displayed: seq<string>)
    ensures forall e :: e in Undisplayed(catalog, displayed) ==> e in catalog && e.name !in displayed
    ensures forall e :: e in catalog && e.name !in displayed ==> e in Undisplayed(catalog, displayed)
  {
    FilterMembers(NotDisplayed(displayed), catalog);
  }

  /** `Undisplayed` keeps the catalog order. */
  lemma UndisplayedOrdered(catalog: seq<ImageEntry>, displayed: seq<string>)
    ensures IsSubseq(Undisplayed(catalog, displayed), catalog)
  {
    FilterSubseq(NotDisplayed(displayed), catalog);
  }

  /** Nothing is missing exactly when every catalog name is displayed. */
  lemma UndisplayedEmpty(catalog: seq<ImageEntry>, displayed: seq<string>)
    ensures Undisplayed(catalog, displayed) == [] <==> forall e :: e in catalog ==> e.name in displayed
  {
    UndisplayedMembers(catalog, displayed);
    if Undisplayed(catalog, displayed) != [] {
      assert Undisplayed(catalog, displayed)[0] in Undisplayed(catalog, displayed);
    }
  }

  /**
   * The tile the click handler appends for `name`: its image loads
   * `images/<name>`, its title is the text before the first dot of the name,
   * and a load error switches it to `images/01.png`.
   */
  function NewTile(name: string): Tile
  {
    Tile(ImagesPrefix + name, Split(name, '.')[0], ShowFirstLocal)
  }

  function NewTiles(names: seq<string>): (tiles: seq<Tile>)
    ensures |tiles| == |names|
    ensures forall i :: 0 <= i < |names| ==> tiles[i] == NewTile(names[i])
  {
    seq(|names|, i requires 0 <= i < |names| => NewTile(names[i]))
  }

  /** A tile whose `src` is `images/<name>` shows `name`. */
  lemma DisplayedPrefixed(name: string, t: Tile)
    requires t.src == ImagesPrefix + name
    ensures DisplayedName(t) == name
  {
    ReplaceLeadingPattern(ImagesPrefix, name, "");
    assert "" + name == name;
  }

  /** The tiles of the initial render show exactly the catalog names, in order. */
  lemma RenderDisplaysCatalog(catalog: seq<ImageEntry>)
    ensures DisplayedNames(RenderTiles(catalog)) == Names(catalog)
  {
    var tiles := RenderTiles(catalog);
    forall i | 0 <= i < |catalog|
      ensures DisplayedName(tiles[i]) == catalog[i].name
    {
      DisplayedPrefixed(catalog[i].name, tiles[i]);
    }
  }

  /** Appended tiles show the names they were made for. */
  lemma NewTilesDisplay(names: seq<string>)
    ensures DisplayedNames(NewTiles(names)) == names
  {
    var tiles := NewTiles(names);
    forall i | 0 <= i < |names|
      ensures DisplayedName(tiles[i]) == names[i]
    {
      DisplayedPrefixed(names[i], tiles[i]);
    }
  }

  lemma DisplayedNamesAppend(a: seq<Tile>, b: seq<Tile>)
    ensures DisplayedNames(a + b) == DisplayedNames(a) + DisplayedNames(b)
  {
    assert forall i :: 0 <= i < |a| ==> (a + b)[i] == a[i];
    assert forall i :: |a| <= i < |a| + |b| ==> (a + b)[i] == b[i - |a|];
  }

  /** What a click leaves behind: the page, and whether the one-second recheck was scheduled. */
  datatype ClickResult = ClickResult(page: Page, recheckScheduled: bool)

  /**
   * The click handler of gallery.js:279-394 given the catalog: the button
   * is hidden; without missing entries nothing else happens; otherwise a
   * tile per missing entry is appended and the recheck is scheduled.
   */
  function ClickViewMore(p: Page, catalog: seq<ImageEntry>): (c: ClickResult)
    ensures !c.page.buttonVisible
    ensures |c.page.tiles| == |p.tiles| + |Undisplayed(catalog, DisplayedNames(p.tiles))|
    ensures c.page.tiles[..|p.tiles|] == p.tiles
    ensures c.recheckScheduled <==> exists e :: e in catalog && e.name !in DisplayedNames(p.tiles)
  {
    var missing := Undisplayed(catalog, DisplayedNames(p.tiles));
    UndisplayedEmpty(catalog, DisplayedNames(p.tiles));
    if |missing| == 0 then
      ClickResult(Page(p.tiles, false), false)
    else
      var tiles := p.tiles + NewTiles(Names(missing));
      assert tiles[..|p.tiles|] == p.tiles;
      ClickResult(Page(tiles, false), true)
  }

  /**
   * The recheck of gallery.js:380-394: the button is shown when some
   * catalog entry is still missing from the page, and left alone otherwise.
   */
  function Recheck(p: Page, catalog: seq<ImageEntry>): (r: Page)
    ensures r.tiles == p.tiles
    ensures r.buttonVisible <==> p.buttonVisible || exists e :: e in catalog && e.name !in DisplayedNames(p.tiles)
  {
    var remaining := Undisplayed(catalog, DisplayedNames(p.tiles));
    UndisplayedEmpty(catalog, DisplayedNames(p.tiles));
    if |remaining| > 0 then p.(buttonVisible := true) else p
  }

  /**
   * The `onerror` of an appended tile (gallery.js:357-360): its image
   * switches to `images/01.png`. Tiles of the initial render have no handler
   * and are left alone.
   */
  function TileError(p: Page, k: int): (r: Page)
    requires 0 <= k < |p.tiles|
    ensures |r.tiles| == |p.tiles| && r.buttonVisible == p.buttonVisible
    ensures forall j :: 0 <= j < |p.tiles| && j != k ==> r.tiles[j] == p.tiles[j]
    ensures p.tiles[k].onError == ShowFirstLocal ==> r.tiles[k].src == NewTileFallback
    ensures p.tiles[k].onError == NoHandler ==> r.tiles[k] == p.tiles[k]
  {
    match p.tiles[k].onError
    case NoHandler => p
    case ShowFirstLocal => p.(tiles := p.tiles[k := p.tiles[k].(src := NewTileFallback)])
  }

  /** After a click every catalog entry is displayed. */
  lemma ClickDisplaysAll(p: Page, catalog: seq<ImageEntry>)
    ensures var after := ClickViewMore(p, catalog).page;
      forall e :: e in catalog ==> e.name in DisplayedNames(after.tiles)
  {
    var shown := DisplayedNames(p.tiles);
    var missing := Undisplayed(catalog, shown);
    UndisplayedMembers(catalog, shown);
    if |missing| > 0 {
      var added := NewTiles(Names(missing));
      DisplayedNamesAppend(p.tiles, added);
      NewTilesDisplay(Names(missing));
      forall e | e in catalog
        ensures e.name in DisplayedNames(p.tiles + added)
      {
        if e.name !in shown {
          var i :| 0 <= i < |missing| && missing[i] == e;
          assert Names(missing)[i] == e.name;
        }
      }
    }
  }

  /**
   * When the recheck follows a click with no load error in between, it
   * finds nothing missing and the button stays hidden.
   */
  lemma RecheckAfterClickKeepsHidden(p: Page, catalog: seq<ImageEntry>)
    ensures var c := ClickViewMore(p, catalog);
      !Recheck(c.page, catalog).buttonVisible
  {
    ClickDisplaysAll(p, catalog);
  }

  /** A second click right after the first finds nothing to add. */
  lemma SecondClickAddsNothing(p: Page, catalog: seq<ImageEntry>)
    ensures var c := ClickViewMore(p, catalog);
      ClickViewMore(c.page, catalog) == ClickResult(c.page, false)
  {
    ClickDisplaysAll(p, catalog);
  }

  /** The tiles a click appends are for the missing entries, in catalog order. */
  lemma ClickAppendsMissing(p: Page, catalog: seq<ImageEntry>)
    ensures var c := ClickViewMore(p, catalog);
      var missing := Undisplayed(catalog, DisplayedNames(p.tiles));
      && DisplayedNames(c.page.tiles[|p.tiles|..]) == Names(missing)
      && IsSubseq(missing, catalog)
      && forall n :: n in DisplayedNames(c.page.tiles[|p.tiles|..]) ==> n !in DisplayedNames(p.tiles)
  {
    var shown := DisplayedNames(p.tiles);
    var missing := Undisplayed(catalog, shown);
    var c := ClickViewMore(p, catalog);
    UndisplayedOrdered(catalog, shown);
    UndisplayedMembers(catalog, shown);
    var added := c.page.tiles[|p.tiles|..];
    if |missing| == 0 {
      assert added == [];
    } else {
      assert added == NewTiles(Names(missing));
    }
    NewTilesDisplay(Names(missing));
    forall n | n in DisplayedNames(added)
      ensures n !in shown
    {
      var i :| 0 <= i < |Names(missing)| && Names(missing)[i] == n;
      assert missing[i] in missing;
    }
  }

  /**
   * The initial render shows the whole catalog, so a click right after it
   * adds nothing, hides the button and schedules no recheck.
   */
  lemma ClickAfterLoadAddsNothing(p: Page, catalog: seq<ImageEntry>)
    ensures var loaded := LoadGallery(p, catalog);
      ClickViewMore(loaded, catalog) == ClickResult(loaded.(buttonVisible := false), false)
  {
    var loaded := LoadGallery(p, catalog);
    RenderDisplaysCatalog(catalog);
    UndisplayedMembers(catalog, Names(catalog));
    assert loaded.tiles == RenderTiles(catalog);
    forall e | e in catalog
      ensures e.name in Names(catalog)
    {
      var i :| 0 <= i < |catalog| && catalog[i] == e;
      assert Names(catalog)[i] == e.name;
    }
  }

  /**
   * An appended tile whose image fails shows `01.png`. When the recheck
   * comes straight after the error and no other tile shows the entry's
   * name, the recheck finds that entry missing and shows the button again,
   * unless that entry is `01.png`, which the fallback picture itself shows.
   */
  lemma FailedTileIsOfferedAgain(p: Page, catalog: seq<ImageEntry>, k: int, e: ImageEntry)
    requires 0 <= k < |p.tiles| && p.tiles[k].onError == ShowFirstLocal
    requires e in catalog && e.name != "01.png"
    requires forall j :: 0 <= j < |p.tiles| && j != k ==> DisplayedName(p.tiles[j]) != e.name
    ensures Recheck(TileError(p, k), catalog).buttonVisible
  {
    var q := TileError(p, k);
    DisplayedPrefixed("01.png", q.tiles[k]);
    assert e.name !in DisplayedNames(q.tiles);
  }

  /**
   * The exception: the failed tile now shows `01.png`, so the `01.png`
   * entry is not offered again even when no other tile shows it. A recheck
   * straight after the error keeps the button hidden as long as every other
   * entry is shown by some other tile.
   */
  lemma FailedOnePngIsNotOffered(p: Page, catalog: seq<ImageEntry>, k: int)
    requires 0 <= k < |p.tiles| && p.tiles[k].onError == ShowFirstLocal && !p.buttonVisible
    requires forall e :: e in catalog ==>
               e.name == "01.png" || exists j :: 0 <= j < |p.tiles| && j != k && DisplayedName(p.tiles[j]) == e.name
    ensures !Recheck(TileError(p, k), catalog).buttonVisible
  {
    var q := TileError(p, k);
    var shown := DisplayedNames(q.tiles);
    DisplayedPrefixed("01.png", q.tiles[k]);
    forall e | e in catalog
      ensures e.name in shown
    {
      if e.name == "01.png" {
        assert shown[k] == e.name;
      } else {
        var j :| 0 <= j < |p.tiles| && j != k && DisplayedName(p.tiles[j]) == e.name;
        assert shown[j] == e.name;
      }
    }
  }

  /**
   * Appended tiles are titled by the text before the first dot. For an
   * entry whose name is a dotless stem, a dot and an extension, that is its
   * base name, the title the initial render gives it. This includes the
   * empty stem of a name such as `.png`, where both titles are empty.
   */
  lemma NewTileTitleOneDot(stem: string, ext: string)
    requires '.' !in stem && '.' !in ext
    ensures NewTile(stem + "." + ext).title == stem
    ensures CreateTile(ToEntry(stem + "." + ext)).title == stem
  {
    NameParts(stem, ext);
    SplitFirstPart(stem, ext, '.');
    assert stem + ['.'] + ext == stem + "." + ext;
  }

  /**
   * For a name with a further dot in its stem the two titles differ: the
   * appended tile is titled with the text before the first dot, the
   * initial render with the whole base name. With an empty first part, as
   * in `.b.png`, the appended tile gets the empty title and the initial
   * render `.b`.
   */
  lemma NewTileTitleManyDots(first: string, more: string, ext: string)
    requires '.' !in first && '.' !in ext
    ensures var name := first + "." + more + "." + ext;
      && NewTile(name).title == first
      && CreateTile(ToEntry(name)).title == first + "." + more
      && NewTile(name).title != CreateTile(ToEntry(name)).title
  {
    var stem := first + "." + more;
    var name := stem + "." + ext;
    NameParts(stem, ext);
    assert name == first + ['.'] + (more + "." + ext);
    SplitFirstPart(first, more + "." + ext, '.');
    assert first + "." + more + "." + ext == name;
    assert |stem| > |first|;
  }

  /**
   * On the page as loaded, the grid holds the ten tiles of the compiled-in
   * catalog, and "view more" has nothing to add.
   */
  lemma ViewMoreOnLoadedPage(p: Page)
    ensures var catalog := LocalCatalog.GetLocalImages();
      var loaded := LoadGallery(p, catalog);
      && |loaded.tiles| == 10
      && ClickViewMore(loaded, catalog) == ClickResult(loaded.(buttonVisible := false), false)
  {
    LocalCatalog.GetLocalImagesValue();
    ClickAfterLoadAddsNothing(p, LocalCatalog.GetLocalImages());
  }
}
