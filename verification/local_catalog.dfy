/**
 * The compiled-in listing of `getLocalImages` (gallery.js:28-39) and the
 * catalog it produces. The listing is a run of groups: one stem spelled with
 * several extensions (`01.png`, `01.jpg`, `01.webp`), and the catalog keeps
 * the first supported spelling of each stem.
 */
module LocalCatalog {
  import opened Text
  import opened Catalog

  /** The `imageFiles` array of gallery.js:28-39, in its original order. */
  const ImageFiles: seq<string> := [
    "01.png", "01.jpg", "01.webp",
    "03.png", "03.jpg", "03.webp",
    "1701301154192.jpg",
    "Gemini_Generated_Image_4ojgst4ojgst4ojg.png", "Gemini_Generated_Image_4ojgst4ojgst4ojg.jpg", "Gemini_Generated_Image_4ojgst4ojgst4ojg.webp",
    "Gemini_Generated_Image_7uq0647uq0647uq0.png", "Gemini_Generated_Image_7uq0647uq0647uq0.jpg", "Gemini_Generated_Image_7uq0647uq0647uq0.webp",
    "Gemini_Generated_Image_9buadr9buadr9bua.png", "Gemini_Generated_Image_9buadr9buadr9bua.jpg", "Gemini_Generated_Image_9buadr9buadr9bua.webp",
    "Gemini_Generated_Image_g2altjg2altjg2al.png", "Gemini_Generated_Image_g2altjg2altjg2al.jpg", "Gemini_Generated_Image_g2altjg2altjg2al.webp",
    "Gemini_Generated_Image_inoi3iinoi3iinoi.png", "Gemini_Generated_Image_inoi3iinoi3iinoi.jpg", "Gemini_Generated_Image_inoi3iinoi3iinoi.webp",
    "Gemini_Generated_Image_zboah5zboah5zboa.png", "Gemini_Generated_Image_zboah5zboah5zboa.jpg", "Gemini_Generated_Image_zboah5zboah5zboa.webp",
    "Swamp_Thing_Vol_5_25_Textless.jpg"
  ]

  /** `getLocalImages()`: the catalog of the compiled-in listing. */
  function GetLocalImages(): seq<ImageEntry>
  {
    ListImages(ImageFiles)
  }

  /**
   * One line of the listing: a stem written with each of several
   * extensions; `names` holds the spellings as the listing has them.
   *
   * The listing is spelled a second time below, as ten `Line`s, because
   * evaluating `ListImages` on the 26-name literal directly is far beyond
   * what the verifier can do in one step. Instead `ListImagesByLines` proves
   * the catalog of any listing made of such lines, and small lemmas check
   * that the lines spell `ImageFiles` (`ListingNames`) and that each line is
   * well spelled (`Line1Spelled` … `Line10Spelled`, one per line, since one
   * lemma over the whole listing is likewise too costly).
   */
  datatype Line = Line(stem: string, exts: seq<string>, names: seq<string>)

  /** The listing as a list of lines. */
  datatype Lines = Nil | Cons(line: Line, rest: Lines)

  /** The names of all lines, line after line. */
  function ListedNames(ls: Lines): seq<string>
  {
    if ls.Nil? then [] else ls.line.names + ListedNames(ls.rest)
  }

  /** Some line of `ls` has stem `stem`. */
  predicate HasStem(ls: Lines, stem: string)
  {
    ls.Cons? && (ls.line.stem == stem || HasStem(ls.rest, stem))
  }

  /** Every name of the line is its stem, a dot and its extension, which holds no dot. */
  ghost predicate WellSpelled(l: Line)
  {
    && |l.names| == |l.exts|
    && forall t :: 0 <= t < |l.names| ==> '.' !in l.exts[t] && l.names[t] == l.stem + "." + l.exts[t]
  }

  ghost predicate AllWellSpelled(ls: Lines)
  {
    ls.Nil? || (WellSpelled(ls.line) && AllWellSpelled(ls.rest))
  }

  /** No two lines share a stem. */
  predicate DistinctStems(ls: Lines)
  {
    ls.Nil? || (!HasStem(ls.rest, ls.line.stem) && DistinctStems(ls.rest))
  }

  /**
   * The two shapes of line the listing has: `png`, `jpg`, `webp`, or `jpg`
   * alone. Either way the first spelling is a supported one.
   */
  predicate Shaped(l: Line)
  {
    && (l.exts == ["png", "jpg", "webp"] || l.exts == ["jpg"])
    && |l.names| == |l.exts|
  }

  predicate AllShaped(ls: Lines)
  {
    ls.Nil? || (Shaped(ls.line) && AllShaped(ls.rest))
  }

  /** The entry of each line's first spelling, line after line. */
  function FirstSpellings(ls: Lines): seq<ImageEntry>
    requires AllShaped(ls)
  {
    if ls.Nil? then [] else [ImageEntry(ls.line.names[0], ls.line.stem)] + FirstSpellings(ls.rest)
  }

  /** Every name of well-spelled lines has the stem of one of the lines as base name. */
  lemma {:induction false} NamesBaseNames(ls: Lines)
    requires AllWellSpelled(ls)
    ensures forall i :: 0 <= i < |ListedNames(ls)| ==> HasStem(ls, BaseName(ListedNames(ls)[i]))
  {
    if ls.Cons? {
      var l := ls.line;
      var front, back := l.names, ListedNames(ls.rest);
      NamesBaseNames(ls.rest);
      var all := ListedNames(ls);
      assert all == front + back;
      forall i | 0 <= i < |all|
        ensures HasStem(ls, BaseName(all[i]))
      {
        if i < |front| {
          assert all[i] == l.stem + "." + l.exts[i];
          NameParts(l.stem, l.exts[i]);
        } else {
          assert all[i] == back[i - |front|];
        }
      }
    }
  }

  /** A well-spelled line of either shape is catalogued as its first spelling. */
  lemma LineCatalog(l: Line)
    requires WellSpelled(l) && Shaped(l)
    ensures ListImages(l.names) == [ImageEntry(l.names[0], l.stem)]
  {
    if l.exts == ["jpg"] {
      JpgOnly(l.stem, l.names[0]);
      assert l.names == [l.names[0]];
    } else {
      assert l.exts[1] == "jpg" && l.exts[2] == "webp";
      PngJpgWebp(l.stem, l.names[0], l.names[1], l.names[2]);
      assert l.names == [l.names[0], l.names[1], l.names[2]];
    }
  }

  /**
   * A listing of well-spelled lines of the two shapes with pairwise
   * different stems is catalogued as the first spelling of each line, in
   * line order.
   */
  lemma {:induction false} ListImagesByLines(ls: Lines)
    requires AllWellSpelled(ls) && AllShaped(ls) && DistinctStems(ls)
    ensures ListImages(ListedNames(ls)) == FirstSpellings(ls)
  {
    if ls.Nil? {
      assert ListedNames(ls) == [];
      assert ListImages([]) == [];
    } else {
      var l := ls.line;
      var front, back := l.names, ListedNames(ls.rest);
      ListImagesByLines(ls.rest);
      NamesBaseNames(ls.rest);
      forall i, j | 0 <= i < |front| && 0 <= j < |back|
        ensures BaseName(front[i]) != BaseName(back[j])
      {
        NameParts(l.stem, l.exts[i]);
      }
      ListImagesAppend(front, back);
      LineCatalog(l);
    }
  }

  /** Lower-casing leaves a string without ASCII capitals alone. */
  lemma ToLowerOfLower(s: string)
    requires forall i :: 0 <= i < |s| ==> !IsAsciiUpper(s[i])
    ensures ToLower(s) == s
  {
    ToLowerSpec(s);
  }

  /** A name spelled stem, dot, extension passes the format filter exactly when its extension does. */
  lemma SupportedSpelling(stem: string, ext: string)
    requires '.' !in ext
    ensures IsSupported(stem + "." + ext) == IsSupportedFormat(ToLower(ext))
  {
    NameParts(stem, ext);
  }

  /** `png` and `jpg` are accepted, `webp` is not. */
  lemma KnownFormats()
    ensures IsSupportedFormat(ToLower("png")) && IsSupportedFormat(ToLower("jpg"))
    ensures !IsSupportedFormat(ToLower("webp"))
  {
    ToLowerOfLower("png");
    ToLowerOfLower("jpg");
    ToLowerOfLower("webp");
    assert "webp" != "png" && "webp" != "jpg";
    assert "webp"[0] != "jpeg"[0];
  }

  /** The format filter on a list with a given first name. */
  lemma SupportedOnlyCons(x: string, rest: seq<string>)
    ensures SupportedOnly([x] + rest) == (if IsSupported(x) then [x] else []) + SupportedOnly(rest)
  {
    assert ([x] + rest)[0] == x && ([x] + rest)[1..] == rest;
  }

  /** Of two entries with one base name only the first is kept. */
  lemma DedupePair(a: ImageEntry, b: ImageEntry)
    requires a.baseName == b.baseName
    ensures Dedupe([a, b]) == [a]
  {
    var es := [a, b];
    assert FindIndex(es, b.baseName) == 0;
    KeepFirstsUnfold(es, 0);
    KeepFirstsUnfold(es, 1);
    assert KeepFirsts(es, 2) == [];
  }

  /** A single entry is kept. */
  lemma DedupeSingle(a: ImageEntry)
    ensures Dedupe([a]) == [a]
  {
    KeepFirstsUnfold([a], 0);
    assert KeepFirsts([a], 1) == [];
  }

  /** The catalog of a listing whose supported names are two spellings of one base name. */
  lemma ListImagesOfPair(files: seq<string>, a: string, b: string)
    requires SupportedOnly(files) == [a, b] && BaseName(a) == BaseName(b)
    ensures ListImages(files) == [ToEntry(a)]
  {
    assert Entries([a, b]) == [ToEntry(a), ToEntry(b)];
    DedupePair(ToEntry(a), ToEntry(b));
  }

  /** The catalog of a listing with a single supported name. */
  lemma ListImagesOfSingle(files: seq<string>, a: string)
    requires SupportedOnly(files) == [a]
    ensures ListImages(files) == [ToEntry(a)]
  {
    assert Entries([a]) == [ToEntry(a)];
    DedupeSingle(ToEntry(a));
  }

  /** The names `stem.png`, `stem.jpg`, `stem.webp` are catalogued as the `png` one alone. */
  lemma PngJpgWebp(stem: string, png: string, jpg: string, webp: string)
    requires png == stem + "." + "png" && jpg == stem + "." + "jpg" && webp == stem + "." + "webp"
    ensures ListImages([png, jpg, webp]) == [ImageEntry(png, stem)]
  {
    assert '.' !in "png" && '.' !in "jpg" && '.' !in "webp";
    SupportedPngJpgWebp(stem, png, jpg, webp);
    NameParts(stem, "png");
    NameParts(stem, "jpg");
    NameParts(stem, "webp");
    ListImagesOfPair([png, jpg, webp], png, jpg);
  }

  /** Of the names `stem.png`, `stem.jpg`, `stem.webp` the format filter keeps the first two. */
  lemma SupportedPngJpgWebp(stem: string, png: string, jpg: string, webp: string)
    requires png == stem + "." + "png" && jpg == stem + "." + "jpg" && webp == stem + "." + "webp"
    ensures SupportedOnly([png, jpg, webp]) == [png, jpg]
  {
    assert [png, jpg, webp] == [png] + ([jpg] + [webp]);
    KnownFormats();
    SupportedSpelling(stem, "png");
    SupportedSpelling(stem, "jpg");
    SupportedSpelling(stem, "webp");
    SupportedOnlyCons(webp, []);
    assert [webp] + [] == [webp];
    SupportedOnlyCons(jpg, [webp]);
    SupportedOnlyCons(png, [jpg] + [webp]);
  }

  /** The name `stem.jpg` alone is catalogued as itself. */
  lemma JpgOnly(stem: string, jpg: string)
    requires jpg == stem + "." + "jpg"
    ensures ListImages([jpg]) == [ImageEntry(jpg, stem)]
  {
    assert '.' !in "jpg";
    assert [jpg] == [jpg] + [];
    KnownFormats();
    SupportedSpelling(stem, "jpg");
    SupportedOnlyCons(jpg, []);
    NameParts(stem, "jpg");
    ListImagesOfSingle([jpg], jpg);
  }

  /** The name `stem.webp` alone is dropped. */
  lemma WebpOnly(stem: string, webp: string)
    requires webp == stem + "." + "webp"
    ensures ListImages([webp]) == []
  {
    assert [webp] == [webp] + [];
    KnownFormats();
    SupportedSpelling(stem, "webp");
    SupportedOnlyCons(webp, []);
    assert Entries([]) == [];
    assert KeepFirsts([], 0) == [];
  }

  /** A line spelling `stem` as `png`, `jpg` and `webp` is well spelled. */
  lemma SpelledPngJpgWebp(stem: string, png: string, jpg: string, webp: string)
    requires png == stem + "." + "png" && jpg == stem + "." + "jpg" && webp == stem + "." + "webp"
    ensures WellSpelled(Line(stem, ["png", "jpg", "webp"], [png, jpg, webp]))
  {
    assert '.' !in "png" && '.' !in "jpg" && '.' !in "webp";
  }

  /** A line spelling `stem` as `jpg` alone is well spelled. */
  lemma SpelledJpg(stem: string, jpg: string)
    requires jpg == stem + "." + "jpg"
    ensures WellSpelled(Line(stem, ["jpg"], [jpg]))
  {
    assert '.' !in "jpg";
  }

  const Line1: Line := Line("01", ["png", "jpg", "webp"], ["01.png", "01.jpg", "01.webp"])
  const Line2: Line := Line("03", ["png", "jpg", "webp"], ["03.png", "03.jpg", "03.webp"])
  const Line3: Line := Line("1701301154192", ["jpg"], ["1701301154192.jpg"])
  const Line4: Line := Line("Gemini_Generated_Image_4ojgst4ojgst4ojg", ["png", "jpg", "webp"], ["Gemini_Generated_Image_4ojgst4ojgst4ojg.png", "Gemini_Generated_Image_4ojgst4ojgst4ojg.jpg", "Gemini_Generated_Image_4ojgst4ojgst4ojg.webp"])
  const Line5: Line := Line("Gemini_Generated_Image_7uq0647uq0647uq0", ["png", "jpg", "webp"], ["Gemini_Generated_Image_7uq0647uq0647uq0.png", "Gemini_Generated_Image_7uq0647uq0647uq0.jpg", "Gemini_Generated_Image_7uq0647uq0647uq0.webp"])
  const Line6: Line := Line("Gemini_Generated_Image_9buadr9buadr9bua", ["png", "jpg", "webp"], ["Gemini_Generated_Image_9buadr9buadr9bua.png", "Gemini_Generated_Image_9buadr9buadr9bua.jpg", "Gemini_Generated_Image_9buadr9buadr9bua.webp"])
  const Line7: Line := Line("Gemini_Generated_Image_g2altjg2altjg2al", ["png", "jpg", "webp"], ["Gemini_Generated_Image_g2altjg2altjg2al.png", "Gemini_Generated_Image_g2altjg2altjg2al.jpg", "Gemini_Generated_Image_g2altjg2altjg2al.webp"])
  const Line8: Line := Line("Gemini_Generated_Image_inoi3iinoi3iinoi", ["png", "jpg", "webp"], ["Gemini_Generated_Image_inoi3iinoi3iinoi.png", "Gemini_Generated_Image_inoi3iinoi3iinoi.jpg", "Gemini_Generated_Image_inoi3iinoi3iinoi.webp"])
  const Line9: Line := Line("Gemini_Generated_Image_zboah5zboah5zboa", ["png", "jpg", "webp"], ["Gemini_Generated_Image_zboah5zboah5zboa.png", "Gemini_Generated_Image_zboah5zboah5zboa.jpg", "Gemini_Generated_Image_zboah5zboah5zboa.webp"])
  const Line10: Line := Line("Swamp_Thing_Vol_5_25_Textless", ["jpg"], ["Swamp_Thing_Vol_5_25_Textless.jpg"])

  /** The compiled-in listing, one line of gallery.js:29-38 per `Line`. */
  const Listing: Lines := Cons(Line1, Cons(Line2, Cons(Line3, Cons(Line4, Cons(Line5, Cons(Line6, Cons(Line7, Cons(Line8, Cons(Line9, Cons(Line10, Nil))))))))))

  /** The catalog gallery.js:24-61 computes: one entry per stem, `png` where there is one. */
  const LocalCatalogEntries: seq<ImageEntry> := [
    ImageEntry("01.png", "01"),
    ImageEntry("03.png", "03"),
    ImageEntry("1701301154192.jpg", "1701301154192"),
    ImageEntry("Gemini_Generated_Image_4ojgst4ojgst4ojg.png", "Gemini_Generated_Image_4ojgst4ojgst4ojg"),
    ImageEntry("Gemini_Generated_Image_7uq0647uq0647uq0.png", "Gemini_Generated_Image_7uq0647uq0647uq0"),
    ImageEntry("Gemini_Generated_Image_9buadr9buadr9bua.png", "Gemini_Generated_Image_9buadr9buadr9bua"),
    ImageEntry("Gemini_Generated_Image_g2altjg2altjg2al.png", "Gemini_Generated_Image_g2altjg2altjg2al"),
    ImageEntry("Gemini_Generated_Image_inoi3iinoi3iinoi.png", "Gemini_Generated_Image_inoi3iinoi3iinoi"),
    ImageEntry("Gemini_Generated_Image_zboah5zboah5zboa.png", "Gemini_Generated_Image_zboah5zboah5zboa"),
    ImageEntry("Swamp_Thing_Vol_5_25_Textless.jpg", "Swamp_Thing_Vol_5_25_Textless")
  ]

  lemma Line1Spelled()
    ensures WellSpelled(Line1)
  {
    SpelledPngJpgWebp("01", "01.png", "01.jpg", "01.webp");
  }

  lemma Line2Spelled()
    ensures WellSpelled(Line2)
  {
    SpelledPngJpgWebp("03", "03.png", "03.jpg", "03.webp");
  }

  lemma Line3Spelled()
    ensures WellSpelled(Line3)
  {
    SpelledJpg("1701301154192", "1701301154192.jpg");
  }

  lemma Line4Spelled()
    ensures WellSpelled(Line4)
  {
    SpelledPngJpgWebp("Gemini_Generated_Image_4ojgst4ojgst4ojg", "Gemini_Generated_Image_4ojgst4ojgst4ojg.png", "Gemini_Generated_Image_4ojgst4ojgst4ojg.jpg", "Gemini_Generated_Image_4ojgst4ojgst4ojg.webp");
  }

  lemma Line5Spelled()
    ensures WellSpelled(Line5)
  {
    SpelledPngJpgWebp("Gemini_Generated_Image_7uq0647uq0647uq0", "Gemini_Generated_Image_7uq0647uq0647uq0.png", "Gemini_Generated_Image_7uq0647uq0647uq0.jpg", "Gemini_Generated_Image_7uq0647uq0647uq0.webp");
  }

  lemma Line6Spelled()
    ensures WellSpelled(Line6)
  {
    SpelledPngJpgWebp("Gemini_Generated_Image_9buadr9buadr9bua", "Gemini_Generated_Image_9buadr9buadr9bua.png", "Gemini_Generated_Image_9buadr9buadr9bua.jpg", "Gemini_Generated_Image_9buadr9buadr9bua.webp");
  }

  lemma Line7Spelled()
    ensures WellSpelled(Line7)
  {
    SpelledPngJpgWebp("Gemini_Generated_Image_g2altjg2altjg2al", "Gemini_Generated_Image_g2altjg2altjg2al.png", "Gemini_Generated_Image_g2altjg2altjg2al.jpg", "Gemini_Generated_Image_g2altjg2altjg2al.webp");
  }

  lemma Line8Spelled()
    ensures WellSpelled(Line8)
  {
    SpelledPngJpgWebp("Gemini_Generated_Image_inoi3iinoi3iinoi", "Gemini_Generated_Image_inoi3iinoi3iinoi.png", "Gemini_Generated_Image_inoi3iinoi3iinoi.jpg", "Gemini_Generated_Image_inoi3iinoi3iinoi.webp");
  }

  lemma Line9Spelled()
    ensures WellSpelled(Line9)
  {
    SpelledPngJpgWebp("Gemini_Generated_Image_zboah5zboah5zboa", "Gemini_Generated_Image_zboah5zboah5zboa.png", "Gemini_Generated_Image_zboah5zboah5zboa.jpg", "Gemini_Generated_Image_zboah5zboah5zboa.webp");
  }

  lemma Line10Spelled()
    ensures WellSpelled(Line10)
  {
    SpelledJpg("Swamp_Thing_Vol_5_25_Textless", "Swamp_Thing_Vol_5_25_Textless.jpg");
  }

  /** The lines spell the compiled-in listing. */
  lemma ListingNames()
    ensures ListedNames(Listing) == ImageFiles
  {
  }

  lemma ListingWellSpelled()
    ensures AllWellSpelled(Listing)
  {
    Line1Spelled(); Line2Spelled(); Line3Spelled(); Line4Spelled(); Line5Spelled();
    Line6Spelled(); Line7Spelled(); Line8Spelled(); Line9Spelled(); Line10Spelled();
  }

  lemma ListingDistinctStems()
    ensures DistinctStems(Listing)
  {
  }

  lemma ListingFirstSpellings()
    ensures AllShaped(Listing) && FirstSpellings(Listing) == LocalCatalogEntries
  {
  }

  /**
   * `getLocalImages()` returns exactly ten entries, one per stem of the
   * listing in listing order, each the `png` spelling where the stem has one
   * and the `jpg` spelling otherwise.
   */
  lemma GetLocalImagesValue()
    ensures GetLocalImages() == LocalCatalogEntries
    ensures |GetLocalImages()| == 10
  {
    ListingNames();
    ListingWellSpelled();
    ListingDistinctStems();
    ListingFirstSpellings();
    ListImagesByLines(Listing);
  }
}
