/**
 * The initial render of the gallery, `loadGalleryFromLocal` and
 * `createImageElement` in gallery.js: the grid is emptied and gets one tile
 * per catalog entry. Of a tile the model keeps what the rest of the script
 * reads back: the `src` attribute of its image, the title shown in its
 * overlay, and what its image does when it fails to load.
 */
module Render {
  import opened Text
  import opened Catalog

  /** The folder every tile's image is loaded from, as a `src` prefix. */
  const ImagesPrefix: string := "images/"

  /** What a tile's image does on a load error. */
  datatype ErrorHandling =
    | NoHandler           // tiles of the initial render set no `onerror`
    | ShowFirstLocal      // tiles added by "view more" switch to `images/01.png`

  datatype Tile = Tile(src: string, title: string, onError: ErrorHandling)

  /** The grid of tiles and whether the "view more" button is displayed. */
  datatype Page = Page(tiles: seq<Tile>, buttonVisible: bool)

  /** JavaScript's `a || b` on strings: the empty string is falsy. */
  function OrElse(a: string, b: string): (r: string)
    ensures a != "" ==> r == a
    ensures a == "" ==> r == b
  {
    if a != "" then a else b
  }

  /**
   * `createImageElement(image)`: the image loads `images/<name>` and the
   * overlay title is the base name, or when that is empty the text before
   * the name's first dot.
   */
  function CreateTile(image: ImageEntry): Tile
  {
    Tile(ImagesPrefix + image.name, OrElse(image.baseName, Split(image.name, '.')[0]), NoHandler)
  }

  /** One tile per entry, in catalog order. */
  function RenderTiles(images: seq<ImageEntry>): (tiles: seq<Tile>)
    ensures |tiles| == |images|
    ensures forall i :: 0 <= i < |images| ==> tiles[i] == CreateTile(images[i])
  {
    seq(|images|, i requires 0 <= i < |images| => CreateTile(images[i]))
  }

  /**
   * `loadGalleryFromLocal()` given the catalog: whatever the grid held is
   * replaced by the rendered catalog; the button is left as it was.
   */
  function LoadGallery(p: Page, catalog: seq<ImageEntry>): (r: Page)
    ensures |r.tiles| == |catalog|
    ensures forall i :: 0 <= i < |catalog| ==> r.tiles[i].src == ImagesPrefix + catalog[i].name
    ensures r.buttonVisible == p.buttonVisible
  {
    Page(RenderTiles(catalog), p.buttonVisible)
  }

  /** A tile of the initial render is titled with the entry's base name when that is not empty. */
  lemma CreateTileTitle(name: string)
    requires BaseName(name) != ""
    ensures CreateTile(ToEntry(name)).title == BaseName(name)
  {
  }

  /**
   * An entry whose base name is empty (the name is empty, or starts with
   * its only dot) falls through to the text before its first dot, and that
   * is empty too.
   */
  lemma CreateTileTitleEmptyBase(name: string)
    requires BaseName(name) == ""
    ensures CreateTile(ToEntry(name)).title == Split(name, '.')[0]
    ensures CreateTile(ToEntry(name)).title == ""
  {
    BaseNameDotExtension(name);
    if '.' in name {
      assert name == "" + "." + Extension(name);
      SplitFirstPart("", Extension(name), '.');
      assert "" + ['.'] + Extension(name) == name;
    } else {
      assert name == "";
    }
  }

  /**
   * Whatever the name, a tile of the initial render is titled with the
   * entry's base name: the `||` fallback only runs when the base name is
   * empty, and then gives the empty text as well.
   */
  lemma CreateTileTitleIsBaseName(name: string)
    ensures CreateTile(ToEntry(name)).title == BaseName(name)
  {
    if BaseName(name) == "" {
      CreateTileTitleEmptyBase(name);
    } else {
      CreateTileTitle(name);
    }
  }
}
