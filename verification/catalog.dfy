/**
 * The catalog provider, `getLocalImages` in gallery.js: a compiled-in list
 * of file names is filtered down to the supported image formats, each
 * survivor becomes an `ImageEntry {name, baseName}`, and entries whose
 * `baseName` was already seen are dropped, so that `01.png` and `01.jpg`
 * collapse to the first one listed.
 */
module Catalog {
  import opened Seqs
  import opened Text

  datatype ImageEntry = ImageEntry(name: string, baseName: string)

  /** The formats the gallery accepts, compared against the lower-cased extension. */
  const SupportedFormats: seq<string> := ["png", "jpg", "jpeg"]

  /**
   * The extension: the text after the last dot; a name without a dot is its
   * own extension.
   */
  function Extension(name: string): string
  {
    name[LastIndexOf(name, '.') + 1..]
  }

  /** The base name: the text before the last dot, or the whole name when it has no dot. */
  function BaseName(name: string): string
  {
    var k := LastIndexOf(name, '.');
    if k < 0 then name else name[..k]
  }

  /**
   * Base name, dot and extension spell the name again; the extension holds
   * no dot; a name without a dot is its own base name and extension.
   */
  lemma BaseNameDotExtension(name: string)
    ensures '.' !in Extension(name)
    ensures '.' in name ==> BaseName(name) + "." + Extension(name) == name
    ensures '.' !in name ==> BaseName(name) == name && Extension(name) == name
  {
    var k := LastIndexOf(name, '.');
    LastIndexOfSpec(name, '.');
    var ext := name[k + 1..];
    assert forall i :: 0 <= i < |ext| ==> ext[i] == name[k + 1 + i];
    if k >= 0 {
      assert name == name[..k] + "." + ext;
    } else {
      assert ext == name;
    }
  }

  /** `name.split('.').pop()`, as gallery.js:44 writes the extension. */
  function SplitPop(name: string): string
  {
    var parts := Split(name, '.');
    parts[|parts| - 1]
  }

  /**
   * `name.includes('.') ? name.split('.').slice(0, -1).join('.') : name`, as
   * gallery.js:49 writes the base name.
   */
  function SplitSliceJoin(name: string): string
  {
    if '.' in name then
      var parts := Split(name, '.');
      Join(parts[..|parts| - 1], '.')
    else name
  }

  /**
   * The split/pop/join formulations of gallery.js:44 and 49 cut the name at
   * its last dot, so they agree with `Extension` and `BaseName`.
   */
  lemma SplitFormsCutAtLastDot(name: string)
    ensures SplitPop(name) == Extension(name)
    ensures SplitSliceJoin(name) == BaseName(name)
  {
    var parts := Split(name, '.');
    var m := |parts|;
    SplitJoin(name, '.');
    SplitPartsClean(name, '.');
    SplitCount(name, '.');
    BaseNameDotExtension(name);
    if '.' in name {
      var b, e := Join(parts[..m - 1], '.'), parts[m - 1];
      assert Join(parts, '.') == b + "." + e;
      LastDotOfJoin(name, b, e);
      assert Extension(name) == e;
      assert BaseName(name) == b;
    } else {
      assert m == 1 && Join(parts, '.') == parts[0];
    }
  }

  lemma LastDotOfJoin(name: string, b: string, e: string)
    requires name == b + "." + e && '.' !in e
    ensures LastIndexOf(name, '.') == |b|
    ensures name[..|b|] == b && name[|b| + 1..] == e
  {
    assert name[..|b|] == b;
    assert name[|b| + 1..] == e;
    assert name[|b|] == '.';
    assert '.' in name;
    var k := LastIndexOf(name, '.');
    LastIndexOfSpec(name, '.');
    assert 0 <= k && name[k] == '.';
  }

  /** `supportedFormats.includes(extension)` of gallery.js:45. */
  predicate IsSupportedFormat(ext: string)
  {
    ext in SupportedFormats
  }

  /** The filter of gallery.js:43-46: the lower-cased extension is a supported format. */
  predicate IsSupported(name: string)
  {
    IsSupportedFormat(ToLower(Extension(name)))
  }

  /** The names of `files` that pass the format filter, in their original order. */
  function SupportedOnly(files: seq<string>): seq<string>
  {
    Filter(IsSupported, files)
  }

  /** The map of gallery.js:47-54. */
  function ToEntry(name: string): ImageEntry
  {
    ImageEntry(name, BaseName(name))
  }

  function Entries(names: seq<string>): (es: seq<ImageEntry>)
    ensures |es| == |names|
    ensures forall i :: 0 <= i < |names| ==> es[i] == ToEntry(names[i])
  {
    seq(|names|, i requires 0 <= i < |names| => ToEntry(names[i]))
  }

  function Names(es: seq<ImageEntry>): (ns: seq<string>)
    ensures |ns| == |es|
    ensures forall i :: 0 <= i < |es| ==> ns[i] == es[i].name
  {
    seq(|es|, i requires 0 <= i < |es| => es[i].name)
  }

  /** Taking names keeps the subsequence relation. */
  lemma {:induction false} NamesSubseq(a: seq<ImageEntry>, b: seq<ImageEntry>)
    requires IsSubseq(a, b)
    ensures IsSubseq(Names(a), Names(b))
    decreases |b|
  {
    if |a| > 0 {
      assert Names(a)[1..] == Names(a[1..]);
      assert Names(b)[1..] == Names(b[1..]);
      if a[0] == b[0] && IsSubseq(a[1..], b[1..]) {
        NamesSubseq(a[1..], b[1..]);
      } else {
        NamesSubseq(a, b[1..]);
      }
    }
  }

  /**
   * `self.findIndex(img => img.baseName === key)`: the first position whose
   * entry has base name `key`, or -1 when none has.
   */
  function FindIndex(xs: seq<ImageEntry>, key: string): (r: int)
    ensures -1 <= r < |xs|
    ensures r >= 0 ==> xs[r].baseName == key
    ensures forall j :: 0 <= j < |xs| && xs[j].baseName == key ==> 0 <= r <= j
  {
    FindIndexFrom(xs, key, 0)
  }

  /** The search of `FindIndex`, from position `from` on. */
  function FindIndexFrom(xs: seq<ImageEntry>, key: string, from: nat): (r: int)
    requires from <= |xs|
    ensures r == -1 || (from <= r < |xs| && xs[r].baseName == key)
    ensures forall j :: from <= j < |xs| && xs[j].baseName == key ==> from <= r <= j
    decreases |xs| - from
  {
    if from == |xs| then -1
    else if xs[from].baseName == key then from
    else FindIndexFrom(xs, key, from + 1)
  }

  ghost predicate UniqueBaseNames(es: seq<ImageEntry>)
  {
    forall i, j :: 0 <= i < j < |es| ==> es[i].baseName != es[j].baseName
  }

  /**
   * The filter of gallery.js:56-58 applied to the positions `i..` of `xs`:
   * an entry stays when its position is the first one holding its base name.
   */
  function KeepFirsts(xs: seq<ImageEntry>, i: nat): seq<ImageEntry>
    requires i <= |xs|
    decreases |xs| - i
  {
    if i == |xs| then []
    else (if FindIndex(xs, xs[i].baseName) == i then [xs[i]] else []) + KeepFirsts(xs, i + 1)
  }

  /** The step `KeepFirsts` takes at position `i`. */
  lemma KeepFirstsUnfold(xs: seq<ImageEntry>, i: nat)
    requires i < |xs|
    ensures KeepFirsts(xs, i)
         == (if FindIndex(xs, xs[i].baseName) == i then [xs[i]] else []) + KeepFirsts(xs, i + 1)
  {
  }

  /** Each entry `KeepFirsts(xs, i)` keeps is the first holder of its base name, at or after `i`. */
  lemma {:induction false} KeepFirstsSound(xs: seq<ImageEntry>, i: nat)
    requires i <= |xs|
    ensures var r := KeepFirsts(xs, i);
      forall p :: 0 <= p < |r| ==> i <= FindIndex(xs, r[p].baseName) && xs[FindIndex(xs, r[p].baseName)] == r[p]
    decreases |xs| - i
  {
    if i < |xs| {
      var rest := KeepFirsts(xs, i + 1);
      KeepFirstsSound(xs, i + 1);
      KeepFirstsUnfold(xs, i);
      var r := KeepFirsts(xs, i);
      if FindIndex(xs, xs[i].baseName) == i {
        assert forall p :: 0 < p < |r| ==> r[p] == rest[p - 1];
      }
    }
  }

  /**
   * `KeepFirsts(xs, i)` lists its entries in the order in which their base
   * names first appear in `xs`.
   */
  lemma {:induction false} KeepFirstsByFirstAppearance(xs: seq<ImageEntry>, i: nat)
    requires i <= |xs|
    ensures var r := KeepFirsts(xs, i);
      forall p, q :: 0 <= p < q < |r| ==> FindIndex(xs, r[p].baseName) < FindIndex(xs, r[q].baseName)
    decreases |xs| - i
  {
    if i < |xs| {
      KeepFirstsByFirstAppearance(xs, i + 1);
      KeepFirstsUnfold(xs, i);
      if FindIndex(xs, xs[i].baseName) == i {
        KeepFirstsConsOrdered(xs, i);
      }
    }
  }

  /** Putting the first holder at `i` before `KeepFirsts(xs, i + 1)` keeps first appearances increasing. */
  lemma KeepFirstsConsOrdered(xs: seq<ImageEntry>, i: nat)
    requires i < |xs| && FindIndex(xs, xs[i].baseName) == i
    requires var rest := KeepFirsts(xs, i + 1);
      forall p, q :: 0 <= p < q < |rest| ==> FindIndex(xs, rest[p].baseName) < FindIndex(xs, rest[q].baseName)
    ensures var r := [xs[i]] + KeepFirsts(xs, i + 1);
      forall p, q :: 0 <= p < q < |r| ==> FindIndex(xs, r[p].baseName) < FindIndex(xs, r[q].baseName)
  {
    var rest := KeepFirsts(xs, i + 1);
    var r := [xs[i]] + rest;
    KeepFirstsSound(xs, i + 1);
    forall p, q | 0 <= p < q < |r|
      ensures FindIndex(xs, r[p].baseName) < FindIndex(xs, r[q].baseName)
    {
      assert r[q] == rest[q - 1];
      assert 0 <= q - 1 < |KeepFirsts(xs, i + 1)|;
      assert i + 1 <= FindIndex(xs, KeepFirsts(xs, i + 1)[q - 1].baseName);
      if p > 0 {
        assert r[p] == rest[p - 1];
      }
    }
  }

  /** `KeepFirsts(xs, i)` keeps no base name twice. */
  lemma {:induction false} KeepFirstsUnique(xs: seq<ImageEntry>, i: nat)
    requires i <= |xs|
    ensures UniqueBaseNames(KeepFirsts(xs, i))
    decreases |xs| - i
  {
    if i < |xs| {
      var rest := KeepFirsts(xs, i + 1);
      KeepFirstsUnique(xs, i + 1);
      KeepFirstsSound(xs, i + 1);
      KeepFirstsUnfold(xs, i);
      var r := KeepFirsts(xs, i);
      if FindIndex(xs, xs[i].baseName) == i {
        assert forall p :: 0 < p < |r| ==> r[p] == rest[p - 1];
        assert forall p :: 0 <= p < |rest| ==> rest[p].baseName != xs[i].baseName;
      }
    }
  }

  /** Every base name whose first holder sits at or after `i` is kept by `KeepFirsts(xs, i)`. */
  lemma {:induction false} KeepFirstsComplete(xs: seq<ImageEntry>, i: nat)
    requires i <= |xs|
    ensures var r := KeepFirsts(xs, i);
      forall j :: i <= j < |xs| && i <= FindIndex(xs, xs[j].baseName) ==>
        exists p :: 0 <= p < |r| && r[p].baseName == xs[j].baseName
    decreases |xs| - i
  {
    if i < |xs| {
      var rest := KeepFirsts(xs, i + 1);
      KeepFirstsComplete(xs, i + 1);
      KeepFirstsUnfold(xs, i);
      var r := KeepFirsts(xs, i);
      forall j | i <= j < |xs| && i <= FindIndex(xs, xs[j].baseName)
        ensures exists p :: 0 <= p < |r| && r[p].baseName == xs[j].baseName
      {
        if FindIndex(xs, xs[j].baseName) == i {
          assert r[0].baseName == xs[j].baseName;
        } else {
          var p :| 0 <= p < |rest| && rest[p].baseName == xs[j].baseName;
          if FindIndex(xs, xs[i].baseName) == i {
            assert r[p + 1] == rest[p];
          } else {
            assert r[p] == rest[p];
          }
        }
      }
    }
  }

  /** `KeepFirsts(xs, i)` keeps the order of `xs[i..]`. */
  lemma {:induction false} KeepFirstsOrdered(xs: seq<ImageEntry>, i: nat)
    requires i <= |xs|
    ensures IsSubseq(KeepFirsts(xs, i), xs[i..])
    decreases |xs| - i
  {
    if i < |xs| {
      var rest := KeepFirsts(xs, i + 1);
      KeepFirstsOrdered(xs, i + 1);
      KeepFirstsUnfold(xs, i);
      var tail := xs[i..];
      assert tail[0] == xs[i] && tail[1..] == xs[i + 1..];
      if FindIndex(xs, xs[i].baseName) == i {
        var r := [xs[i]] + rest;
        assert r[0] == tail[0] && r[1..] == rest;
        assert IsSubseq(r, tail);
      } else {
        assert KeepFirsts(xs, i) == rest;
        assert IsSubseq(rest, tail);
      }
    }
  }

  /**
   * The whole de-duplication filter of gallery.js:56-58:
   * `self.findIndex(img => img.baseName === image.baseName) === index`.
   */
  function Dedupe(xs: seq<ImageEntry>): seq<ImageEntry>
  {
    KeepFirsts(xs, 0)
  }

  /** Every entry `Dedupe` keeps is the first holder of its base name in `xs`. */
  lemma DedupeKeepsFirstHolders(xs: seq<ImageEntry>)
    ensures var r := Dedupe(xs);
      forall p :: 0 <= p < |r| ==> 0 <= FindIndex(xs, r[p].baseName) && xs[FindIndex(xs, r[p].baseName)] == r[p]
  {
    assert Dedupe(xs) == KeepFirsts(xs, 0);
    KeepFirstsSound(xs, 0);
  }

  /** `Dedupe` lists its entries in the order in which their base names first appear in `xs`. */
  lemma DedupeByFirstAppearance(xs: seq<ImageEntry>)
    ensures var r := Dedupe(xs);
      forall p, q :: 0 <= p < q < |r| ==> FindIndex(xs, r[p].baseName) < FindIndex(xs, r[q].baseName)
  {
    assert Dedupe(xs) == KeepFirsts(xs, 0);
    KeepFirstsByFirstAppearance(xs, 0);
  }

  /** `Dedupe` keeps no base name twice. */
  lemma DedupeUnique(xs: seq<ImageEntry>)
    ensures UniqueBaseNames(Dedupe(xs))
  {
    KeepFirstsUnique(xs, 0);
  }

  /** Every base name of `xs` is kept by `Dedupe`. */
  lemma DedupeCovers(xs: seq<ImageEntry>)
    ensures var r := Dedupe(xs);
      forall j :: 0 <= j < |xs| ==> exists p :: 0 <= p < |r| && r[p].baseName == xs[j].baseName
  {
    assert Dedupe(xs) == KeepFirsts(xs, 0);
    KeepFirstsComplete(xs, 0);
  }

  /** `Dedupe` keeps the order of `xs`. */
  lemma DedupeOrdered(xs: seq<ImageEntry>)
    ensures IsSubseq(Dedupe(xs), xs)
  {
    KeepFirstsOrdered(xs, 0);
    assert xs[0..] == xs;
  }

  /** The base name and extension of a name written as stem, dot, extension. */
  lemma NameParts(stem: string, ext: string)
    requires '.' !in ext
    ensures BaseName(stem + "." + ext) == stem
    ensures Extension(stem + "." + ext) == ext
  {
    LastDotOfJoin(stem + "." + ext, stem, ext);
  }

  /** `FindIndex` over a concatenation whose halves share no base name. */
  lemma FindIndexAppend(a: seq<ImageEntry>, b: seq<ImageEntry>, key: string)
    ensures FindIndex(a, key) >= 0 ==> FindIndex(a + b, key) == FindIndex(a, key)
    ensures FindIndex(a, key) < 0 && FindIndex(b, key) >= 0 ==> FindIndex(a + b, key) == |a| + FindIndex(b, key)
  {
    var ab := a + b;
    var i := FindIndex(a, key);
    if i >= 0 {
      assert ab[i] == a[i];
    } else {
      var j := FindIndex(b, key);
      if j >= 0 {
        assert ab[|a| + j] == b[j];
        assert forall t :: 0 <= t < |a| ==> ab[t] == a[t];
        assert forall t :: 0 <= t < j ==> ab[|a| + t] == b[t];
      }
    }
  }

  ghost predicate DisjointBaseNames(a: seq<ImageEntry>, b: seq<ImageEntry>)
  {
    forall i, j :: 0 <= i < |a| && 0 <= j < |b| ==> a[i].baseName != b[j].baseName
  }

  lemma {:induction false} KeepFirstsSuffix(a: seq<ImageEntry>, b: seq<ImageEntry>, j: nat)
    requires j <= |b| && DisjointBaseNames(a, b)
    ensures KeepFirsts(a + b, |a| + j) == KeepFirsts(b, j)
    decreases |b| - j
  {
    var ab := a + b;
    var k := |a| + j;
    if j < |b| {
      var key := b[j].baseName;
      assert ab[k] == b[j];
      assert FindIndex(a, key) < 0;
      assert 0 <= FindIndex(b, key) <= j;
      FindIndexAppend(a, b, key);
      assert FindIndex(ab, key) == |a| + FindIndex(b, key);
      var head := if FindIndex(b, key) == j then [b[j]] else [];
      assert (FindIndex(ab, ab[k].baseName) == k) == (FindIndex(b, b[j].baseName) == j);
      KeepFirstsUnfold(ab, k);
      KeepFirstsUnfold(b, j);
      KeepFirstsSuffix(a, b, j + 1);
      assert |a| + (j + 1) == k + 1;
      assert KeepFirsts(a + b, |a| + (j + 1)) == KeepFirsts(b, j + 1);
      assert KeepFirsts(ab, k) == head + KeepFirsts(ab, k + 1);
      assert KeepFirsts(b, j) == head + KeepFirsts(b, j + 1);
    } else {
      assert k == |ab|;
    }
  }

  lemma {:induction false} KeepFirstsPrefix(a: seq<ImageEntry>, b: seq<ImageEntry>, i: nat)
    requires i <= |a| && DisjointBaseNames(a, b)
    ensures KeepFirsts(a + b, i) == KeepFirsts(a, i) + KeepFirsts(b, 0)
    decreases |a| - i
  {
    if i == |a| {
      KeepFirstsSuffix(a, b, 0);
      assert KeepFirsts(a, i) == [];
    } else {
      var head := if FindIndex(a, a[i].baseName) == i then [a[i]] else [];
      KeepFirstsPrefixStep(a, b, i);
      KeepFirstsUnfold(a, i);
      KeepFirstsPrefix(a, b, i + 1);
      var x, y := KeepFirsts(a, i + 1), KeepFirsts(b, 0);
      assert head + (x + y) == (head + x) + y;
    }
  }

  /** At a position of `a`, `KeepFirsts` over `a + b` takes the step it takes over `a`. */
  lemma KeepFirstsPrefixStep(a: seq<ImageEntry>, b: seq<ImageEntry>, i: nat)
    requires i < |a|
    ensures KeepFirsts(a + b, i)
         == (if FindIndex(a, a[i].baseName) == i then [a[i]] else []) + KeepFirsts(a + b, i + 1)
  {
    var ab := a + b;
    var key := a[i].baseName;
    assert ab[i] == a[i];
    assert 0 <= FindIndex(a, key) <= i;
    FindIndexAppend(a, b, key);
    KeepFirstsUnfold(ab, i);
  }

  /** De-duplicating two lists that share no base name handles them apart. */
  lemma DedupeAppend(a: seq<ImageEntry>, b: seq<ImageEntry>)
    requires DisjointBaseNames(a, b)
    ensures Dedupe(a + b) == Dedupe(a) + Dedupe(b)
  {
    KeepFirstsPrefix(a, b, 0);
  }

  /**
   * The catalog of two listings whose names share no base name is the
   * catalog of the first followed by the catalog of the second.
   */
  lemma ListImagesAppend(a: seq<string>, b: seq<string>)
    requires forall i, j :: 0 <= i < |a| && 0 <= j < |b| ==> BaseName(a[i]) != BaseName(b[j])
    ensures ListImages(a + b) == ListImages(a) + ListImages(b)
  {
    var fa, fb := SupportedOnly(a), SupportedOnly(b);
    FilterAppend(IsSupported, a, b);
    EntriesAppend(fa, fb);
    SupportedEntriesDisjoint(a, b);
    DedupeAppend(Entries(fa), Entries(fb));
  }

  lemma EntriesAppend(a: seq<string>, b: seq<string>)
    ensures Entries(a + b) == Entries(a) + Entries(b)
  {
    assert forall i :: 0 <= i < |a| ==> (a + b)[i] == a[i];
    assert forall i :: |a| <= i < |a| + |b| ==> (a + b)[i] == b[i - |a|];
  }

  /** Listings whose base names are apart give supported entries whose base names are apart. */
  lemma SupportedEntriesDisjoint(a: seq<string>, b: seq<string>)
    requires forall i, j :: 0 <= i < |a| && 0 <= j < |b| ==> BaseName(a[i]) != BaseName(b[j])
    ensures DisjointBaseNames(Entries(SupportedOnly(a)), Entries(SupportedOnly(b)))
  {
    var fa, fb := SupportedOnly(a), SupportedOnly(b);
    var ea, eb := Entries(fa), Entries(fb);
    FilterMembers(IsSupported, a);
    FilterMembers(IsSupported, b);
    forall i, j | 0 <= i < |ea| && 0 <= j < |eb|
      ensures ea[i].baseName != eb[j].baseName
    {
      assert fa[i] in fa && fb[j] in fb;
      assert fa[i] in a && fb[j] in b;
    }
  }

  /** `getLocalImages` over an arbitrary list of file names: the pipeline of gallery.js:42-58. */
  function ListImages(files: seq<string>): seq<ImageEntry>
  {
    Dedupe(Entries(SupportedOnly(files)))
  }

  /** Every catalog entry is a supported name of the input, paired with its own base name. */
  lemma ListImagesKeepsSupported(files: seq<string>)
    ensures forall e :: e in ListImages(files) ==>
              e.name in files && IsSupported(e.name) && e.baseName == BaseName(e.name)
  {
    var supported := SupportedOnly(files);
    var es := Entries(supported);
    var r := ListImages(files);
    DedupeKeepsFirstHolders(es);
    FilterMembers(IsSupported, files);
    forall e | e in r
      ensures e.name in files && IsSupported(e.name) && e.baseName == BaseName(e.name)
    {
      var q :| 0 <= q < |r| && r[q] == e;
      var p := FindIndex(es, e.baseName);
      assert e == es[p] == ToEntry(supported[p]);
      assert supported[p] in supported;
    }
  }

  /**
   * Every catalog entry has a supported extension, so none is a `webp`,
   * and its base name and extension spell its name again.
   */
  lemma ListImagesEntryShape(files: seq<string>)
    ensures forall e :: e in ListImages(files) ==>
              && ToLower(Extension(e.name)) in SupportedFormats
              && ToLower(Extension(e.name)) != "webp"
              && ('.' in e.name ==> e.baseName + "." + Extension(e.name) == e.name)
              && ('.' !in e.name ==> e.baseName == e.name)
  {
    ListImagesKeepsSupported(files);
    assert "webp" !in SupportedFormats by {
      assert "webp" != "png" && "webp" != "jpg" && "webp"[1] != "jpeg"[1];
    }
    forall e | e in ListImages(files)
      ensures '.' in e.name ==> e.baseName + "." + Extension(e.name) == e.name
      ensures '.' !in e.name ==> e.baseName == e.name
    {
      BaseNameDotExtension(e.name);
    }
  }

  /** No two catalog entries share a base name. */
  lemma ListImagesUniqueBaseNames(files: seq<string>)
    ensures UniqueBaseNames(ListImages(files))
  {
    DedupeUnique(Entries(SupportedOnly(files)));
  }

  /** Every supported input name has its base name represented in the catalog. */
  lemma ListImagesCoversSupported(files: seq<string>)
    ensures forall n :: n in files && IsSupported(n) ==>
              exists e :: e in ListImages(files) && e.baseName == BaseName(n)
  {
    var supported := SupportedOnly(files);
    var es := Entries(supported);
    var r := ListImages(files);
    DedupeCovers(es);
    FilterMembers(IsSupported, files);
    forall n | n in files && IsSupported(n)
      ensures exists e :: e in r && e.baseName == BaseName(n)
    {
      var j :| 0 <= j < |supported| && supported[j] == n;
      assert es[j].baseName == BaseName(n);
      var p :| 0 <= p < |r| && r[p].baseName == es[j].baseName;
      assert r[p] in r;
    }
  }

  /**
   * The entry kept for a base name is its FIRST supported holder: any
   * supported input with the same base name sits at or after it.
   */
  lemma ListImagesKeepsFirstHolder(files: seq<string>)
    ensures forall e, k :: e in ListImages(files) && 0 <= k < |files| && IsSupported(files[k]) && BaseName(files[k]) == e.baseName
              ==> e.name in files[..k + 1]
  {
    var es := Entries(SupportedOnly(files));
    var r := ListImages(files);
    DedupeKeepsFirstHolders(es);
    forall e, k | e in r && 0 <= k < |files| && IsSupported(files[k]) && BaseName(files[k]) == e.baseName
      ensures e.name in files[..k + 1]
    {
      var q :| 0 <= q < |r| && r[q] == e;
      FirstHolderIsEarlier(files, k);
    }
  }

  /**
   * The catalog lists its entries in the order in which their base names
   * first appear among the supported names of the input, even when a name
   * repeats there.
   */
  lemma ListImagesByFirstAppearance(files: seq<string>)
    ensures var es := Entries(SupportedOnly(files));
      var r := ListImages(files);
      forall p, q :: 0 <= p < q < |r| ==> FindIndex(es, r[p].baseName) < FindIndex(es, r[q].baseName)
  {
    DedupeByFirstAppearance(Entries(SupportedOnly(files)));
  }

  /** The catalog lists its names in the order of the input. */
  lemma ListImagesKeepsOrder(files: seq<string>)
    ensures IsSubseq(Names(ListImages(files)), files)
  {
    var supported := SupportedOnly(files);
    var es := Entries(supported);
    var r := Dedupe(es);
    DedupeOrdered(es);
    NamesSubseq(r, es);
    assert Names(es) == supported;
    FilterSubseq(IsSupported, files);
    SubseqTrans(Names(r), supported, files);
  }

  /**
   * For a supported `files[k]`, the first supported holder of its base name
   * sits at or before `k`.
   */
  lemma FirstHolderIsEarlier(files: seq<string>, k: int)
    requires 0 <= k < |files| && IsSupported(files[k])
    ensures var es := Entries(SupportedOnly(files));
      var p := FindIndex(es, BaseName(files[k]));
      0 <= p && es[p].name in files[..k + 1]
  {
    var supported := SupportedOnly(files);
    assert supported == Filter(IsSupported, files);
    var es := Entries(supported);
    FilterPrefixEndsAt(IsSupported, files, k);
    var m := |Filter(IsSupported, files[..k + 1])|;
    assert es[m - 1].baseName == BaseName(files[k]);
    var p := FindIndex(es, BaseName(files[k]));
    assert 0 <= p < m;
    assert es[p].name == supported[p];
  }
}
