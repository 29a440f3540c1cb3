/** The gallery builder shared by both source variants: filter a category's
    directory listing to image files, sort the names, and turn each into a
    gallery item. The listing and the comparator are inputs. */
module Scanner {
  import opened Wrappers
  import opened Text
  import opened PathExt
  import opened Title
  import opened Ordering

  /** The extensions, lower case and with their dot, that mark an image. */
  const ImageExtensions: set<string> := {".jpg", ".jpeg", ".png", ".webp", ".gif"}

  /** One displayable photo. */
  datatype GalleryItem = GalleryItem(
    title: string,
    description: string,
    imageUrl: string,
    thumbnailUrl: string)

  /** Every image extension is a possible result of `path.extname` (a '.'
      and a tail free of '.' and '/') and is already lower case, so each one
      can be matched. */
  lemma ImageExtensionsWellFormed()
    ensures forall e | e in ImageExtensions ::
      && |e| >= 4 && e[0] == '.' && '.' !in e[1..] && '/' !in e
      && AsciiLower(e) == e
  {
    forall e | e in ImageExtensions
      ensures |e| >= 4 && e[0] == '.' && '.' !in e[1..] && '/' !in e && AsciiLower(e) == e
    {
      assert IsLowerExtension(e) by {
        assert IsLowerExtension(".jpg") && IsLowerExtension(".jpeg") && IsLowerExtension(".png");
        assert IsLowerExtension(".webp") && IsLowerExtension(".gif");
      }
      LowerExtensionShape(e);
    }
  }

  /** A '.' followed by lower-case ASCII letters. */
  predicate IsLowerExtension(e: string) {
    |e| >= 4 && e[0] == '.' && forall i | 1 <= i < |e| :: 'a' <= e[i] <= 'z'
  }

  lemma LowerExtensionShape(e: string)
    requires IsLowerExtension(e)
    ensures '.' !in e[1..] && '/' !in e && AsciiLower(e) == e
  {
    assert forall i | 0 <= i < |e| :: e[i] == '.' || 'a' <= e[i] <= 'z';
    assert forall c | c in e[1..] :: 'a' <= c <= 'z';
  }

  /** The record the per-category accessors return. */
  datatype WorkResult = WorkResult(work: seq<GalleryItem>)

  /** A directory entry counts as an image when its extension, lower-cased,
      is one of the image extensions. */
  predicate IsImageFile(name: string)
    ensures IsImageFile(name) ==> |ExtName(name)| >= 4 && ExtName(name)[0] == '.'
  {
    ImageExtensionsWellFormed();
    AsciiLower(ExtName(name)) in ImageExtensions
  }

  /** The listing's image files, in listing order. */
  function ImageFiles(names: seq<string>): (r: seq<string>)
    ensures |r| <= |names|
    decreases |names|
  {
    if names == [] then []
    else (if IsImageFile(names[0]) then [names[0]] else []) + ImageFiles(names[1..])
  }

  /** The image files in the order the gallery shows them: as many as the
      listing has, in comparator order when the comparator is consistent. */
  function SortedImageFiles(names: seq<string>, cmp: Comparator): (r: seq<string>)
    ensures |r| == |ImageFiles(names)|
    ensures Consistent(cmp) ==> SortedBy(cmp, r)
  {
    Sort(cmp, ImageFiles(names))
  }

  /** The root-relative public URL of a file in a category's directory. */
  function ImageUrl(category: string, file: string): (r: string)
    ensures |r| == 9 + |category| + |file|
    ensures r[..8] == "/images/" && r[8..8 + |category|] == category && r[8 + |category|] == '/'
    ensures r[|r| - |file|..] == file
  {
    "/images/" + category + "/" + file
  }

  /** The file a URL of the category names, if the URL is one of its URLs. */
  function FileOfUrl(category: string, url: string): (r: Option<string>)
  {
    var prefix := "/images/" + category + "/";
    if prefix <= url then Some(url[|prefix|..]) else None
  }

  /** The item for one file of the category: the derived title, an empty
      description, and the file's URL as both image and thumbnail. */
  function ItemFor(category: string, file: string): (r: GalleryItem)
    ensures r.imageUrl == "/images/" + category + "/" + file
    ensures r.title == TitleFromFilename(file)
    ensures r.thumbnailUrl == r.imageUrl && r.description == ""
  {
    GalleryItem(TitleFromFilename(file), "", ImageUrl(category, file), ImageUrl(category, file))
  }

  /** Each element of s through f, in order (Array.prototype.map). */
  function MapSeq<A, B>(f: A -> B, s: seq<A>): (r: seq<B>)
    ensures |r| == |s|
    ensures forall i | 0 <= i < |s| :: r[i] == f(s[i])
    decreases |s|
  {
    if s == [] then [] else [f(s[0])] + MapSeq(f, s[1..])
  }

  /** The items for the files of the category, in the files' order. */
  function ItemsFor(category: string, files: seq<string>): (r: seq<GalleryItem>)
    ensures |r| == |files|
    ensures forall i | 0 <= i < |r| :: r[i] == ItemFor(category, files[i])
  {
    MapSeq(file => ItemFor(category, file), files)
  }

  /** The gallery of one category from its directory listing (None when the
      directory does not exist) and the sorting comparator: one item per image
      file, each showing its file as both image and thumbnail. */
  function BuildWorkItems(listing: Option<seq<string>>, category: string, cmp: Comparator): (r: seq<GalleryItem>)
    ensures listing.None? ==> r == []
    ensures listing.Some? ==> |r| == |ImageFiles(listing.value)|
    ensures forall i | 0 <= i < |r| :: r[i].description == "" && r[i].thumbnailUrl == r[i].imageUrl
  {
    match listing
    case None => []
    case Some(names) => ItemsFor(category, SortedImageFiles(names, cmp))
  }

  // ---------------------------------------------------------------------------
  // Properties.

  /** The URL carries the category and the file verbatim: stripping the
      category's prefix gives the file back, so different files of one category
      never share a URL. */
  lemma UrlEmbedsFile(category: string, file: string)
    ensures FileOfUrl(category, ImageUrl(category, file)) == Some(file)
    ensures "/images/" + category + "/" <= ImageUrl(category, file)
  {
    var prefix := "/images/" + category + "/";
    assert ImageUrl(category, file) == prefix + file;
    assert (prefix + file)[|prefix|..] == file;
  }

  /** Item i of a built gallery shows the i-th file of the sorted image
      files: its URL is the file's URL under the category, leading back to
      the file, and its title is derived from the file's name. */
  lemma BuiltItems(listing: Option<seq<string>>, category: string, cmp: Comparator)
    requires listing.Some?
    ensures var r, files := BuildWorkItems(listing, category, cmp), SortedImageFiles(listing.value, cmp);
      && |r| == |files|
      && forall i | 0 <= i < |r| ::
           && r[i].imageUrl == "/images/" + category + "/" + files[i]
           && FileOfUrl(category, r[i].imageUrl) == Some(files[i])
           && r[i].title == TitleFromFilename(files[i])
  {
    var r, files := BuildWorkItems(listing, category, cmp), SortedImageFiles(listing.value, cmp);
    forall i | 0 <= i < |r|
      ensures r[i].imageUrl == "/images/" + category + "/" + files[i]
      ensures FileOfUrl(category, r[i].imageUrl) == Some(files[i])
      ensures r[i].title == TitleFromFilename(files[i])
    {
      assert r[i] == ItemFor(category, files[i]);
      UrlEmbedsFile(category, files[i]);
    }
  }

  /** Every title of a built gallery is in normal form. */
  lemma BuiltTitlesNormal(listing: Option<seq<string>>, category: string, cmp: Comparator)
    ensures forall i | 0 <= i < |BuildWorkItems(listing, category, cmp)| ::
      IsNormalTitle(BuildWorkItems(listing, category, cmp)[i].title)
  {
    var r := BuildWorkItems(listing, category, cmp);
    if listing.Some? {
      BuiltItems(listing, category, cmp);
    }
  }

  lemma UrlInjective(category: string, f1: string, f2: string)
    requires ImageUrl(category, f1) == ImageUrl(category, f2)
    ensures f1 == f2
  {
    UrlEmbedsFile(category, f1);
    UrlEmbedsFile(category, f2);
  }

  /** The filter keeps exactly the listed names that are image files, each
      as often as it is listed. */
  lemma {:induction false} ImageFilesSelects(names: seq<string>)
    ensures forall x :: x in ImageFiles(names) <==> x in names && IsImageFile(x)
    ensures forall x :: multiset(ImageFiles(names))[x] == if IsImageFile(x) then multiset(names)[x] else 0
    decreases |names|
  {
    if names != [] {
      ImageFilesSelects(names[1..]);
      assert names == [names[0]] + names[1..];
    }
  }

  /** One name is kept exactly when it is an image file. */
  lemma ImageFilesSingle(x: string)
    ensures ImageFiles([x]) == if IsImageFile(x) then [x] else []
  {
    assert [x][1..] == [];
  }

  /** The filter works name by name and keeps the listing's order: filtering
      two listings one after the other is filtering their concatenation. */
  lemma {:induction false} ImageFilesConcat(a: seq<string>, b: seq<string>)
    ensures ImageFiles(a + b) == ImageFiles(a) + ImageFiles(b)
    decreases |a|
  {
    if a == [] {
      assert a + b == b;
    } else {
      ImageFilesConcat(a[1..], b);
      ImageFilesFirst(a);
      ImageFilesFirstOfConcat(a, b);
      ListsAssociative(ImageFiles([a[0]]), ImageFiles(a[1..]), ImageFiles(b));
    }
  }

  lemma ImageFilesFirstOfConcat(a: seq<string>, b: seq<string>)
    requires a != []
    ensures ImageFiles(a + b) == ImageFiles([a[0]]) + ImageFiles(a[1..] + b)
  {
    assert (a + b)[0] == a[0];
    assert (a + b)[1..] == a[1..] + b;
    ImageFilesSplit(a + b, a[0], a[1..] + b);
  }

  lemma ImageFilesSplit(names: seq<string>, x: string, rest: seq<string>)
    requires names != [] && names[0] == x && names[1..] == rest
    ensures ImageFiles(names) == ImageFiles([x]) + ImageFiles(rest)
  {
    ImageFilesFirst(names);
  }

  lemma ListsAssociative<T>(x: seq<T>, y: seq<T>, z: seq<T>)
    ensures x + (y + z) == (x + y) + z
  {
  }

  lemma ImageFilesFirst(names: seq<string>)
    requires names != []
    ensures ImageFiles(names) == ImageFiles([names[0]]) + ImageFiles(names[1..])
  {
    ImageFilesSingle(names[0]);
  }

  /** The gallery's files are a rearrangement of exactly the listing's image
      files, each as often as it is listed. */
  lemma SortedImageFilesPermutes(names: seq<string>, cmp: Comparator)
    ensures forall x :: multiset(SortedImageFiles(names, cmp))[x] == if IsImageFile(x) then multiset(names)[x] else 0
    ensures forall x :: x in SortedImageFiles(names, cmp) <==> x in names && IsImageFile(x)
  {
    ImageFilesSelects(names);
    var files := SortedImageFiles(names, cmp);
    assert multiset(files) == multiset(ImageFiles(names));
    forall x
      ensures x in files <==> x in names && IsImageFile(x)
    {
      assert x in files <==> x in multiset(files);
      assert x in ImageFiles(names) <==> x in multiset(ImageFiles(names));
    }
  }

  /** For an entry name (no '/'), the filter admits exactly the names with a
      '.' past the first character, no '.' after it, and a suffix from that
      '.' that lower-cases to an image extension. */
  lemma ImageFileIff(name: string)
    requires '/' !in name
    ensures IsImageFile(name) <==>
      exists i :: 0 < i < |name| && name[i] == '.' && '.' !in name[i + 1..] && AsciiLower(name[i..]) in ImageExtensions
  {
    ExtNameOfEntry(name);
    if name == ".." {
      assert AsciiLower(".") !in ImageExtensions;
      assert AsciiLower(name[1..]) == ".";
    }
    assert AsciiLower("") !in ImageExtensions;
  }

  /** The gallery is a stable sort of the listing's image files: files that
      the comparator ranks level keep their listing order. With the previous
      contracts this pins the output down completely. */
  lemma SortedImageFilesStable(names: seq<string>, cmp: Comparator, e: string)
    requires Consistent(cmp)
    ensures Peers(cmp, SortedImageFiles(names, cmp), e) == Peers(cmp, ImageFiles(names), e)
  {
    SortIsStable(cmp, ImageFiles(names), e);
  }

  /** Two image files are shown in collation order whichever order the
      directory lists them in. */
  lemma TwoFilesInCollationOrder(a: string, b: string, cmp: Comparator)
    requires Consistent(cmp) && cmp(a, b) < 0
    requires IsImageFile(a) && IsImageFile(b)
    ensures SortedImageFiles([a, b], cmp) == [a, b]
    ensures SortedImageFiles([b, a], cmp) == [a, b]
  {
    assert SortedImageFiles([a, b], cmp) == Insert(cmp, b, [a]) by {
      ImageFilesOfTwo(a, b);
      SortOfTwo(cmp, a, b);
    }
    assert SortedImageFiles([b, a], cmp) == Insert(cmp, a, [b]) by {
      ImageFilesOfTwo(b, a);
      SortOfTwo(cmp, b, a);
    }
    assert Insert(cmp, b, [a]) == [a, b] by {
      assert cmp(b, a) > 0;
      InsertIntoOne(cmp, b, a);
    }
    InsertIntoOne(cmp, a, b);
  }

  lemma InsertIntoOne(cmp: Comparator, x: string, y: string)
    ensures Insert(cmp, x, [y]) == if cmp(x, y) < 0 then [x, y] else [y, x]
  {
    assert [y][1..] == [];
  }

  lemma ImageFilesOfTwo(x: string, y: string)
    requires IsImageFile(x) && IsImageFile(y)
    ensures ImageFiles([x, y]) == [x, y]
  {
    assert [x, y][1..] == [y];
    assert ImageFiles([y]) == [y];
  }

  lemma SortOfTwo(cmp: Comparator, x: string, y: string)
    ensures Sort(cmp, [x, y]) == Insert(cmp, y, [x])
  {
    assert [x, y][..1] == [x];
    assert Sort(cmp, [x]) == [x];
  }

  /** A name with a non-empty stem is an image exactly when its last
      extension, lower-cased, is an image extension; what the stem holds,
      dots included, does not matter. */
  lemma ImageFileByLastExtension(stem: string, ext: string)
    requires stem != [] && '/' !in stem
    requires ext != [] && ext[0] == '.' && '.' !in ext[1..] && '/' !in ext
    ensures IsImageFile(stem + ext) <==> AsciiLower(ext) in ImageExtensions
  {
    var name := stem + ext;
    assert '/' !in name by {
      forall k | 0 <= k < |name| ensures name[k] != '/' {
        if k < |stem| { assert name[k] == stem[k]; } else { assert name[k] == ext[k - |stem|]; }
      }
    }
    ImageFileIff(name);
    assert name[|stem|..] == ext;
    assert name[|stem| + 1..] == ext[1..];
  }

  /** A dotfile with no further dot has no extension, so it is never an
      image, whatever follows its dot. */
  lemma DotfileIsNotImage(rest: string)
    requires '.' !in rest && '/' !in rest
    ensures !IsImageFile("." + rest)
  {
    var name := "." + rest;
    assert '/' !in name;
    ImageFileIff(name);
    forall i | 0 < i < |name| ensures name[i] != '.' {
      assert name[i] == rest[i - 1];
    }
  }
}
