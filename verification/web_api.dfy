/** The older gallery variant: the project root is the process's working
    directory, and names sort under the 'en' locale. Apart from those two
    inputs it builds the gallery exactly as the module-relative variant does. */
module WebApi {
  import opened Ordering
  import opened Site
  import opened Scanner
  import Gallery

  /** A category's gallery from the directory under the working directory. */
  function BuildWorkItems(env: Environment, category: Category): (r: seq<GalleryItem>)
    ensures category.Segment() !in env.cwdImages ==> r == []
    ensures category.Segment() in env.cwdImages ==> |r| == |ImageFiles(env.cwdImages[category.Segment()])|
    ensures forall i | 0 <= i < |r| :: r[i].description == "" && r[i].thumbnailUrl == r[i].imageUrl
  {
    Scanner.BuildWorkItems(Listing(env.cwdImages, category), category.Segment(), env.englishCollation)
  }

  /** An existing directory's gallery shows its image files in 'en'-locale
      order, each under its own URL and with the title derived from its name. */
  lemma ItemsOfDirectory(env: Environment, category: Category)
    requires category.Segment() in env.cwdImages
    ensures var r, files := BuildWorkItems(env, category), SortedImageFiles(env.cwdImages[category.Segment()], env.englishCollation);
      && |r| == |files|
      && forall i | 0 <= i < |r| ::
           && r[i].imageUrl == "/images/" + category.Segment() + "/" + files[i]
           && r[i].title == Title.TitleFromFilename(files[i])
  {
    BuiltItems(Listing(env.cwdImages, category), category.Segment(), env.englishCollation);
  }

  function FetchWork(env: Environment): (r: WorkResult)
    ensures r.work == BuildWorkItems(env, Arbeit)
  {
    WorkResult(BuildWorkItems(env, Arbeit))
  }

  function FetchTadelakt(env: Environment): (r: WorkResult)
    ensures r.work == BuildWorkItems(env, Tadelakt)
  {
    WorkResult(BuildWorkItems(env, Tadelakt))
  }

  function FetchLehmputz(env: Environment): (r: WorkResult)
    ensures r.work == BuildWorkItems(env, Lehmputz)
  {
    WorkResult(BuildWorkItems(env, Lehmputz))
  }

  function FetchHerstellungUndRestaurierung(env: Environment): (r: WorkResult)
    ensures r.work == BuildWorkItems(env, HerstellungUndRestaurierung)
  {
    WorkResult(BuildWorkItems(env, HerstellungUndRestaurierung))
  }

  /** The two variants differ only in the directory they read and the locale
      they sort with: when both roots hold the same listing for a category and
      the two collations agree, they build the same gallery. */
  lemma VariantsAgree(env: Environment, category: Category)
    requires Listing(env.moduleRootImages, category) == Listing(env.cwdImages, category)
    requires forall a, b :: env.defaultCollation(a, b) == env.englishCollation(a, b)
    ensures Gallery.GetWork(env, category) == BuildWorkItems(env, category)
  {
    var listing := Listing(env.cwdImages, category);
    if listing.Some? {
      SortAgrees(env.defaultCollation, env.englishCollation, ImageFiles(listing.value));
    }
  }

  /** The accessors of the two variants agree under the same conditions. */
  lemma AccessorsAgree(env: Environment)
    requires env.moduleRootImages == env.cwdImages
    requires forall a, b :: env.defaultCollation(a, b) == env.englishCollation(a, b)
    ensures Gallery.FetchWork(env) == FetchWork(env)
    ensures Gallery.FetchTadelakt(env) == FetchTadelakt(env)
    ensures Gallery.FetchLehmputz(env) == FetchLehmputz(env)
    ensures Gallery.FetchHerstellungUndRestaurierung(env) == FetchHerstellungUndRestaurierung(env)
  {
    VariantsAgree(env, Arbeit);
    VariantsAgree(env, Tadelakt);
    VariantsAgree(env, Lehmputz);
    VariantsAgree(env, HerstellungUndRestaurierung);
  }
}
