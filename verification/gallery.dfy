/** The module-relative gallery: the project root is found from the module's
    own location, and names sort under the default locale. */
module Gallery {
  import opened Site
  import opened Scanner

  /** A category's gallery from the directory under the project root. */
  function BuildWorkItems(env: Environment, category: Category): (r: seq<GalleryItem>)
    ensures category.Segment() !in env.moduleRootImages ==> r == []
    ensures category.Segment() in env.moduleRootImages ==> |r| == |ImageFiles(env.moduleRootImages[category.Segment()])|
    ensures forall i | 0 <= i < |r| :: r[i].description == "" && r[i].thumbnailUrl == r[i].imageUrl
  {
    Scanner.BuildWorkItems(Listing(env.moduleRootImages, category), category.Segment(), env.defaultCollation)
  }

  function GetWork(env: Environment, category: Category): (r: seq<GalleryItem>)
    ensures r == BuildWorkItems(env, category)
  {
    BuildWorkItems(env, category)
  }

  /** An existing directory's gallery shows its image files in default-locale
      order, each under its own URL and with the title derived from its name. */
  lemma ItemsOfDirectory(env: Environment, category: Category)
    requires category.Segment() in env.moduleRootImages
    ensures var r, files := GetWork(env, category), SortedImageFiles(env.moduleRootImages[category.Segment()], env.defaultCollation);
      && |r| == |files|
      && forall i | 0 <= i < |r| ::
           && r[i].imageUrl == "/images/" + category.Segment() + "/" + files[i]
           && r[i].title == Title.TitleFromFilename(files[i])
  {
    BuiltItems(Listing(env.moduleRootImages, category), category.Segment(), env.defaultCollation);
  }

  function FetchWork(env: Environment): (r: WorkResult)
    ensures r.work == BuildWorkItems(env, Arbeit)
  {
    WorkResult(BuildWorkItems(env, Arbeit))
  }

  function FetchTadelakt(env: Environment): (r: WorkResult)
    ensures r.work == BuildWorkItems(env, Tadelakt)
  {
    WorkResult(BuildWorkItems(env, Tadelakt))
  }

  function FetchLehmputz(env: Environment): (r: WorkResult)
    ensures r.work == BuildWorkItems(env, Lehmputz)
  {
    WorkResult(BuildWorkItems(env, Lehmputz))
  }

  function FetchHerstellungUndRestaurierung(env: Environment): (r: WorkResult)
    ensures r.work == BuildWorkItems(env, HerstellungUndRestaurierung)
  {
    WorkResult(BuildWorkItems(env, HerstellungUndRestaurierung))
  }
}
