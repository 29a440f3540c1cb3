/** The gallery's categories and what it reads from its surroundings: the
    image directories under the two possible roots, and the collation of the
    two locales the variants sort with. */
module Site {
  import opened Wrappers
  import opened Ordering

  /** The four gallery categories. */
  datatype Category = Arbeit | Tadelakt | Lehmputz | HerstellungUndRestaurierung {

    /** The category's directory name under public/images, also its URL segment. */
    function Segment(): string {
      match this
      case Arbeit => "arbeit"
      case Tadelakt => "tadelakt"
      case Lehmputz => "lehmputz"
      case HerstellungUndRestaurierung => "herstellung-und-restaurierung"
    }
  }

  /** A public/images directory: the entry names of each subdirectory that
      exists, keyed by the subdirectory's name. */
  type ImagesDirectory = map<string, seq<string>>

  /** The listing of a category's directory, None when it does not exist. */
  function Listing(images: ImagesDirectory, category: Category): (r: Option<seq<string>>)
    ensures r.None? <==> category.Segment() !in images
    ensures r.Some? ==> r.value == images[category.Segment()]
  {
    if category.Segment() in images then Some(images[category.Segment()]) else None
  }

  /** Everything the gallery takes from outside the program. */
  datatype Environment = Environment(
    /** public/images under the project root, found from the gallery module's own location */
    moduleRootImages: ImagesDirectory,
    /** public/images under the process's current working directory */
    cwdImages: ImagesDirectory,
    /** numeric-aware localeCompare under the runtime's default locale */
    defaultCollation: Comparator,
    /** numeric-aware localeCompare under the 'en' locale */
    englishCollation: Comparator)

  /** Distinct categories have distinct directories, and no segment holds a
      '/', so each names exactly one subdirectory. */
  lemma SegmentsDistinct(c1: Category, c2: Category)
    ensures c1 != c2 ==> c1.Segment() != c2.Segment()
    ensures '/' !in c1.Segment()
  {
  }
}
