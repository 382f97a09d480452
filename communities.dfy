/** The community entity and its persistence callbacks. */
module Communities {

  import opened Wrappers
  import opened JavaInt
  import opened JavaTime
  import Slugs

  /** A community row. */
  class Community {
    var title: Option<string>
    var description: Option<string>
    var slug: Option<string>
    var website: Option<string>
    var contactEmail: Option<string>
    var contactPhone: Option<string>
    var foundingYear: Option<Int32>
    var memberCount: Option<Int32>
    var isActive: Option<bool>
    var logoUrl: Option<string>
    var createdAt: Option<Instant>
    var updatedAt: Option<Instant>

    /** `new Community()` with the field initialisers, then `setTitle(title)`. */
    constructor (title: Option<string>)
      ensures this.title == title && memberCount == Some(0) && isActive == Some(true)
      ensures description.None? && slug.None? && website.None? && contactEmail.None?
      ensures contactPhone.None? && foundingYear.None? && logoUrl.None?
      ensures createdAt.None? && updatedAt.None?
    {
      this.title := title;
      description := None;
      slug := None;
      website := None;
      contactEmail := None;
      contactPhone := None;
      foundingYear := None;
      memberCount := Some(0);
      isActive := Some(true);
      logoUrl := None;
      createdAt := None;
      updatedAt := None;
    }

    /** The slug is missing when it is null or empty (a blank slug counts as present here). */
    predicate SlugMissing()
      reads this
    {
      slug.None? || slug.value == []
    }

    /**
     * The pre-persist callback: stamps both times and, when the slug is
     * missing, derives it from the title (which must then be present, since
     * this `generateSlug` dereferences it without a null check).
     */
    method OnCreate(now: Instant)
      requires SlugMissing() ==> title.Some?
      modifies this`createdAt, this`updatedAt, this`slug
      ensures createdAt == Some(now) && updatedAt == Some(now)
      ensures old(SlugMissing()) ==> slug == Some(Slugs.Slugify(title.value))
      ensures !old(SlugMissing()) ==> slug == old(slug)
    {
      createdAt := Some(now);
      updatedAt := Some(now);
      if SlugMissing() {
        slug := Some(Slugs.Slugify(title.value));
      }
    }

    method OnUpdate(now: Instant)
      modifies this`updatedAt
      ensures updatedAt == Some(now)
    {
      updatedAt := Some(now);
    }
  }
}
