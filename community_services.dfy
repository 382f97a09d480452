/**
 * The community service over an abstract community store: title and slug
 * uniqueness on create and update, the delete refusal, the member counter
 * operations with Java `int` arithmetic, the top-N listing and the total
 * member count.
 */
module CommunityServices {

  import opened Wrappers
  import opened JavaInt
  import opened JavaTime
  import opened Communities

  datatype CommunityError =
    | CommunityNotFound
    | TitleTaken
    | SlugTaken
    | GeneratedSlugTaken
    | MissingTitle
    | HasMembers
    | NullValue
    | NegativeLimit

  /** The member count a total adds for `id`: nothing for a missing row or a null count. */
  function CountAt(m: map<int, Option<Int32>>, id: int): int
  {
    if id in m && m[id].Some? then m[id].value else 0
  }

  /** The exact (unwrapped) sum of the member counts of the ids `0 .. k-1`. */
  function SumCounts(m: map<int, Option<Int32>>, k: int): int
    decreases k
  {
    if k <= 0 then 0 else SumCounts(m, k - 1) + CountAt(m, k - 1)
  }

  /** Changing the count of one id moves the sum by exactly the difference. */
  lemma {:induction false} SumCountsChange(m: map<int, Option<Int32>>, m': map<int, Option<Int32>>, id: int, k: int)
    requires forall j :: j != id ==> CountAt(m, j) == CountAt(m', j)
    ensures SumCounts(m', k) == SumCounts(m, k) + (if 0 <= id < k then CountAt(m', id) - CountAt(m, id) else 0)
    decreases k
  {
    if k > 0 {
      SumCountsChange(m, m', id, k - 1);
    }
  }

  /** With no negative count the total is never negative. */
  lemma {:induction false} SumCountsNonNegative(m: map<int, Option<Int32>>, k: int)
    requires forall j :: j in m && m[j].Some? ==> 0 <= m[j].value
    ensures 0 <= SumCounts(m, k)
    decreases k
  {
    if k > 0 {
      SumCountsNonNegative(m, k - 1);
    }
  }

  /** One more member in one community raises the exact total by one. */
  lemma IncrementRaisesTotal(m: map<int, Option<Int32>>, id: int, k: int)
    requires id in m && m[id].Some? && m[id].value < MaxInt && 0 <= id < k
    ensures SumCounts(m[id := Some(Add(m[id].value, 1))], k) == SumCounts(m, k) + 1
  {
    SumCountsChange(m, m[id := Some(Add(m[id].value, 1))], id, k);
  }

  /** Deleting a community with count `c` lowers the exact total by `c`. */
  lemma RemovalLowersTotal(m: map<int, Option<Int32>>, id: int, k: int)
    requires id in m && m[id].Some? && 0 <= id < k
    ensures SumCounts(m - {id}, k) == SumCounts(m, k) - m[id].value
  {
    SumCountsChange(m, m - {id}, id, k);
  }

  /** Orders counts the way the descending query does: a null count sorts first. */
  function RankKey(count: Option<Int32>): int
  {
    if count.Some? then count.value else MaxInt + 1
  }

  /** `cs` is in non-increasing order of member count. */
  predicate MembersDescending(cs: seq<Community>)
    reads set i | 0 <= i < |cs| :: cs[i]
  {
    forall i, j :: 0 <= i < j < |cs| ==> RankKey(cs[j].memberCount) <= RankKey(cs[i].memberCount)
  }

  /**
   * `limit(limit)` over the rows in descending member order: an unboxed null
   * limit fails, a negative one is refused, otherwise the first `limit` rows.
   */
  function TopCommunities(ordered: seq<Community>, limit: Option<Int32>): (r: Result<seq<Community>, CommunityError>)
    ensures limit.None? ==> r == Err(NullValue)
    ensures limit.Some? && limit.value < 0 ==> r == Err(NegativeLimit)
    ensures limit.Some? && 0 <= limit.value ==>
              r.Ok? && |r.value| <= limit.value && |r.value| <= |ordered|
              && (|r.value| < limit.value ==> r.value == ordered)
              && r.value == ordered[..|r.value|]
  {
    if limit.None? then Err(NullValue)
    else if limit.value < 0 then Err(NegativeLimit)
    else if limit.value < |ordered| then Ok(ordered[..limit.value])
    else Ok(ordered)
  }

  /** The top-N list keeps the descending order of its input. */
  lemma TopCommunitiesKeepOrder(ordered: seq<Community>, limit: Option<Int32>)
    requires MembersDescending(ordered)
    ensures TopCommunities(ordered, limit).Ok? ==> MembersDescending(TopCommunities(ordered, limit).value)
  {
  }

  /** The field copy of `updateCommunity`; `input` may be `e` itself. */
  method CopyEditableFields(e: Community, input: Community, now: Instant)
    modifies e
    ensures e.title == old(input.title) && e.description == old(input.description)
    ensures e.slug == old(input.slug) && e.website == old(input.website)
    ensures e.contactEmail == old(input.contactEmail) && e.contactPhone == old(input.contactPhone)
    ensures e.foundingYear == old(input.foundingYear) && e.logoUrl == old(input.logoUrl)
    ensures e.isActive == old(input.isActive) && e.updatedAt == Some(now)
    ensures e.memberCount == (if old(input.memberCount).Some? then old(input.memberCount) else old(e.memberCount))
    ensures e.createdAt == old(e.createdAt)
  {
    var title, description, slug, website := input.title, input.description, input.slug, input.website;
    var email, phone, year, logo := input.contactEmail, input.contactPhone, input.foundingYear, input.logoUrl;
    var active, count := input.isActive, input.memberCount;
    e.title := title;
    e.description := description;
    e.slug := slug;
    e.website := website;
    e.contactEmail := email;
    e.contactPhone := phone;
    e.foundingYear := year;
    e.logoUrl := logo;
    e.isActive := active;
    e.updatedAt := Some(now);
    if count.Some? {
      e.memberCount := count;
    }
  }

  /**
   * What `createCommunity` does to a community before inserting it: a null
   * member count becomes 0, a null active flag true, and the pre-persist
   * callback stamps the times and fills a missing slug.
   */
  method PrepareNew(c: Community, now: Instant)
    requires c.title.Some?
    modifies c`memberCount, c`isActive, c`createdAt, c`updatedAt, c`slug
    ensures c.memberCount == Some(old(c.memberCount).GetOr(0)) && c.isActive == Some(old(c.isActive).GetOr(true))
    ensures c.createdAt == Some(now) && c.updatedAt == Some(now)
    ensures c.slug == (if old(c.SlugMissing()) then Some(Slugs.Slugify(c.title.value)) else old(c.slug))
  {
    if c.memberCount.None? {
      c.memberCount := Some(0);
    }
    if c.isActive.None? {
      c.isActive := Some(true);
    }
    ghost var title, missing := c.title, c.SlugMissing();
    c.OnCreate(now);
    assert missing ==> c.slug == Some(Slugs.Slugify(title.value));
  }

  class CommunityService {
    var communities: map<int, Community>
    var nextId: int

    /**
     * Ids are below the next one handed out, titles are present, no two
     * communities share a title, and no two share a non-null slug (the slug
     * column is unique).
     */
    ghost predicate Valid()
      reads this, communities.Values
    {
      0 <= nextId
      && (forall id :: id in communities ==> 0 <= id < nextId && communities[id].title.Some?)
      && (forall i, j :: i in communities && j in communities && i != j ==>
            communities[i].title != communities[j].title)
      && (forall i, j :: i in communities && j in communities && i != j && communities[i].slug.Some? ==>
            communities[i].slug != communities[j].slug)
    }

    /** `existsByTitle(title)`; a null title matches no stored row. */
    predicate TitleExists(title: Option<string>)
      reads this, communities.Values
    {
      exists id :: id in communities && communities[id].title == title
    }

    /** The community stored under `id`, if any, as a frame. */
    function Row(id: int): set<Community>
      reads this
    {
      if id in communities then {communities[id]} else {}
    }

    /** `existsBySlug(slug)`. */
    predicate SlugExists(slug: string)
      reads this, communities.Values
    {
      exists id :: id in communities && communities[id].slug == Some(slug)
    }

    /** The member count of every stored community. */
    function Counts(): (m: map<int, Option<Int32>>)
      reads this, communities.Values
      ensures m.Keys == communities.Keys
      ensures forall id :: id in communities ==> m[id] == communities[id].memberCount
    {
      map id | id in communities :: communities[id].memberCount
    }

    constructor ()
      ensures Valid() && communities == map[] && nextId == 1
    {
      communities := map[];
      nextId := 1;
    }

    /**
     * Whether creating `c` must be refused, and with which error: the
     * service's title and slug checks, then the refusals of the table itself,
     * a null title or a generated slug that another row already holds.
     */
    function CreateConflict(c: Community): (r: Option<CommunityError>)
      reads this, communities.Values, c
      ensures r == Some(TitleTaken) <==> TitleExists(c.title)
      ensures r == Some(SlugTaken) <==> !TitleExists(c.title) && c.slug.Some? && SlugExists(c.slug.value)
      ensures r == Some(GeneratedSlugTaken) <==>
                !TitleExists(c.title) && !(c.slug.Some? && SlugExists(c.slug.value))
                && c.title.Some? && c.SlugMissing() && SlugExists(Slugs.Slugify(c.title.value))
      ensures r.None? <==>
                !TitleExists(c.title) && !(c.slug.Some? && SlugExists(c.slug.value)) && c.title.Some?
                && !(c.SlugMissing() && SlugExists(Slugs.Slugify(c.title.value)))
    {
      if TitleExists(c.title) then Some(TitleTaken)
      else if c.slug.Some? && SlugExists(c.slug.value) then Some(SlugTaken)
      else if c.title.None? then Some(MissingTitle)
      else if c.SlugMissing() && SlugExists(Slugs.Slugify(c.title.value)) then Some(GeneratedSlugTaken)
      else None
    }

    /** Stores `c` under the next id; its title and slug are held by no stored community. */
    method Insert(c: Community)
      requires Valid() && c !in communities.Values
      requires c.title.Some? && !TitleExists(c.title) && c.slug.Some? && !SlugExists(c.slug.value)
      modifies this
      ensures Valid() && communities == old(communities)[old(nextId) := c] && nextId == old(nextId) + 1
    {
      communities := communities[nextId := c];
      nextId := nextId + 1;
    }

    method CreateCommunity(c: Community, now: Instant) returns (res: Result<Community, CommunityError>)
      requires Valid() && c !in communities.Values
      modifies this, c`memberCount, c`isActive, c`createdAt, c`updatedAt, c`slug
      ensures Valid()
      ensures old(CreateConflict(c)).Some? ==>
                res == Err(old(CreateConflict(c)).value)
                && communities == old(communities) && nextId == old(nextId) && unchanged(c)
      ensures old(CreateConflict(c)).None? ==>
                res == Ok(c) && communities == old(communities)[old(nextId) := c] && nextId == old(nextId) + 1
                && c.title == old(c.title)
                && c.memberCount == Some(old(c.memberCount).GetOr(0))
                && c.isActive == Some(old(c.isActive).GetOr(true))
                && c.createdAt == Some(now) && c.updatedAt == Some(now)
                && c.slug == (if old(c.SlugMissing()) then Some(Slugs.Slugify(old(c.title).value)) else old(c.slug))
    {
      var conflict := CreateConflict(c);
      if conflict.Some? {
        return Err(conflict.value);
      }
      ghost var generated := c.SlugMissing();
      PrepareNew(c, now);
      assert generated ==> !SlugExists(c.slug.value);
      Insert(c);
      return Ok(c);
    }

    /** Whether an update to `input` must be refused, and with which error. */
    function UpdateConflict(existing: Community, input: Community): (r: Option<CommunityError>)
      reads this, communities.Values, existing, input
      ensures r == Some(TitleTaken) <==> input.title != existing.title && TitleExists(input.title)
      ensures r == Some(SlugTaken) <==>
                !(input.title != existing.title && TitleExists(input.title))
                && input.slug.Some? && input.slug != existing.slug && SlugExists(input.slug.value)
      ensures r.None? <==>
                !(input.title != existing.title && TitleExists(input.title))
                && !(input.slug.Some? && input.slug != existing.slug && SlugExists(input.slug.value))
                && input.title.Some?
    {
      if input.title != existing.title && TitleExists(input.title) then Some(TitleTaken)
      else if input.slug.Some? && input.slug != existing.slug && SlugExists(input.slug.value) then Some(SlugTaken)
      else if input.title.None? then Some(MissingTitle)
      else None
    }

    method UpdateCommunity(id: int, input: Community, now: Instant) returns (res: Result<Community, CommunityError>)
      requires Valid()
      modifies if id in communities then {communities[id]} else {}
      ensures Valid()
      ensures id !in communities ==> res == Err(CommunityNotFound)
      ensures id in communities && old(UpdateConflict(communities[id], input)).Some? ==>
                res == Err(old(UpdateConflict(communities[id], input)).value) && unchanged(communities[id])
      ensures id in communities && old(UpdateConflict(communities[id], input)).None? ==>
                var e := communities[id];
                res == Ok(e)
                && e.title == old(input.title) && e.description == old(input.description)
                && e.slug == old(input.slug) && e.website == old(input.website)
                && e.contactEmail == old(input.contactEmail) && e.contactPhone == old(input.contactPhone)
                && e.foundingYear == old(input.foundingYear) && e.logoUrl == old(input.logoUrl)
                && e.isActive == old(input.isActive) && e.updatedAt == Some(now)
                && e.memberCount == (if old(input.memberCount).Some? then old(input.memberCount) else old(e.memberCount))
                && e.createdAt == old(e.createdAt)
    {
      if id !in communities {
        return Err(CommunityNotFound);
      }
      var e := communities[id];
      var conflict := UpdateConflict(e, input);
      if conflict.Some? {
        return Err(conflict.value);
      }
      CopyEditableFields(e, input, now);
      return Ok(e);
    }

    method DeleteCommunity(id: int) returns (res: Result<(), CommunityError>)
      requires Valid()
      modifies this`communities
      ensures Valid()
      ensures id !in old(communities) ==> res == Err(CommunityNotFound)
      ensures id in old(communities) && old(communities[id].memberCount).None? ==> res == Err(NullValue)
      ensures id in old(communities) && old(communities[id].memberCount).Some? && old(communities[id].memberCount).value > 0 ==>
                res == Err(HasMembers)
      ensures res.Err? ==> communities == old(communities)
      ensures res.Ok? <==>
                id in old(communities) && old(communities[id].memberCount).Some? && old(communities[id].memberCount).value <= 0
      ensures res.Ok? ==> communities == old(communities) - {id}
    {
      if id !in communities {
        return Err(CommunityNotFound);
      }
      var count := communities[id].memberCount;
      if count.None? {
        return Err(NullValue);
      }
      if count.value > 0 {
        return Err(HasMembers);
      }
      communities := communities - {id};
      return Ok(());
    }

    /** Stores `count` as the member count of community `id` and stamps the update time. */
    method StoreCount(id: int, c: Community, count: Option<Int32>, now: Instant)
      requires Valid() && id in communities && communities[id] == c
      modifies c`memberCount, c`updatedAt
      ensures Valid()
      ensures c.memberCount == count && c.updatedAt == Some(now)
      ensures Counts() == old(Counts())[id := count]
    {
      ghost var before := Counts();
      c.memberCount := count;
      c.updatedAt := Some(now);
      assert Valid();
      assert forall k :: k in communities ==> Counts()[k] == before[id := count][k];
    }

    method IncrementMemberCount(id: int, now: Instant) returns (res: Result<Community, CommunityError>)
      requires Valid()
      modifies Row(id)`memberCount, Row(id)`updatedAt
      ensures Valid()
      ensures id !in communities ==> res == Err(CommunityNotFound)
      ensures id in communities && old(communities[id].memberCount).None? ==>
                res == Err(NullValue) && unchanged(communities[id])
      ensures id in communities && old(communities[id].memberCount).Some? ==>
                res == Ok(communities[id]) && communities[id].updatedAt == Some(now)
                && Counts() == old(Counts())[id := Some(Add(old(communities[id].memberCount).value, 1))]
    {
      if id !in communities {
        return Err(CommunityNotFound);
      }
      var c := communities[id];
      if c.memberCount.None? {
        return Err(NullValue);
      }
      StoreCount(id, c, Some(Add(c.memberCount.value, 1)), now);
      return Ok(c);
    }

    method DecrementMemberCount(id: int, now: Instant) returns (res: Result<Community, CommunityError>)
      requires Valid()
      modifies Row(id)`memberCount, Row(id)`updatedAt
      ensures Valid()
      ensures id !in communities ==> res == Err(CommunityNotFound)
      ensures id in communities && old(communities[id].memberCount).None? ==>
                res == Err(NullValue) && unchanged(communities[id])
      ensures id in communities && old(communities[id].memberCount).Some? ==>
                var n := Sub(old(communities[id].memberCount).value, 1);
                res == Ok(communities[id]) && communities[id].updatedAt == Some(now)
                && Counts() == old(Counts())[id := Some(if n < 0 then 0 else n)]
    {
      if id !in communities {
        return Err(CommunityNotFound);
      }
      var c := communities[id];
      if c.memberCount.None? {
        return Err(NullValue);
      }
      var n := Sub(c.memberCount.value, 1);
      if n < 0 {
        n := 0;
      }
      StoreCount(id, c, Some(n), now);
      return Ok(c);
    }

    method UpdateMemberCount(id: int, count: Option<Int32>, now: Instant) returns (res: Result<Community, CommunityError>)
      requires Valid()
      modifies Row(id)`memberCount, Row(id)`updatedAt
      ensures Valid()
      ensures id !in communities ==> res == Err(CommunityNotFound)
      ensures id in communities ==>
                res == Ok(communities[id]) && communities[id].updatedAt == Some(now)
                && Counts() == old(Counts())[id := count]
    {
      if id !in communities {
        return Err(CommunityNotFound);
      }
      var c := communities[id];
      StoreCount(id, c, count, now);
      return Ok(c);
    }

    /** `activateCommunity` (`active`) and `deactivateCommunity` (`!active`). */
    method SetActive(id: int, active: bool, now: Instant) returns (res: Result<Community, CommunityError>)
      requires Valid()
      modifies Row(id)`isActive, Row(id)`updatedAt
      ensures Valid()
      ensures id !in communities ==> res == Err(CommunityNotFound)
      ensures id in communities ==>
                res == Ok(communities[id]) && communities[id].isActive == Some(active)
                && communities[id].updatedAt == Some(now) && Counts() == old(Counts())
    {
      if id !in communities {
        return Err(CommunityNotFound);
      }
      var c := communities[id];
      c.isActive := Some(active);
      c.updatedAt := Some(now);
      return Ok(c);
    }

    /**
     * `getTotalMembersAcrossCommunities`: a null count fails the unboxing,
     * otherwise the Java `int` sum of all counts.
     */
    method TotalMembers() returns (res: Result<Int32, CommunityError>)
      requires Valid()
      ensures res.Err? <==> exists id :: id in communities && communities[id].memberCount.None?
      ensures res.Err? ==> res == Err(NullValue)
      ensures res.Ok? ==> res.value == Wrap(SumCounts(Counts(), nextId))
    {
      ghost var m := Counts();
      var total: Int32 := 0;
      for k := 0 to nextId
        invariant total == Wrap(SumCounts(m, k))
        invariant forall j :: j in communities && j < k ==> communities[j].memberCount.Some?
      {
        if k in communities {
          var count := communities[k].memberCount;
          if count.None? {
            return Err(NullValue);
          }
          WrapAddWrap(SumCounts(m, k), count.value);
          total := Add(total, count.value);
        }
      }
      return Ok(total);
    }
  }
}
