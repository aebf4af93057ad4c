/**
 * The public home page's query: every resource, newest first, with the name
 * and color of its category when it has one, and only the fields a card
 * shows.
 */
module HomePage {
  import opened Common
  import opened Schema
  import opened Listings

  /** One row of the listing: no content, external URL, category id or timestamps. */
  datatype PublicRow = PublicRow(
    id: Id, title: string, slug: string, description: Option<string>, thumbnail: Option<string>,
    kind: string, author: Option<string>, categoryName: Option<string>, categoryColor: Option<string>)

  /** The selected columns of a resource and of its left-joined category (null columns when there is none). */
  function PublicRowOf(cats: seq<Category>, r: Resource): (row: PublicRow)
    ensures row.id == r.id && row.title == r.title && row.slug == r.slug && row.description == r.description
    ensures row.thumbnail == r.thumbnail && row.kind == r.kind && row.author == r.author
    ensures FindCategory(cats, r.categoryId).None? ==> row.categoryName.None? && row.categoryColor.None?
    ensures FindCategory(cats, r.categoryId).Some? ==>
      row.categoryName == Some(FindCategory(cats, r.categoryId).value.name)
      && row.categoryColor == FindCategory(cats, r.categoryId).value.color
  {
    var c := FindCategory(cats, r.categoryId);
    PublicRow(r.id, r.title, r.slug, r.description, r.thumbnail, r.kind, r.author,
              if c.Some? then Some(c.value.name) else None,
              if c.Some? then c.value.color else None)
  }

  /** `getResources` of the home page. */
  function GetResources(cats: seq<Category>, rs: seq<Resource>): (rows: seq<PublicRow>)
    ensures |rows| == |rs|
    ensures multiset(rows) == multiset(Map(rs, r => PublicRowOf(cats, r)))
    ensures exists ordered :: multiset(ordered) == multiset(rs) && OrderedNewestFirst(ordered)
                              && rows == Map(ordered, r => PublicRowOf(cats, r))
  {
    var ordered := ByNewest(rs);
    MapKeepsMultiset(ordered, rs, r => PublicRowOf(cats, r));
    Map(ordered, r => PublicRowOf(cats, r))
  }

  /**
   * In a well-formed store a resource's row names its category exactly when
   * the resource has one: the category's name and color when `categoryId` is
   * set, null for both when it is null.
   */
  lemma RowCarriesItsCategory(cats: seq<Category>, rs: seq<Resource>, r: Resource)
    requires ResourcesWellFormed(cats, rs) && CategoriesWellFormed(cats)
    requires r in rs
    ensures r.categoryId.None? ==> PublicRowOf(cats, r).categoryName.None? && PublicRowOf(cats, r).categoryColor.None?
    ensures r.categoryId.Some? ==>
      exists i :: 0 <= i < |cats| && cats[i].id == r.categoryId.value
        && PublicRowOf(cats, r).categoryName == Some(cats[i].name)
        && PublicRowOf(cats, r).categoryColor == cats[i].color
  {
    if r.categoryId.Some? {
      assert HasCategory(cats, r.categoryId.value);
      var i :| 0 <= i < |cats| && cats[i].id == r.categoryId.value;
      FindCategoryUnique(cats, i);
    }
  }

  /** Every resource has its row in the listing, and every row is some resource's. */
  lemma ListingShowsEveryResource(cats: seq<Category>, rs: seq<Resource>)
    ensures forall r :: r in rs ==> PublicRowOf(cats, r) in GetResources(cats, rs)
    ensures forall row :: row in GetResources(cats, rs) ==> exists r :: r in rs && row == PublicRowOf(cats, r)
  {
    var rows := GetResources(cats, rs);
    var projected := Map(rs, r => PublicRowOf(cats, r));
    forall r | r in rs ensures PublicRowOf(cats, r) in rows {
      var i :| 0 <= i < |rs| && rs[i] == r;
      assert projected[i] == PublicRowOf(cats, r);
      assert PublicRowOf(cats, r) in multiset(projected);
    }
    forall row | row in rows ensures exists r :: r in rs && row == PublicRowOf(cats, r) {
      assert row in multiset(projected);
      var i :| 0 <= i < |projected| && projected[i] == row;
      assert rs[i] in rs;
    }
  }
}
