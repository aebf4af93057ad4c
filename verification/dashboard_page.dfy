/**
 * The admin dashboard page: a session gate, then two queries (resources
 * newest first with their category's name, categories by name) handed to the
 * dashboard together with the signed-in user's email.
 */
module DashboardPage {
  import opened Common
  import opened Schema
  import opened Listings

  /** One row of the dashboard's resource list. */
  datatype DashboardRow = DashboardRow(
    id: Id, title: string, slug: string, description: Option<string>, kind: string,
    categoryName: Option<string>, createdAt: Timestamp)

  /** What `auth()` returns for a signed-in visitor: the user part may lack an email. */
  datatype SessionUserView = SessionUserView(email: Option<string>)
  datatype SessionView = SessionView(user: Option<SessionUserView>)

  const AdminLoginPath := "/admin"

  /** The page's outcome: a redirect, or the dashboard with its data. */
  datatype Page =
    | Redirect(location: string)
    | Dashboard(resources: seq<DashboardRow>, categories: seq<Category>, userEmail: string)

  function DashboardRowOf(cats: seq<Category>, r: Resource): (row: DashboardRow)
    ensures row.id == r.id && row.title == r.title && row.slug == r.slug && row.description == r.description
    ensures row.kind == r.kind && row.createdAt == r.createdAt
    ensures row.categoryName.None? <==> FindCategory(cats, r.categoryId).None?
    ensures row.categoryName.Some? ==> row.categoryName.value == FindCategory(cats, r.categoryId).value.name
  {
    var c := FindCategory(cats, r.categoryId);
    DashboardRow(r.id, r.title, r.slug, r.description, r.kind,
                 if c.Some? then Some(c.value.name) else None, r.createdAt)
  }

  /** `getResources` of the dashboard: one row per resource, newest first. */
  function GetResources(cats: seq<Category>, rs: seq<Resource>): (rows: seq<DashboardRow>)
    ensures |rows| == |rs|
    ensures multiset(rows) == multiset(Map(rs, r => DashboardRowOf(cats, r)))
    ensures forall i, j :: 0 <= i < j < |rows| ==> rows[i].createdAt >= rows[j].createdAt
  {
    var ordered := ByNewest(rs);
    MapKeepsMultiset(ordered, rs, r => DashboardRowOf(cats, r));
    Map(ordered, r => DashboardRowOf(cats, r))
  }

  /** `getCategories`: every category row, names ascending. */
  function GetCategories(cats: seq<Category>): (r: seq<Category>)
    ensures multiset(r) == multiset(cats)
    ensures OrderedByName(r)
  {
    ByName(cats)
  }

  /** `session.user?.email || ""`. */
  function UserEmail(session: SessionView): (email: string)
    ensures session.user.Some? && session.user.value.email.Some? ==> email == session.user.value.email.value
    ensures session.user.None? || session.user.value.email.None? ==> email == ""
  {
    if session.user.Some? then EmptyIfNull(session.user.value.email) else ""
  }

  /** `DashboardPage`: no session redirects to the sign-in page and loads nothing. */
  function Render(session: Option<SessionView>, cats: seq<Category>, rs: seq<Resource>): (p: Page)
    ensures p.Redirect? <==> session.None?
    ensures p.Redirect? ==> p.location == AdminLoginPath
    ensures p.Dashboard? ==>
      && p.resources == GetResources(cats, rs)
      && p.categories == GetCategories(cats)
      && p.userEmail == UserEmail(session.value)
  {
    if session.None? then Redirect(AdminLoginPath)
    else Dashboard(GetResources(cats, rs), GetCategories(cats), UserEmail(session.value))
  }

  /** What a visitor without a session gets does not depend on the store at all. */
  lemma RedirectIgnoresStore(cats1: seq<Category>, rs1: seq<Resource>, cats2: seq<Category>, rs2: seq<Resource>)
    ensures Render(None, cats1, rs1) == Render(None, cats2, rs2) == Redirect("/admin")
  {
  }

  /** Every category appears in the dashboard's list, and nothing else does. */
  lemma CategoriesAllListed(cats: seq<Category>, c: Category)
    ensures c in GetCategories(cats) <==> c in cats
  {
    var r := GetCategories(cats);
    assert c in r <==> c in multiset(r);
    assert c in cats <==> c in multiset(cats);
  }

  /** In a well-formed store a row has a category name exactly when its resource references a category. */
  lemma RowNamesCategoryIffReferenced(cats: seq<Category>, rs: seq<Resource>, r: Resource)
    requires ResourcesWellFormed(cats, rs) && CategoriesWellFormed(cats)
    requires r in rs
    ensures DashboardRowOf(cats, r).categoryName.Some? <==> r.categoryId.Some?
  {
    if r.categoryId.Some? {
      assert HasCategory(cats, r.categoryId.value);
    }
  }
}
