/**
 * The server actions over the content store: getResource, createResource,
 * updateResource, deleteResource, createCategory and deleteCategory, and the
 * page paths each one revalidates.
 *
 * Each SQL statement an action issues is a function from the table(s) before
 * to the table after, or to the error the database raises (a failed statement
 * changes nothing). `ContentStore` holds the three tables and its methods are
 * the actions: they run the statements in the order each action issues them, and an action
 * whose statement fails stops there, so it revalidates nothing.
 */
module Actions {
  import opened Common
  import opened Schema

  /** The form fields sent to createResource and updateResource; `kind` is the `type` field. */
  datatype ResourceData = ResourceData(
    title: string,
    slug: string,
    description: string,
    content: string,
    thumbnail: string,
    kind: string,
    categoryId: string,
    externalUrl: string,
    author: string)

  /** The form fields sent to createCategory. */
  datatype CategoryData = CategoryData(name: string, slug: string, color: string)

  const HomePath := "/"
  const DashboardPath := "/admin/dashboard"

  function ResourcePath(slug: string): (p: string)
  {
    "/resources/" + slug
  }

  /** No optional text column holds the empty string: the actions always store "" as null. */
  predicate NoStoredEmptyStrings(r: Resource)
  {
    && r.description != Some("") && r.content != Some("") && r.thumbnail != Some("")
    && r.categoryId != Some("") && r.externalUrl != Some("") && r.author != Some("")
  }

  /**
   * The row createResource sends: title, slug and type verbatim, each optional
   * field null when it is empty and the text itself otherwise, and the
   * insertion time in all three timestamps.
   */
  function NewResourceRow(id: Id, data: ResourceData, now: Timestamp): (r: Resource)
    ensures r.id == id && r.title == data.title && r.slug == data.slug && r.kind == data.kind
    ensures r.description == (if data.description == "" then None else Some(data.description))
    ensures r.content == (if data.content == "" then None else Some(data.content))
    ensures r.thumbnail == (if data.thumbnail == "" then None else Some(data.thumbnail))
    ensures r.categoryId == (if data.categoryId == "" then None else Some(data.categoryId))
    ensures r.externalUrl == (if data.externalUrl == "" then None else Some(data.externalUrl))
    ensures r.author == (if data.author == "" then None else Some(data.author))
    ensures r.published == Some(now) && r.createdAt == now && r.updatedAt == now
  {
    InsertedResource(id, data.title, data.slug, NullIfEmpty(data.description), NullIfEmpty(data.content),
                     NullIfEmpty(data.thumbnail), Given(data.kind), NullIfEmpty(data.categoryId),
                     NullIfEmpty(data.externalUrl), NullIfEmpty(data.author), now)
  }

  /**
   * The row updateResource sends for `r`: the same column values createResource
   * would send, with `r`'s id, creation time and publication time kept.
   */
  function EditedRow(r: Resource, data: ResourceData, now: Timestamp): (e: Resource)
    ensures e == NewResourceRow(r.id, data, now).(published := r.published, createdAt := r.createdAt)
  {
    r.(title := data.title, slug := data.slug, description := NullIfEmpty(data.description),
       content := NullIfEmpty(data.content), thumbnail := NullIfEmpty(data.thumbnail),
       kind := data.kind, categoryId := NullIfEmpty(data.categoryId),
       externalUrl := NullIfEmpty(data.externalUrl), author := NullIfEmpty(data.author),
       updatedAt := now)
  }

  /** The row createCategory sends: the three fields verbatim (the color is always supplied, so no default). */
  function NewCategoryRow(id: Id, data: CategoryData, now: Timestamp): (c: Category)
    ensures c.id == id && c.name == data.name && c.slug == data.slug
    ensures c.color == Some(data.color) && c.createdAt == now
  {
    InsertedCategory(id, data.name, data.slug, Given(Some(data.color)), now)
  }

  /**
   * Neither action ever stores an empty string in an optional column, whatever
   * the form sends: "" becomes null, and a non-empty value stays non-empty
   * when the column cuts it to its length.
   */
  lemma WrittenRowsNormalised(id: Id, data: ResourceData, now: Timestamp, r: Resource)
    ensures NoStoredEmptyStrings(StoredResource(NewResourceRow(id, data, now)))
    ensures NoStoredEmptyStrings(StoredResource(EditedRow(r, data, now)))
  {
    var n := NewResourceRow(id, data, now);
    if n.author.Some? {
      assert |Varchar(n.author.value, AuthorMaxLength)| > 0;
    }
    var e := EditedRow(r, data, now);
    if e.author.Some? {
      assert |Varchar(e.author.value, AuthorMaxLength)| > 0;
    }
  }

  /** `SELECT ... WHERE id = $1 LIMIT 1`: the first row with that id. */
  function FindResource(rs: seq<Resource>, id: Id): (r: Option<Resource>)
    ensures r.Some? ==> r.value in rs && r.value.id == id
    ensures r.None? <==> forall i :: 0 <= i < |rs| ==> rs[i].id != id
    ensures forall k :: 0 <= k < |rs| && rs[k].id == id && (forall j :: 0 <= j < k ==> rs[j].id != id) ==> r == Some(rs[k])
  {
    First(rs, (r: Resource) => r.id == id)
  }

  /** `INSERT INTO resources`: the row as stored is appended, or the database's error and no change. */
  function InsertResourceStatement(cats: seq<Category>, rs: seq<Resource>, row: Resource): (r: Result<seq<Resource>, DbError>)
    ensures r.Err? <==> ResourceRowError(cats, rs, row).Some?
    ensures r.Err? ==> r.error == ResourceRowError(cats, rs, row).value
    ensures r.Ok? ==> |r.value| == |rs| + 1 && r.value[..|rs|] == rs && r.value[|rs|] == StoredResource(row)
  {
    match ResourceRowError(cats, rs, row)
    case Some(e) => Err(e)
    case None => Ok(rs + [StoredResource(row)])
  }

  /** `DELETE FROM resources WHERE id = $1`. */
  function WithoutResource(rs: seq<Resource>, id: Id): (r: seq<Resource>)
    ensures forall x :: x in r <==> x in rs && x.id != id
    ensures forall i :: 0 <= i < |r| ==> r[i].id != id
    ensures (forall i :: 0 <= i < |rs| ==> rs[i].id != id) ==> r == rs
    ensures |r| <= |rs|
  {
    if rs == [] then []
    else if rs[0].id == id then WithoutResource(rs[1..], id)
    else
      assert rs == [rs[0]] + rs[1..];
      [rs[0]] + WithoutResource(rs[1..], id)
  }

  /** `UPDATE resources SET ... WHERE id = $1`, before the constraint check. */
  function UpdatedRows(rs: seq<Resource>, id: Id, data: ResourceData, now: Timestamp): (r: seq<Resource>)
    ensures |r| == |rs|
    ensures forall i :: 0 <= i < |rs| && rs[i].id != id ==> r[i] == rs[i]
    ensures forall i :: 0 <= i < |rs| && rs[i].id == id ==>
      && r[i].id == id && r[i].createdAt == rs[i].createdAt && r[i].published == rs[i].published
      && r[i].updatedAt == now && r[i].slug == Varchar(data.slug, ResourceSlugMaxLength)
  {
    seq(|rs|, i requires 0 <= i < |rs| => if rs[i].id == id then StoredResource(EditedRow(rs[i], data, now)) else rs[i])
  }

  /**
   * `UPDATE resources SET ... WHERE id = $1`: no row matches, nothing changes
   * and nothing fails; otherwise the edited row must meet the constraints
   * against every other row.
   */
  function UpdateResourceStatement(cats: seq<Category>, rs: seq<Resource>, id: Id, data: ResourceData, now: Timestamp)
    : (r: Result<seq<Resource>, DbError>)
    ensures (forall i :: 0 <= i < |rs| ==> rs[i].id != id) ==> r == Ok(rs)
    ensures r.Ok? ==> |r.value| == |rs|
    ensures r.Err? ==> exists i :: 0 <= i < |rs| && rs[i].id == id
                          && ResourceRowError(cats, WithoutResource(rs, id), EditedRow(rs[i], data, now)) == Some(r.error)
  {
    var found := FindResource(rs, id);
    if found.None? then Ok(rs)
    else
      var e := ResourceRowError(cats, WithoutResource(rs, id), EditedRow(found.value, data, now));
      if e.Some? then Err(e.value) else Ok(UpdatedRows(rs, id, data, now))
  }

  /** `INSERT INTO categories`: the row as stored is appended, or the database's error and no change. */
  function InsertCategoryStatement(cats: seq<Category>, row: Category): (r: Result<seq<Category>, DbError>)
    ensures r.Err? <==> CategoryRowError(cats, row).Some?
    ensures r.Err? ==> r.error == CategoryRowError(cats, row).value
    ensures r.Ok? ==> |r.value| == |cats| + 1 && r.value[..|cats|] == cats && r.value[|cats|] == StoredCategory(row)
  {
    match CategoryRowError(cats, row)
    case Some(e) => Err(e)
    case None => Ok(cats + [StoredCategory(row)])
  }

  /** `UPDATE resources SET category_id = NULL WHERE category_id = $1`. */
  function DetachCategory(rs: seq<Resource>, id: Id): (r: seq<Resource>)
    ensures |r| == |rs|
    ensures forall i :: 0 <= i < |r| ==> r[i].categoryId != Some(id)
    ensures forall i :: 0 <= i < |rs| && rs[i].categoryId != Some(id) ==> r[i] == rs[i]
    ensures forall i :: 0 <= i < |rs| && rs[i].categoryId == Some(id) ==> r[i] == rs[i].(categoryId := None)
  {
    seq(|rs|, i requires 0 <= i < |rs| => if rs[i].categoryId == Some(id) then rs[i].(categoryId := None) else rs[i])
  }

  /** The categories without the row(s) whose id is `id`. */
  function WithoutCategory(cats: seq<Category>, id: Id): (r: seq<Category>)
    ensures forall x :: x in r <==> x in cats && x.id != id
    ensures (forall i :: 0 <= i < |cats| ==> cats[i].id != id) ==> r == cats
  {
    if cats == [] then []
    else if cats[0].id == id then WithoutCategory(cats[1..], id)
    else
      assert cats == [cats[0]] + cats[1..];
      [cats[0]] + WithoutCategory(cats[1..], id)
  }

  /**
   * `DELETE FROM categories WHERE id = $1`: the foreign key from resources has
   * no cascade, so deleting a category that a resource still references fails.
   */
  function DeleteCategoryStatement(cats: seq<Category>, rs: seq<Resource>, id: Id): (r: Result<seq<Category>, DbError>)
    ensures r.Err? <==> HasCategory(cats, id) && exists i :: 0 <= i < |rs| && rs[i].categoryId == Some(id)
    ensures r.Err? ==> r.error == ForeignKeyViolation(ResourceCategoryFk)
    ensures r.Ok? ==> forall c :: c in r.value <==> c in cats && c.id != id
  {
    if HasCategory(cats, id) && exists i :: 0 <= i < |rs| && rs[i].categoryId == Some(id) then
      Err(ForeignKeyViolation(ResourceCategoryFk))
    else
      Ok(WithoutCategory(cats, id))
  }

  // ---------------------------------------------------------------- lemmas

  /** A new resource whose slug another resource already has is refused; the store keeps one row per slug. */
  lemma DuplicateSlugRejected(cats: seq<Category>, rs: seq<Resource>, newId: Id, data: ResourceData, now: Timestamp)
    requires exists i :: 0 <= i < |rs| && rs[i].slug == Varchar(data.slug, ResourceSlugMaxLength)
    ensures InsertResourceStatement(cats, rs, NewResourceRow(newId, data, now)).Err?
    ensures ResourceValuesAccepted(NewResourceRow(newId, data, now)) && (forall i :: 0 <= i < |rs| ==> rs[i].id != newId)
            ==> InsertResourceStatement(cats, rs, NewResourceRow(newId, data, now)) == Err(UniqueViolation(ResourcesSlugUnique))
  {
  }

  /** Inserting a resource the database accepts keeps every schema constraint. */
  lemma InsertResourceKeepsWellFormed(admins: seq<Admin>, cats: seq<Category>, rs: seq<Resource>, row: Resource)
    requires WellFormed(admins, cats, rs)
    ensures InsertResourceStatement(cats, rs, row).Ok? ==> WellFormed(admins, cats, InsertResourceStatement(cats, rs, row).value)
    ensures InsertResourceStatement(cats, rs, row).Err? ==>
      !(ResourceValuesAccepted(row) && WellFormed(admins, cats, rs + [StoredResource(row)]))
  {
    ResourceRowErrorExact(admins, cats, rs, row);
  }

  /**
   * The update changes only the row with the given id, and writes the edited
   * values there; every other row stays as it was.
   */
  lemma UpdateChangesOnlyThatRow(cats: seq<Category>, rs: seq<Resource>, id: Id, data: ResourceData, now: Timestamp)
    requires UpdateResourceStatement(cats, rs, id, data, now).Ok?
    ensures var t := UpdateResourceStatement(cats, rs, id, data, now).value;
      && |t| == |rs|
      && (forall i :: 0 <= i < |rs| && rs[i].id != id ==> t[i] == rs[i])
      && (forall i :: 0 <= i < |rs| && rs[i].id == id ==>
            && t[i].id == id && t[i].title == Varchar(data.title, TitleMaxLength)
            && t[i].slug == Varchar(data.slug, ResourceSlugMaxLength) && t[i].kind == Varchar(data.kind, TypeMaxLength)
            && t[i].description == NullIfEmpty(data.description) && t[i].content == NullIfEmpty(data.content)
            && t[i].thumbnail == NullIfEmpty(data.thumbnail) && t[i].categoryId == NullIfEmpty(data.categoryId)
            && t[i].externalUrl == NullIfEmpty(data.externalUrl)
            && t[i].author == OptVarchar(NullIfEmpty(data.author), AuthorMaxLength)
            && t[i].updatedAt == now && t[i].createdAt == rs[i].createdAt && t[i].published == rs[i].published)
  {
    var t := UpdateResourceStatement(cats, rs, id, data, now).value;
    if FindResource(rs, id).Some? {
      assert t == UpdatedRows(rs, id, data, now);
      forall i | 0 <= i < |rs| && rs[i].id == id
        ensures t[i].title == Varchar(data.title, TitleMaxLength) && t[i].kind == Varchar(data.kind, TypeMaxLength)
        ensures t[i].author == OptVarchar(NullIfEmpty(data.author), AuthorMaxLength)
      {
        StoredEditedRow(rs[i], data, now);
      }
    }
  }

  lemma StoredEditedRow(r: Resource, data: ResourceData, now: Timestamp)
    ensures var e := StoredResource(EditedRow(r, data, now));
      && e.title == Varchar(data.title, TitleMaxLength) && e.kind == Varchar(data.kind, TypeMaxLength)
      && e.author == OptVarchar(NullIfEmpty(data.author), AuthorMaxLength)
  {
  }

  /**
   * When the id has a row, the update fails exactly when the row the action
   * read (the first with the id), once edited, breaks a constraint against the
   * other rows, and then with that error; otherwise it writes the edited rows.
   */
  lemma UpdateResourceErrorExact(cats: seq<Category>, rs: seq<Resource>, id: Id, data: ResourceData, now: Timestamp, k: nat)
    requires k < |rs| && rs[k].id == id && forall j :: 0 <= j < k ==> rs[j].id != id
    ensures var st := UpdateResourceStatement(cats, rs, id, data, now);
      var e := ResourceRowError(cats, WithoutResource(rs, id), EditedRow(rs[k], data, now));
      && (st.Err? <==> e.Some?)
      && (st.Err? ==> st.error == e.value)
      && (st.Ok? ==> st.value == UpdatedRows(rs, id, data, now))
  {
    assert FindResource(rs, id) == Some(rs[k]);
  }

  /** Updating an id that has no row changes nothing and is not an error. */
  lemma UpdateMissingIdIsNoOp(cats: seq<Category>, rs: seq<Resource>, id: Id, data: ResourceData, now: Timestamp)
    requires forall i :: 0 <= i < |rs| ==> rs[i].id != id
    ensures UpdateResourceStatement(cats, rs, id, data, now) == Ok(rs)
  {
  }

  /** Replacing one row by a row that fits and clashes with no other row keeps the constraints. */
  lemma ReplaceRowKeepsWellFormed(cats: seq<Category>, rs: seq<Resource>, k: nat, row: Resource)
    requires ResourcesWellFormed(cats, rs) && k < |rs|
    requires ResourceFits(row) && (row.categoryId.Some? ==> HasCategory(cats, row.categoryId.value))
    requires forall i :: 0 <= i < |rs| && i != k ==> rs[i].id != row.id && rs[i].slug != row.slug
    ensures ResourcesWellFormed(cats, rs[k := row])
  {
    var t := rs[k := row];
    forall i, j | 0 <= i < j < |t| ensures t[i].id != t[j].id && t[i].slug != t[j].slug {
    }
  }

  /** With distinct ids the update statement rewrites exactly the one row with the id. */
  lemma UpdatedRowsReplaceOne(rs: seq<Resource>, k: nat, data: ResourceData, now: Timestamp)
    requires ResourceKeysDistinct(rs) && k < |rs|
    ensures UpdatedRows(rs, rs[k].id, data, now) == rs[k := StoredResource(EditedRow(rs[k], data, now))]
  {
    var t := UpdatedRows(rs, rs[k].id, data, now);
    forall i | 0 <= i < |rs| && i != k ensures t[i] == rs[i] {
      if i < k { assert rs[i].id != rs[k].id; } else { assert rs[k].id != rs[i].id; }
    }
  }

  /** A row the database accepts fits its columns, names an existing category and clashes with no other row. */
  lemma AcceptedRowFits(cats: seq<Category>, others: seq<Resource>, row: Resource)
    requires ResourceRowError(cats, others, row).None?
    ensures var stored := StoredResource(row);
      && ResourceFits(stored) && (stored.categoryId.Some? ==> HasCategory(cats, stored.categoryId.value))
      && forall x :: x in others ==> x.id != stored.id && x.slug != stored.slug
  {
  }

  /** A row that clashes with no row of another id clashes with no row other than the one at `k`. */
  lemma NoClashOutsideRow(rs: seq<Resource>, k: nat, row: Resource)
    requires ResourceKeysDistinct(rs) && k < |rs|
    requires forall x :: x in WithoutResource(rs, rs[k].id) ==> x.id != row.id && x.slug != row.slug
    ensures forall i :: 0 <= i < |rs| && i != k ==> rs[i].id != row.id && rs[i].slug != row.slug
  {
    forall i | 0 <= i < |rs| && i != k ensures rs[i].id != row.id && rs[i].slug != row.slug {
      if i < k { assert rs[i].id != rs[k].id; } else { assert rs[k].id != rs[i].id; }
      assert rs[i] in WithoutResource(rs, rs[k].id);
    }
  }

  /** An update the database accepts keeps every schema constraint. */
  lemma UpdateKeepsWellFormed(cats: seq<Category>, rs: seq<Resource>, id: Id, data: ResourceData, now: Timestamp)
    requires ResourcesWellFormed(cats, rs)
    requires UpdateResourceStatement(cats, rs, id, data, now).Ok?
    ensures ResourcesWellFormed(cats, UpdateResourceStatement(cats, rs, id, data, now).value)
  {
    var found := FindResource(rs, id);
    if found.Some? {
      var k :| 0 <= k < |rs| && rs[k] == found.value;
      var row := StoredResource(EditedRow(rs[k], data, now));
      AcceptedRowFits(cats, WithoutResource(rs, id), EditedRow(rs[k], data, now));
      NoClashOutsideRow(rs, k, row);
      ReplaceRowKeepsWellFormed(cats, rs, k, row);
      UpdatedRowsReplaceOne(rs, k, data, now);
    }
  }

  lemma ResourceKeysDistinctTail(rs: seq<Resource>)
    requires rs != [] && ResourceKeysDistinct(rs)
    ensures ResourceKeysDistinct(rs[1..])
  {
    var tail := rs[1..];
    forall i, j | 0 <= i < j < |tail| ensures tail[i].id != tail[j].id && tail[i].slug != tail[j].slug {
      assert tail[i] == rs[i + 1] && tail[j] == rs[j + 1];
    }
  }

  lemma ResourceKeysDistinctCons(r: Resource, rest: seq<Resource>)
    requires ResourceKeysDistinct(rest)
    requires forall j :: 0 <= j < |rest| ==> r.id != rest[j].id && r.slug != rest[j].slug
    ensures ResourceKeysDistinct([r] + rest)
  {
    var t := [r] + rest;
    forall i, j | 0 <= i < j < |t| ensures t[i].id != t[j].id && t[i].slug != t[j].slug {
      if i > 0 {
        assert t[i] == rest[i - 1] && t[j] == rest[j - 1];
      } else {
        assert t[j] == rest[j - 1];
      }
    }
  }

  lemma {:induction false} WithoutResourceKeysDistinct(rs: seq<Resource>, id: Id)
    requires ResourceKeysDistinct(rs)
    ensures ResourceKeysDistinct(WithoutResource(rs, id))
    decreases |rs|
  {
    if rs != [] {
      var tail := rs[1..];
      ResourceKeysDistinctTail(rs);
      WithoutResourceKeysDistinct(tail, id);
      if rs[0].id != id {
        var rest := WithoutResource(tail, id);
        forall j | 0 <= j < |rest| ensures rs[0].id != rest[j].id && rs[0].slug != rest[j].slug {
          assert rest[j] in tail;
          var k :| 0 <= k < |tail| && tail[k] == rest[j];
          assert rs[k + 1] == rest[j];
        }
        ResourceKeysDistinctCons(rs[0], rest);
      }
    }
  }

  lemma {:induction false} WithoutResourceCount(rs: seq<Resource>, id: Id)
    requires ResourceKeysDistinct(rs)
    ensures |WithoutResource(rs, id)| == if exists i :: 0 <= i < |rs| && rs[i].id == id then |rs| - 1 else |rs|
    decreases |rs|
  {
    if rs != [] {
      var tail := rs[1..];
      ResourceKeysDistinctTail(rs);
      WithoutResourceCount(tail, id);
      if rs[0].id == id {
        forall i | 0 <= i < |tail| ensures tail[i].id != id {
          assert tail[i] == rs[i + 1];
        }
      } else if exists i :: 0 <= i < |rs| && rs[i].id == id {
        var i :| 0 <= i < |rs| && rs[i].id == id;
        assert tail[i - 1].id == id;
      } else {
        forall i | 0 <= i < |tail| ensures tail[i].id != id {
          assert tail[i] == rs[i + 1];
        }
      }
    }
  }

  /**
   * Deleting a resource removes the row with that id (one row, or none when
   * the id is absent), keeps every other row, and keeps every schema constraint.
   */
  lemma DeleteResourceRemovesExactlyThatRow(cats: seq<Category>, rs: seq<Resource>, id: Id)
    requires ResourcesWellFormed(cats, rs)
    ensures |WithoutResource(rs, id)| == if exists i :: 0 <= i < |rs| && rs[i].id == id then |rs| - 1 else |rs|
    ensures ResourcesWellFormed(cats, WithoutResource(rs, id))
  {
    var r := WithoutResource(rs, id);
    WithoutResourceKeysDistinct(rs, id);
    WithoutResourceCount(rs, id);
    forall i | 0 <= i < |r| ensures ResourceFits(r[i]) && (r[i].categoryId.Some? ==> HasCategory(cats, r[i].categoryId.value)) {
      assert r[i] in rs;
      var k :| 0 <= k < |rs| && rs[k] == r[i];
    }
  }

  /** Deleting a resource twice is the same as deleting it once. */
  lemma DeleteResourceIdempotent(rs: seq<Resource>, id: Id)
    ensures WithoutResource(WithoutResource(rs, id), id) == WithoutResource(rs, id)
  {
  }

  lemma CategoryKeysDistinctTail(cats: seq<Category>)
    requires cats != [] && CategoryKeysDistinct(cats)
    ensures CategoryKeysDistinct(cats[1..])
  {
    var tail := cats[1..];
    forall i, j | 0 <= i < j < |tail| ensures tail[i].id != tail[j].id && tail[i].slug != tail[j].slug {
      assert tail[i] == cats[i + 1] && tail[j] == cats[j + 1];
    }
  }

  lemma CategoryKeysDistinctCons(c: Category, rest: seq<Category>)
    requires CategoryKeysDistinct(rest)
    requires forall j :: 0 <= j < |rest| ==> c.id != rest[j].id && c.slug != rest[j].slug
    ensures CategoryKeysDistinct([c] + rest)
  {
    var t := [c] + rest;
    forall i, j | 0 <= i < j < |t| ensures t[i].id != t[j].id && t[i].slug != t[j].slug {
      if i > 0 {
        assert t[i] == rest[i - 1] && t[j] == rest[j - 1];
      } else {
        assert t[j] == rest[j - 1];
      }
    }
  }

  lemma {:induction false} WithoutCategoryKeysDistinct(cats: seq<Category>, id: Id)
    requires CategoryKeysDistinct(cats)
    ensures CategoryKeysDistinct(WithoutCategory(cats, id))
    decreases |cats|
  {
    if cats != [] {
      var tail := cats[1..];
      CategoryKeysDistinctTail(cats);
      WithoutCategoryKeysDistinct(tail, id);
      if cats[0].id != id {
        var rest := WithoutCategory(tail, id);
        forall j | 0 <= j < |rest| ensures cats[0].id != rest[j].id && cats[0].slug != rest[j].slug {
          assert rest[j] in tail;
          var k :| 0 <= k < |tail| && tail[k] == rest[j];
          assert cats[k + 1] == rest[j];
        }
        CategoryKeysDistinctCons(cats[0], rest);
      }
    }
  }

  /** Deleting a category leaves the other categories well formed. */
  lemma WithoutCategoryKeepsWellFormed(cats: seq<Category>, id: Id)
    requires CategoriesWellFormed(cats)
    ensures CategoriesWellFormed(WithoutCategory(cats, id))
  {
    var r := WithoutCategory(cats, id);
    WithoutCategoryKeysDistinct(cats, id);
    forall i | 0 <= i < |r| ensures CategoryFits(r[i]) {
      assert r[i] in cats;
      var k :| 0 <= k < |cats| && cats[k] == r[i];
    }
  }

  /** Without the first step, deleting a category that a resource still references would fail. */
  lemma DeleteReferencedCategoryFails(cats: seq<Category>, rs: seq<Resource>, id: Id)
    requires HasCategory(cats, id)
    requires exists i :: 0 <= i < |rs| && rs[i].categoryId == Some(id)
    ensures DeleteCategoryStatement(cats, rs, id).Err?
  {
  }

  /** After the first step no reference remains, so the second step cannot fail. */
  lemma DetachedCategoryDeletes(cats: seq<Category>, rs: seq<Resource>, id: Id)
    ensures DeleteCategoryStatement(cats, DetachCategory(rs, id), id) == Ok(WithoutCategory(cats, id))
  {
  }

  /**
   * deleteCategory preserves referential integrity: if every category
   * reference named an existing category before, it still does after, and the
   * deleted category is referenced by no resource.
   */
  lemma DeleteCategoryKeepsIntegrity(admins: seq<Admin>, cats: seq<Category>, rs: seq<Resource>, id: Id)
    requires WellFormed(admins, cats, rs)
    ensures var cats', rs' := WithoutCategory(cats, id), DetachCategory(rs, id);
      && WellFormed(admins, cats', rs')
      && !HasCategory(cats', id)
      && forall i :: 0 <= i < |rs'| ==> rs'[i].categoryId != Some(id)
  {
    var cats', rs' := WithoutCategory(cats, id), DetachCategory(rs, id);
    WithoutCategoryKeepsWellFormed(cats, id);
    forall i | 0 <= i < |rs'| && rs'[i].categoryId.Some? ensures HasCategory(cats', rs'[i].categoryId.value) {
      var c := rs'[i].categoryId.value;
      assert rs[i].categoryId == Some(c) && c != id;
      var k :| 0 <= k < |cats| && cats[k].id == c;
      assert cats[k] in cats';
      var k' :| 0 <= k' < |cats'| && cats'[k'] == cats[k];
    }
    forall i, j | 0 <= i < j < |rs'| ensures rs'[i].id != rs'[j].id && rs'[i].slug != rs'[j].slug {
      assert rs'[i].id == rs[i].id && rs'[j].id == rs[j].id;
    }
    forall i | 0 <= i < |rs'| ensures ResourceFits(rs'[i]) {
      assert ResourceFits(rs[i]);
    }
    forall k | 0 <= k < |cats'| ensures cats'[k].id != id {
      assert cats'[k] in cats';
    }
  }

  /** deleteCategory keeps every other category and every resource that did not reference it. */
  lemma DeleteCategoryFrame(cats: seq<Category>, rs: seq<Resource>, id: Id, c: Category, i: nat)
    requires c in cats && c.id != id
    requires i < |rs| && rs[i].categoryId != Some(id)
    ensures c in WithoutCategory(cats, id)
    ensures DetachCategory(rs, id)[i] == rs[i]
  {
  }

  // ---------------------------------------------------------------- the store

  class ContentStore {
    var admins: seq<Admin>
    var categories: seq<Category>
    var resources: seq<Resource>

    ghost predicate Valid()
      reads this
    {
      WellFormed(admins, categories, resources)
    }

    constructor (admins: seq<Admin>, categories: seq<Category>, resources: seq<Resource>)
      requires WellFormed(admins, categories, resources)
      ensures Valid()
      ensures this.admins == admins && this.categories == categories && this.resources == resources
    {
      this.admins := admins;
      this.categories := categories;
      this.resources := resources;
    }

    /** getResource: the row with that id, or nothing. */
    function GetResource(id: Id): (r: Option<Resource>)
      requires Valid()
      reads this
      ensures r.None? <==> forall i :: 0 <= i < |resources| ==> resources[i].id != id
      ensures forall i :: 0 <= i < |resources| && resources[i].id == id ==> r == Some(resources[i])
    {
      var found := FindResource(resources, id);
      assert found.Some? ==> exists k :: 0 <= k < |resources| && resources[k] == found.value;
      found
    }

    method CreateResource(data: ResourceData, newId: Id, now: Timestamp) returns (error: Option<DbError>, paths: seq<string>)
      requires Valid()
      modifies this
      ensures Valid()
      ensures admins == old(admins) && categories == old(categories)
      ensures var st := InsertResourceStatement(old(categories), old(resources), NewResourceRow(newId, data, now));
        && (st.Ok? ==> error.None? && resources == st.value && paths == [HomePath, DashboardPath])
        && (st.Err? ==> error == Some(st.error) && resources == old(resources) && paths == [])
    {
      var st := InsertResourceStatement(categories, resources, NewResourceRow(newId, data, now));
      if st.Err? {
        return Some(st.error), [];
      }
      InsertResourceKeepsWellFormed(admins, categories, resources, NewResourceRow(newId, data, now));
      resources := st.value;
      error := None;
      paths := [HomePath];
      paths := paths + [DashboardPath];
    }

    method UpdateResource(id: Id, data: ResourceData, now: Timestamp) returns (error: Option<DbError>, paths: seq<string>)
      requires Valid()
      modifies this
      ensures Valid()
      ensures admins == old(admins) && categories == old(categories)
      ensures var st := UpdateResourceStatement(old(categories), old(resources), id, data, now);
        && (st.Ok? ==> error.None? && resources == st.value && paths == [HomePath, DashboardPath, ResourcePath(data.slug)])
        && (st.Err? ==> error == Some(st.error) && resources == old(resources) && paths == [])
    {
      var st := UpdateResourceStatement(categories, resources, id, data, now);
      if st.Err? {
        return Some(st.error), [];
      }
      UpdateKeepsWellFormed(categories, resources, id, data, now);
      resources := st.value;
      error := None;
      paths := [HomePath];
      paths := paths + [DashboardPath];
      paths := paths + [ResourcePath(data.slug)];
    }

    method DeleteResource(id: Id) returns (paths: seq<string>)
      requires Valid()
      modifies this
      ensures Valid()
      ensures admins == old(admins) && categories == old(categories)
      ensures resources == WithoutResource(old(resources), id)
      ensures paths == [HomePath, DashboardPath]
    {
      DeleteResourceRemovesExactlyThatRow(categories, resources, id);
      resources := WithoutResource(resources, id);
      paths := [HomePath];
      paths := paths + [DashboardPath];
    }

    method CreateCategory(data: CategoryData, newId: Id, now: Timestamp) returns (error: Option<DbError>, paths: seq<string>)
      requires Valid()
      modifies this
      ensures Valid()
      ensures admins == old(admins) && resources == old(resources)
      ensures var st := InsertCategoryStatement(old(categories), NewCategoryRow(newId, data, now));
        && (st.Ok? ==> error.None? && categories == st.value && paths == [DashboardPath])
        && (st.Err? ==> error == Some(st.error) && categories == old(categories) && paths == [])
    {
      var st := InsertCategoryStatement(categories, NewCategoryRow(newId, data, now));
      if st.Err? {
        return Some(st.error), [];
      }
      CategoryRowErrorExact(categories, NewCategoryRow(newId, data, now));
      ReferencesStillValid(categories, st.value, resources);
      categories := st.value;
      error := None;
      paths := [DashboardPath];
    }

    /** Two statements: null out every reference to the category, then delete its row. */
    method DeleteCategory(id: Id) returns (paths: seq<string>)
      requires Valid()
      modifies this
      ensures Valid()
      ensures admins == old(admins)
      ensures resources == DetachCategory(old(resources), id)
      ensures categories == WithoutCategory(old(categories), id)
      ensures paths == [HomePath, DashboardPath]
    {
      DeleteCategoryKeepsIntegrity(admins, categories, resources, id);
      resources := DetachCategory(resources, id);
      var st := DeleteCategoryStatement(categories, resources, id);
      DetachedCategoryDeletes(categories, old(resources), id);
      categories := st.value;
      paths := [HomePath];
      paths := paths + [DashboardPath];
    }
  }

  /** Adding categories never breaks an existing reference. */
  lemma ReferencesStillValid(cats: seq<Category>, cats': seq<Category>, rs: seq<Resource>)
    requires ReferencesValid(cats, rs)
    requires forall c :: c in cats ==> c in cats'
    ensures ReferencesValid(cats', rs)
  {
    forall i | 0 <= i < |rs| && rs[i].categoryId.Some? ensures HasCategory(cats', rs[i].categoryId.value) {
      var k :| 0 <= k < |cats| && cats[k].id == rs[i].categoryId.value;
      assert cats[k] in cats';
      var k' :| 0 <= k' < |cats'| && cats'[k'] == cats[k];
    }
  }
}
