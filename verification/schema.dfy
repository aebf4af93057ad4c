/**
 * The three tables of the content store (admins, categories, resources):
 * record shapes, column defaults, and the constraints the database enforces
 * (primary keys, unique columns, the nullable foreign key from a resource to
 * its category, and varchar length bounds). A table is a sequence of rows in
 * storage order.
 */
module Schema {
  import opened Common

  /** A uuid primary key, kept as its text form. */
  type Id = string

  /** A point in time, in milliseconds. */
  type Timestamp = int

  // varchar bounds of the columns that have one
  const EmailMaxLength := 255
  const AdminNameMaxLength := 255
  const CategoryNameMaxLength := 100
  const CategorySlugMaxLength := 100
  const ColorMaxLength := 7
  const TitleMaxLength := 255
  const ResourceSlugMaxLength := 255
  const TypeMaxLength := 50
  const AuthorMaxLength := 100

  // column defaults
  const DefaultResourceType := "guide"
  const DefaultCategoryColor := "#ef4444"

  datatype Admin = Admin(id: Id, email: string, passwordHash: string, name: Option<string>, createdAt: Timestamp)

  datatype Category = Category(id: Id, name: string, slug: string, color: Option<string>, createdAt: Timestamp)

  /** `kind` is the `type` column (guide, video, document, link, download; not an enum in the database). */
  datatype Resource = Resource(
    id: Id,
    title: string,
    slug: string,
    description: Option<string>,
    content: Option<string>,
    thumbnail: Option<string>,
    kind: string,
    categoryId: Option<Id>,
    externalUrl: Option<string>,
    author: Option<string>,
    published: Option<Timestamp>,
    createdAt: Timestamp,
    updatedAt: Timestamp)

  /** A column value in an INSERT: left out (so the column default applies) or given. */
  datatype Supplied<T> = Omitted | Given(value: T)

  /** The errors the database raises when a write would break a constraint. */
  datatype DbError =
    | InvalidByteSequence
    | ValueTooLong(limit: nat)
    | UniqueViolation(constraint: string)
    | ForeignKeyViolation(constraint: string)

  const ResourcesPkey := "resources_pkey"
  const ResourcesSlugUnique := "resources_slug_unique"
  const ResourceCategoryFk := "resources_category_id_categories_id_fk"
  const CategoriesPkey := "categories_pkey"
  const CategoriesSlugUnique := "categories_slug_unique"

  predicate FitsVarchar(o: Option<string>, limit: nat)
  {
    o.Some? ==> |o.value| <= limit
  }

  // ---------------------------------------------------------------- column values

  /** A text value PostgreSQL can hold: its encoding has no NUL character. */
  predicate NulFree(s: string)
  {
    forall i :: 0 <= i < |s| ==> s[i] != '\0'
  }

  predicate OptNulFree(o: Option<string>)
  {
    o.Some? ==> NulFree(o.value)
  }

  /**
   * Assigning `s` to a `varchar(limit)` column is allowed when `s` fits or when
   * every character past the limit is a space.
   */
  predicate VarcharAccepts(s: string, limit: nat)
  {
    forall i :: limit <= i < |s| ==> s[i] == ' '
  }

  predicate OptVarcharAccepts(o: Option<string>, limit: nat)
  {
    o.Some? ==> VarcharAccepts(o.value, limit)
  }

  /**
   * The value a `varchar(limit)` column stores for `s`: `s` itself when it fits,
   * otherwise its first `limit` characters, so that an accepted value loses only
   * trailing spaces.
   */
  function Varchar(s: string, limit: nat): (t: string)
    ensures |t| <= limit && |t| <= |s| && t == s[..|t|]
    ensures |s| <= limit ==> t == s
    ensures VarcharAccepts(s, limit) ==> forall i :: |t| <= i < |s| ==> s[i] == ' '
    ensures NulFree(s) ==> NulFree(t)
  {
    if |s| <= limit then s else s[..limit]
  }

  /** A value padded with spaces past the column's length is accepted, and stored without the padding. */
  lemma PaddedValueStoredUnpadded(s: string, pad: nat, limit: nat)
    requires |s| <= limit
    ensures VarcharAccepts(s + seq(pad, _ => ' '), limit)
    ensures |s| + pad > limit ==> Varchar(s + seq(pad, _ => ' '), limit) == s + seq(limit - |s|, _ => ' ')
    ensures |s| == limit ==> Varchar(s + seq(pad, _ => ' '), limit) == s
  {
    var t := s + seq(pad, _ => ' ');
    forall i | limit <= i < |t| ensures t[i] == ' ' {
      assert t[i] == seq(pad, _ => ' ')[i - |s|];
    }
    if |t| > limit {
      assert t[..limit] == s + seq(limit - |s|, _ => ' ');
    }
  }

  function OptVarchar(o: Option<string>, limit: nat): (p: Option<string>)
    ensures p.None? <==> o.None?
    ensures o.Some? ==> p.value == Varchar(o.value, limit)
  {
    if o.None? then None else Some(Varchar(o.value, limit))
  }

  predicate AdminFits(a: Admin)
  {
    |a.email| <= EmailMaxLength && FitsVarchar(a.name, AdminNameMaxLength)
  }

  predicate CategoryTextNulFree(c: Category)
  {
    NulFree(c.name) && NulFree(c.slug) && OptNulFree(c.color)
  }

  predicate CategoryFits(c: Category)
  {
    && |c.name| <= CategoryNameMaxLength
    && |c.slug| <= CategorySlugMaxLength
    && FitsVarchar(c.color, ColorMaxLength)
    && CategoryTextNulFree(c)
  }

  /** The text columns of a resource (the uuid columns aside) hold no NUL. */
  predicate ResourceTextNulFree(r: Resource)
  {
    && NulFree(r.title) && NulFree(r.slug) && OptNulFree(r.description) && OptNulFree(r.content)
    && OptNulFree(r.thumbnail) && NulFree(r.kind) && OptNulFree(r.externalUrl) && OptNulFree(r.author)
  }

  predicate ResourceFits(r: Resource)
  {
    && |r.title| <= TitleMaxLength
    && |r.slug| <= ResourceSlugMaxLength
    && |r.kind| <= TypeMaxLength
    && FitsVarchar(r.author, AuthorMaxLength)
    && ResourceTextNulFree(r)
  }

  /** The database takes every value of the resource row: no NUL, and each varchar value accepted. */
  predicate ResourceValuesAccepted(r: Resource)
  {
    && ResourceTextNulFree(r)
    && VarcharAccepts(r.title, TitleMaxLength) && VarcharAccepts(r.slug, ResourceSlugMaxLength)
    && VarcharAccepts(r.kind, TypeMaxLength) && OptVarcharAccepts(r.author, AuthorMaxLength)
  }

  predicate CategoryValuesAccepted(c: Category)
  {
    && CategoryTextNulFree(c)
    && VarcharAccepts(c.name, CategoryNameMaxLength) && VarcharAccepts(c.slug, CategorySlugMaxLength)
    && OptVarcharAccepts(c.color, ColorMaxLength)
  }

  /** The resource row as stored: each varchar value cut to its column's length. */
  function StoredResource(r: Resource): (s: Resource)
    ensures ResourceValuesAccepted(r) ==> ResourceFits(s)
    ensures ResourceFits(r) ==> s == r
  {
    r.(title := Varchar(r.title, TitleMaxLength), slug := Varchar(r.slug, ResourceSlugMaxLength),
       kind := Varchar(r.kind, TypeMaxLength), author := OptVarchar(r.author, AuthorMaxLength))
  }

  /** The category row as stored: each varchar value cut to its column's length. */
  function StoredCategory(c: Category): (s: Category)
    ensures CategoryValuesAccepted(c) ==> CategoryFits(s)
    ensures CategoryFits(c) ==> s == c
  {
    c.(name := Varchar(c.name, CategoryNameMaxLength), slug := Varchar(c.slug, CategorySlugMaxLength),
       color := OptVarchar(c.color, ColorMaxLength))
  }

  /** Every admin row fits its columns; the primary key and the unique email each name one row. */
  predicate AdminsWellFormed(admins: seq<Admin>)
  {
    && (forall i :: 0 <= i < |admins| ==> AdminFits(admins[i]))
    && (forall i, j :: 0 <= i < j < |admins| ==> admins[i].id != admins[j].id)
    && (forall i, j :: 0 <= i < j < |admins| ==> admins[i].email != admins[j].email)
  }

  /** Primary key and unique slug: no two category rows share an id or a slug. */
  predicate CategoryKeysDistinct(cats: seq<Category>)
  {
    forall i, j :: 0 <= i < j < |cats| ==> cats[i].id != cats[j].id && cats[i].slug != cats[j].slug
  }

  /** Every category row fits its columns, so the table holds each row as written. */
  predicate CategoriesWellFormed(cats: seq<Category>)
  {
    && (forall i :: 0 <= i < |cats| ==> CategoryFits(cats[i]))
    && CategoryKeysDistinct(cats)
  }

  predicate HasCategory(cats: seq<Category>, id: Id)
  {
    exists i :: 0 <= i < |cats| && cats[i].id == id
  }

  /** Referential integrity: every non-null category reference names an existing category. */
  predicate ReferencesValid(cats: seq<Category>, rs: seq<Resource>)
  {
    forall i :: 0 <= i < |rs| && rs[i].categoryId.Some? ==> HasCategory(cats, rs[i].categoryId.value)
  }

  /** Primary key and unique slug: no two resource rows share an id or a slug. */
  predicate ResourceKeysDistinct(rs: seq<Resource>)
  {
    forall i, j :: 0 <= i < j < |rs| ==> rs[i].id != rs[j].id && rs[i].slug != rs[j].slug
  }

  /** Every resource row fits its columns, so the table holds each row as written. */
  predicate ResourcesWellFormed(cats: seq<Category>, rs: seq<Resource>)
  {
    && (forall i :: 0 <= i < |rs| ==> ResourceFits(rs[i]))
    && ResourceKeysDistinct(rs)
    && ReferencesValid(cats, rs)
  }

  /** Every constraint the schema declares holds of the three tables. */
  predicate WellFormed(admins: seq<Admin>, cats: seq<Category>, rs: seq<Resource>)
  {
    AdminsWellFormed(admins) && CategoriesWellFormed(cats) && ResourcesWellFormed(cats, rs)
  }

  /** The category row an INSERT produces; an omitted color takes the column default. */
  function InsertedCategory(id: Id, name: string, slug: string, color: Supplied<Option<string>>, now: Timestamp): (c: Category)
    ensures c.id == id && c.name == name && c.slug == slug && c.createdAt == now
    ensures color.Omitted? ==> c.color == Some(DefaultCategoryColor)
    ensures color.Given? ==> c.color == color.value
  {
    Category(id, name, slug, if color.Given? then color.value else Some(DefaultCategoryColor), now)
  }

  /** The resource row an INSERT produces: an omitted type is "guide"; the three timestamps are the insertion time. */
  function InsertedResource(
    id: Id, title: string, slug: string, description: Option<string>, content: Option<string>,
    thumbnail: Option<string>, kind: Supplied<string>, categoryId: Option<Id>,
    externalUrl: Option<string>, author: Option<string>, now: Timestamp): (r: Resource)
    ensures r.id == id && r.title == title && r.slug == slug && r.categoryId == categoryId
    ensures r.description == description && r.content == content && r.thumbnail == thumbnail
    ensures r.externalUrl == externalUrl && r.author == author
    ensures kind.Omitted? ==> r.kind == DefaultResourceType
    ensures kind.Given? ==> r.kind == kind.value
    ensures r.published == Some(now) && r.createdAt == now && r.updatedAt == now
  {
    Resource(id, title, slug, description, content, thumbnail,
             if kind.Given? then kind.value else DefaultResourceType,
             categoryId, externalUrl, author, Some(now), now, now)
  }

  /**
   * The error the database raises for writing `row` into a resources table whose
   * other rows are `others`: a NUL in a text value, then a varchar value too
   * long (in column order), then the primary key, then the unique slug, then
   * the foreign key, the keys checked on the row as stored; None when every
   * constraint holds.
   */
  function ResourceRowError(cats: seq<Category>, others: seq<Resource>, row: Resource): (e: Option<DbError>)
    ensures e == Some(InvalidByteSequence) <==> !ResourceTextNulFree(row)
    ensures e.Some? && e.value.ValueTooLong? ==> !ResourceValuesAccepted(row)
    ensures e.Some? && e.value.UniqueViolation? ==>
      exists i :: 0 <= i < |others| && (others[i].id == row.id || others[i].slug == StoredResource(row).slug)
    ensures e.Some? && e.value.ForeignKeyViolation? ==> row.categoryId.Some? && !HasCategory(cats, row.categoryId.value)
    ensures e.None? ==> ResourceValuesAccepted(row) && ResourceFits(StoredResource(row))
  {
    if !ResourceTextNulFree(row) then Some(InvalidByteSequence)
    else if !VarcharAccepts(row.title, TitleMaxLength) then Some(ValueTooLong(TitleMaxLength))
    else if !VarcharAccepts(row.slug, ResourceSlugMaxLength) then Some(ValueTooLong(ResourceSlugMaxLength))
    else if !VarcharAccepts(row.kind, TypeMaxLength) then Some(ValueTooLong(TypeMaxLength))
    else if !OptVarcharAccepts(row.author, AuthorMaxLength) then Some(ValueTooLong(AuthorMaxLength))
    else
      var stored := StoredResource(row);
      if exists i :: 0 <= i < |others| && others[i].id == stored.id then Some(UniqueViolation(ResourcesPkey))
      else if exists i :: 0 <= i < |others| && others[i].slug == stored.slug then Some(UniqueViolation(ResourcesSlugUnique))
      else if stored.categoryId.Some? && !HasCategory(cats, stored.categoryId.value) then Some(ForeignKeyViolation(ResourceCategoryFk))
      else None
  }

  /** Same for a category row written beside `others`. */
  function CategoryRowError(others: seq<Category>, row: Category): (e: Option<DbError>)
    ensures e == Some(InvalidByteSequence) <==> !CategoryTextNulFree(row)
    ensures e.Some? && e.value.ValueTooLong? ==> !CategoryValuesAccepted(row)
    ensures e.Some? && e.value.UniqueViolation? ==>
      exists i :: 0 <= i < |others| && (others[i].id == row.id || others[i].slug == StoredCategory(row).slug)
    ensures e.None? ==> CategoryValuesAccepted(row) && CategoryFits(StoredCategory(row))
  {
    if !CategoryTextNulFree(row) then Some(InvalidByteSequence)
    else if !VarcharAccepts(row.name, CategoryNameMaxLength) then Some(ValueTooLong(CategoryNameMaxLength))
    else if !VarcharAccepts(row.slug, CategorySlugMaxLength) then Some(ValueTooLong(CategorySlugMaxLength))
    else if !OptVarcharAccepts(row.color, ColorMaxLength) then Some(ValueTooLong(ColorMaxLength))
    else
      var stored := StoredCategory(row);
      if exists i :: 0 <= i < |others| && others[i].id == stored.id then Some(UniqueViolation(CategoriesPkey))
      else if exists i :: 0 <= i < |others| && others[i].slug == stored.slug then Some(UniqueViolation(CategoriesSlugUnique))
      else None
  }

  /**
   * The database accepts a new resource row exactly when the table with that row
   * appended still meets every constraint.
   */
  lemma ResourceRowErrorExact(admins: seq<Admin>, cats: seq<Category>, rs: seq<Resource>, row: Resource)
    requires WellFormed(admins, cats, rs)
    ensures ResourceRowError(cats, rs, row).None? <==>
      ResourceValuesAccepted(row) && WellFormed(admins, cats, rs + [StoredResource(row)])
  {
    var t := rs + [StoredResource(row)];
    if ResourceRowError(cats, rs, row).None? {
      forall i, j | 0 <= i < j < |t| ensures t[i].id != t[j].id && t[i].slug != t[j].slug {
        if j == |rs| {
          assert t[i] == rs[i];
        }
      }
      forall i | 0 <= i < |t| && t[i].categoryId.Some? ensures HasCategory(cats, t[i].categoryId.value) {
        if i < |rs| {
          assert t[i] == rs[i];
        }
      }
    } else if ResourceValuesAccepted(row) && WellFormed(admins, cats, t) {
      var stored := StoredResource(row);
      assert t[|rs|] == stored;
      forall i | 0 <= i < |rs| ensures rs[i].id != stored.id && rs[i].slug != stored.slug {
        assert t[i] == rs[i];
      }
    }
  }

  /** The database accepts a new category row exactly when the table with it appended meets every constraint. */
  lemma CategoryRowErrorExact(cats: seq<Category>, row: Category)
    requires CategoriesWellFormed(cats)
    ensures CategoryRowError(cats, row).None? <==>
      CategoryValuesAccepted(row) && CategoriesWellFormed(cats + [StoredCategory(row)])
  {
    var t := cats + [StoredCategory(row)];
    if CategoryRowError(cats, row).None? {
      forall i, j | 0 <= i < j < |t| ensures t[i].id != t[j].id && t[i].slug != t[j].slug {
        if j == |cats| {
          assert t[i] == cats[i];
        }
      }
    } else if CategoryValuesAccepted(row) && CategoriesWellFormed(t) {
      var stored := StoredCategory(row);
      assert t[|cats|] == stored;
      forall i | 0 <= i < |cats| ensures cats[i].id != stored.id && cats[i].slug != stored.slug {
        assert t[i] == cats[i];
      }
    }
  }

  /** The empty store (a freshly migrated database) meets every constraint. */
  lemma EmptyStoreWellFormed()
    ensures WellFormed([], [], [])
  {
  }

  /** In a well-formed admins table the id names one row, and so does the email. */
  lemma AdminKeysIdentifyRow(admins: seq<Admin>, i: nat, j: nat)
    requires AdminsWellFormed(admins)
    requires i < |admins| && j < |admins| && (admins[i].id == admins[j].id || admins[i].email == admins[j].email)
    ensures i == j
  {
  }

  /** In a well-formed categories table the id names one row, and so does the slug. */
  lemma CategoryKeysIdentifyRow(cats: seq<Category>, i: nat, j: nat)
    requires CategoriesWellFormed(cats)
    requires i < |cats| && j < |cats| && (cats[i].id == cats[j].id || cats[i].slug == cats[j].slug)
    ensures i == j
  {
  }

  /** In a well-formed resources table the id names one resource, and so does the slug. */
  lemma ResourceKeysIdentifyRow(cats: seq<Category>, rs: seq<Resource>, i: nat, j: nat)
    requires ResourcesWellFormed(cats, rs)
    requires i < |rs| && j < |rs| && (rs[i].id == rs[j].id || rs[i].slug == rs[j].slug)
    ensures i == j
  {
  }

  /** Every row of a well-formed store already fits its columns, so storing it again changes nothing. */
  lemma WellFormedRowsStoredAsWritten(admins: seq<Admin>, cats: seq<Category>, rs: seq<Resource>)
    requires WellFormed(admins, cats, rs)
    ensures forall i :: 0 <= i < |cats| ==> StoredCategory(cats[i]) == cats[i]
    ensures forall i :: 0 <= i < |rs| ==> StoredResource(rs[i]) == rs[i]
  {
  }

  /** Referential integrity, said of rows rather than positions: each referenced category is a row of the table. */
  lemma ReferencesValidByMembership(cats: seq<Category>, rs: seq<Resource>)
    ensures ReferencesValid(cats, rs) <==>
      forall r :: r in rs && r.categoryId.Some? ==> exists c :: c in cats && c.id == r.categoryId.value
  {
    if ReferencesValid(cats, rs) {
      forall r | r in rs && r.categoryId.Some? ensures exists c :: c in cats && c.id == r.categoryId.value {
        var i :| 0 <= i < |rs| && rs[i] == r;
        var k :| 0 <= k < |cats| && cats[k].id == r.categoryId.value;
        assert cats[k] in cats;
      }
    } else {
      var i :| 0 <= i < |rs| && rs[i].categoryId.Some? && !HasCategory(cats, rs[i].categoryId.value);
      assert rs[i] in rs;
      forall c | c in cats ensures c.id != rs[i].categoryId.value {
        var k :| 0 <= k < |cats| && cats[k] == c;
      }
    }
  }
}
