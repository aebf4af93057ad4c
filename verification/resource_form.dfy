/**
 * The state of the admin resource form: the field values it holds, how the
 * title field drives the slug, how a stored resource is loaded for editing,
 * and which action a submission calls.
 */
module ResourceFormState {
  import opened Common
  import opened Schema
  import opened Actions
  import opened Slug

  /** The form's fields when it opens: all empty, the type "guide". */
  const InitialFormData := ResourceData("", "", "", "", "", "guide", "", "", "")

  /** The load mapping of the edit effect: title, slug and type verbatim, each null column as "". */
  function LoadedFormData(r: Resource): (d: ResourceData)
    ensures d.title == r.title && d.slug == r.slug && d.kind == r.kind
    ensures d.description == EmptyIfNull(r.description) && d.content == EmptyIfNull(r.content)
    ensures d.thumbnail == EmptyIfNull(r.thumbnail) && d.categoryId == EmptyIfNull(r.categoryId)
    ensures d.externalUrl == EmptyIfNull(r.externalUrl) && d.author == EmptyIfNull(r.author)
  {
    ResourceData(r.title, r.slug, EmptyIfNull(r.description), EmptyIfNull(r.content), EmptyIfNull(r.thumbnail),
                 r.kind, EmptyIfNull(r.categoryId), EmptyIfNull(r.externalUrl), EmptyIfNull(r.author))
  }

  /**
   * Saving an untouched edit form writes the row back as it was, apart from
   * `updatedAt`: the load's null-to-"" and the update's ""-to-null cancel out
   * for every row the actions wrote.
   */
  lemma SaveUntouchedFormRoundTrip(r: Resource, now: Timestamp)
    requires NoStoredEmptyStrings(r)
    ensures EditedRow(r, LoadedFormData(r), now) == r.(updatedAt := now)
  {
    NullIfEmptyUndoesEmptyIfNull(r.description);
    NullIfEmptyUndoesEmptyIfNull(r.content);
    NullIfEmptyUndoesEmptyIfNull(r.thumbnail);
    NullIfEmptyUndoesEmptyIfNull(r.categoryId);
    NullIfEmptyUndoesEmptyIfNull(r.externalUrl);
    NullIfEmptyUndoesEmptyIfNull(r.author);
  }

  /**
   * A row createResource stored, loaded into the form and saved again without
   * edits, is stored unchanged but for `updatedAt`.
   */
  lemma CreatedRowSurvivesEditRoundTrip(id: Id, data: ResourceData, created: Timestamp, saved: Timestamp)
    ensures var r := StoredResource(NewResourceRow(id, data, created));
      StoredResource(EditedRow(r, LoadedFormData(r), saved)) == r.(updatedAt := saved)
  {
    var r := StoredResource(NewResourceRow(id, data, created));
    WrittenRowsNormalised(id, data, created, r);
    SaveUntouchedFormRoundTrip(r, saved);
  }

  /** The fields whose inputs write their value straight into the form data. */
  datatype Field = SlugField | KindField | CategoryIdField | DescriptionField | ContentField
                 | ThumbnailField | ExternalUrlField | AuthorField

  function FieldOf(d: ResourceData, f: Field): string
  {
    match f
    case SlugField => d.slug
    case KindField => d.kind
    case CategoryIdField => d.categoryId
    case DescriptionField => d.description
    case ContentField => d.content
    case ThumbnailField => d.thumbnail
    case ExternalUrlField => d.externalUrl
    case AuthorField => d.author
  }

  /** `{ ...formData, [field]: value }`. */
  function WithField(d: ResourceData, f: Field, value: string): (e: ResourceData)
    ensures FieldOf(e, f) == value
    ensures forall g :: g != f ==> FieldOf(e, g) == FieldOf(d, g)
    ensures e.title == d.title
  {
    match f
    case SlugField => d.(slug := value)
    case KindField => d.(kind := value)
    case CategoryIdField => d.(categoryId := value)
    case DescriptionField => d.(description := value)
    case ContentField => d.(content := value)
    case ThumbnailField => d.(thumbnail := value)
    case ExternalUrlField => d.(externalUrl := value)
    case AuthorField => d.(author := value)
  }

  class ResourceForm {
    /** The id of the resource being edited, or null when creating. */
    const editingId: Option<Id>
    var formData: ResourceData
    var loading: bool
    var fetchingResource: bool

    /** `editingId` is truthy: set and not the empty string. */
    predicate Editing()
    {
      editingId.Some? && editingId.value != ""
    }

    constructor (editingId: Option<Id>)
      ensures this.editingId == editingId
      ensures formData == InitialFormData && !loading && !fetchingResource
    {
      this.editingId := editingId;
      formData := InitialFormData;
      loading := false;
      fetchingResource := false;
    }

    /** The effect on `editingId`: when editing, fetch the resource and load it into the form. */
    method LoadForEdit(store: ContentStore)
      requires store.Valid()
      modifies this
      ensures Editing() && store.GetResource(editingId.value).Some? ==>
                formData == LoadedFormData(store.GetResource(editingId.value).value)
      ensures !(Editing() && store.GetResource(editingId.value).Some?) ==> formData == old(formData)
      ensures fetchingResource == (if Editing() then false else old(fetchingResource))
      ensures loading == old(loading)
    {
      if Editing() {
        fetchingResource := true;
        var resource := store.GetResource(editingId.value);
        if resource.Some? {
          formData := LoadedFormData(resource.value);
        }
        fetchingResource := false;
      }
    }

    /** A new title; when creating, the slug follows it, when editing the slug is kept. */
    method HandleTitleChange(title: string)
      modifies this
      ensures formData.title == title
      ensures Editing() ==> formData.slug == old(formData.slug)
      ensures !Editing() ==> formData.slug == GenerateSlug(title) && IsSlug(formData.slug)
      ensures formData == old(formData).(title := title, slug := formData.slug)
      ensures loading == old(loading) && fetchingResource == old(fetchingResource)
    {
      var slug := if Editing() then formData.slug else GenerateSlug(title);
      formData := formData.(title := title, slug := slug);
    }

    /** An input other than the title: only that field changes, and the slug only by its own input. */
    method HandleFieldChange(f: Field, value: string)
      modifies this
      ensures formData == WithField(old(formData), f, value)
      ensures loading == old(loading) && fetchingResource == old(fetchingResource)
    {
      formData := WithField(formData, f, value);
    }

    /**
     * Submission: updateResource when editing, createResource otherwise. The
     * form closes when the action succeeds; a failure is only logged. Either
     * way loading is off afterwards.
     */
    method HandleSubmit(store: ContentStore, newId: Id, now: Timestamp) returns (closed: bool)
      requires store.Valid()
      modifies this, store
      ensures store.Valid()
      ensures formData == old(formData) && !loading && fetchingResource == old(fetchingResource)
      ensures store.admins == old(store.admins) && store.categories == old(store.categories)
      ensures Editing() ==>
        var st := UpdateResourceStatement(old(store.categories), old(store.resources), editingId.value, formData, now);
        closed == st.Ok? && store.resources == (if st.Ok? then st.value else old(store.resources))
      ensures !Editing() ==>
        var st := InsertResourceStatement(old(store.categories), old(store.resources), NewResourceRow(newId, formData, now));
        closed == st.Ok? && store.resources == (if st.Ok? then st.value else old(store.resources))
    {
      loading := true;
      var error: Option<DbError>;
      var paths: seq<string>;
      if Editing() {
        error, paths := store.UpdateResource(editingId.value, formData, now);
      } else {
        error, paths := store.CreateResource(formData, newId, now);
      }
      closed := error.None?;
      loading := false;
    }
  }
}
