/**
 * The state of the admin category form: name, slug and color, the slug
 * following the name, the color picked from a fixed palette, and submission
 * through createCategory.
 */
module CategoryFormState {
  import opened Common
  import opened Schema
  import opened Actions
  import opened Slug

  /** The palette of color buttons, in display order. */
  const ColorOptions: seq<string> := ["#ef4444", "#f97316", "#eab308", "#22c55e", "#06b6d4", "#3b82f6", "#8b5cf6", "#ec4899"]

  /** The color the form starts with. */
  const InitialColor := "#ef4444"

  predicate IsLowerHexDigit(c: char)
  {
    '0' <= c <= '9' || 'a' <= c <= 'f'
  }

  /** A "#rrggbb" color. */
  predicate IsHexColor(c: string)
  {
    |c| == 7 && c[0] == '#' && forall i :: 1 <= i < 7 ==> IsLowerHexDigit(c[i])
  }

  /** The initial color is the first palette entry and the column default. */
  lemma InitialColorIsFirstOption()
    ensures ColorOptions[0] == InitialColor == DefaultCategoryColor
  {
  }

  /** Every palette entry is a "#rrggbb" string, so it fits the 7-character color column. */
  lemma PaletteColorsAreHex()
    ensures forall i :: 0 <= i < |ColorOptions| ==> IsHexColor(ColorOptions[i]) && |ColorOptions[i]| <= ColorMaxLength
  {
    forall i | 0 <= i < |ColorOptions| ensures IsHexColor(ColorOptions[i]) {
      var c := ColorOptions[i];
      assert c[0] == '#';
      assert IsLowerHexDigit(c[1]) && IsLowerHexDigit(c[2]) && IsLowerHexDigit(c[3]);
      assert IsLowerHexDigit(c[4]) && IsLowerHexDigit(c[5]) && IsLowerHexDigit(c[6]);
    }
  }

  /** A category submitted from the form is never refused for its color's length. */
  lemma FormColorNeverTooLong(others: seq<Category>, id: Id, data: CategoryData, now: Timestamp)
    requires data.color in ColorOptions
    ensures CategoryRowError(others, NewCategoryRow(id, data, now)) != Some(ValueTooLong(ColorMaxLength))
  {
    PaletteColorsAreHex();
    var i :| 0 <= i < |ColorOptions| && ColorOptions[i] == data.color;
    assert |data.color| <= ColorMaxLength;
  }

  class CategoryForm {
    var formData: CategoryData
    var loading: bool

    /** The form's color is always one of the palette's. */
    ghost predicate Valid()
      reads this
    {
      formData.color in ColorOptions
    }

    constructor ()
      ensures Valid()
      ensures formData == CategoryData("", "", InitialColor) && !loading
    {
      formData := CategoryData("", "", InitialColor);
      loading := false;
    }

    /** A new name always regenerates the slug from it; the color is kept. */
    method HandleNameChange(name: string)
      requires Valid()
      modifies this
      ensures Valid()
      ensures formData == CategoryData(name, GenerateSlug(name), old(formData.color))
      ensures IsSlug(formData.slug)
      ensures loading == old(loading)
    {
      formData := formData.(name := name, slug := GenerateSlug(name));
    }

    /** Editing the slug field changes only the slug. */
    method HandleSlugChange(slug: string)
      requires Valid()
      modifies this
      ensures Valid()
      ensures formData == old(formData).(slug := slug)
      ensures loading == old(loading)
    {
      formData := formData.(slug := slug);
    }

    /** A color button changes only the color, to that button's palette entry. */
    method PickColor(i: nat)
      requires Valid()
      requires i < |ColorOptions|
      modifies this
      ensures Valid()
      ensures formData == old(formData).(color := ColorOptions[i])
      ensures loading == old(loading)
    {
      formData := formData.(color := ColorOptions[i]);
    }

    /** Submission calls createCategory; the form closes when it succeeds. */
    method HandleSubmit(store: ContentStore, newId: Id, now: Timestamp) returns (closed: bool)
      requires Valid() && store.Valid()
      modifies this, store
      ensures Valid() && store.Valid()
      ensures formData == old(formData) && !loading
      ensures store.admins == old(store.admins) && store.resources == old(store.resources)
      ensures var st := InsertCategoryStatement(old(store.categories), NewCategoryRow(newId, formData, now));
        closed == st.Ok? && store.categories == (if st.Ok? then st.value else old(store.categories))
      ensures !closed ==> InsertCategoryStatement(old(store.categories), NewCategoryRow(newId, formData, now)).error
                          != ValueTooLong(ColorMaxLength)
    {
      loading := true;
      FormColorNeverTooLong(store.categories, newId, formData, now);
      var error, paths := store.CreateCategory(formData, newId, now);
      closed := error.None?;
      loading := false;
    }
  }
}
