# Learn at Stack — a verified model of the content store

Learn at Stack is a small content site: a public home page lists learning
resources (guides, videos, documents, links, downloads), each optionally filed
under a colored category, and a signed-in admin creates, edits and deletes
resources and categories from a dashboard and uploads images for them.

This Dafny project models the site's core and proves properties of it:

- **Schema** (`schema.dfy`): the three tables (admins, categories, resources)
  as sequences of rows, the column defaults, and the constraints the database
  enforces: primary keys, unique slugs and emails, the nullable foreign key
  from a resource to its category, the varchar length bounds (a longer value
  whose excess is all spaces is cut to the bound) and the refusal of text
  holding a NUL. A write is a function from the table to the new table or to
  the database error.
- **Server actions** (`actions.dfy`): `getResource`, `createResource`,
  `updateResource`, `deleteResource`, `createCategory` and `deleteCategory` as
  methods of a `ContentStore` class that holds the three tables, each running
  its SQL statements in the order the action issues them and returning the page paths it
  revalidates. Every method keeps the schema invariant.
- **Slug generation** (`slug.dfy`): `generateSlug` of both forms (lower-case,
  collapse every run of non-`[a-z0-9]` characters into one `-`, trim one `-`
  at each end).
- **Form state** (`resource_form.dfy`, `category_form.dfy`): the two admin
  forms as classes whose fields are the React state; the title/name field
  drives the slug, the edit form loads a stored resource, submission calls an
  action.
- **Image upload** (`upload.dfy`): the `POST /api/upload` validation chain,
  the stored file name, and the write into the uploads directory.
- **Sign-in** (`auth.dfy`): the credentials provider's `authorize` and the
  `jwt` and `session` callbacks.
- **Listing queries** (`listings.dfy`, `home_page.dfy`, `dashboard_page.dfy`):
  the left join from resources to categories, `ORDER BY created_at DESC` and
  `ORDER BY name`, the projected columns, and the dashboard's session gate.

Clocks, fresh ids, the bcrypt comparison and the outcome of the file-system
write are parameters: `now`, `newId`, `matches(password, hash)` and
`writeSucceeds`.

Behaviour of the code the model keeps:

- `updateResource` on an id with no row raises nothing: the
  `UPDATE ... WHERE id = $1` matches no row, the table is unchanged and the
  three paths are still revalidated (`Actions.UpdateMissingIdIsNoOp`).
- `deleteCategory` issues two separate statements, not one transaction: it
  nulls every reference to the category, then deletes the row, and the first
  makes the second unable to fail (`Actions.DetachedCategoryDeletes`).
- A resource's type is a free `varchar(50)` with default `"guide"`, so any text
  the database accepts for that column is stored.
- `authorize` returns null for every failure (a missing or empty field, an
  unknown email, a wrong password), and the two refusals cannot be told apart
  (`Auth.AuthorizeSucceedsIff`).
- A `varchar(n)` column accepts a longer value when everything past the n-th
  character is spaces and stores the first n characters; a NUL character in
  any text value is refused before any constraint is checked
  (`Schema.ResourceRowError`, `Schema.Varchar`).

## Model

| member | source | states |
|---|---|---|
| Common.First | lib/actions.ts:27-31 | `WHERE ... LIMIT 1` over a table in storage order: the first row satisfying the condition, none exactly when no row does |
| Common.NullIfEmpty | lib/actions.ts:40-46 | `x \|\| null` on a string: null exactly for the empty string, the string itself otherwise |
| Common.EmptyIfNull | app/admin/dashboard/resource-form.tsx:48-54 | `x \|\| ""` on a nullable column: "" for null and for "", the text otherwise |
| Common.EmptyIfNullUndoesNullIfEmpty | lib/actions.ts:40-46 | loading a stored value into a form field gives back the field value the action was sent |
| Common.NullIfEmptyUndoesEmptyIfNull | app/admin/dashboard/resource-form.tsx:48-54 | for any column value other than "" the load then save round trip restores it |
| Sorting.SortBy | app/page.tsx:25 | ORDER BY result: a permutation of the rows (same multiset, same length), sorted by the order when the order is a total preorder |
| Schema.InsertedCategory | lib/db/schema.ts:11-17 | inserted category: given columns verbatim, color defaults to "#ef4444" when omitted, createdAt is the insertion time |
| Schema.InsertedResource | lib/db/schema.ts:19-33 | inserted resource: given columns verbatim, type defaults to "guide" when omitted, published, createdAt and updatedAt are the insertion time |
| Schema.Varchar | lib/db/schema.ts:21 | a `varchar(n)` value as stored: at most n characters, a prefix of the value, the value itself when it fits, and only trailing spaces dropped from an accepted value |
| Schema.PaddedValueStoredUnpadded | lib/db/schema.ts:21 | a value followed by spaces past the column's length is accepted and stored cut to the length; a value of exactly the length is stored without its padding |
| Schema.StoredResource | lib/db/schema.ts:19-33 | the resource row as stored: fits every column when its values are accepted, and is the row itself when it already fits |
| Schema.StoredCategory | lib/db/schema.ts:11-17 | the category row as stored: fits every column when its values are accepted, and is the row itself when it already fits |
| Schema.ResourceRowError | lib/db/schema.ts:19-33 | the error for a new resource row: a NUL gives the encoding error and only a NUL does; a length error only for a value the column refuses; a unique violation only for a taken id or stored slug; a foreign-key violation only for a missing category; no error means the stored row fits |
| Schema.CategoryRowError | lib/db/schema.ts:11-17 | the same for a category row: the encoding error exactly for a NUL, a length error only for a refused value, a unique violation only for a taken id or stored slug |
| Schema.ResourceRowErrorExact | lib/db/schema.ts:19-33 | the database refuses a resource row exactly when one of its values is refused or the table with the stored row appended would break a length bound, the primary key, the unique slug or the foreign key |
| Schema.CategoryRowErrorExact | lib/db/schema.ts:11-17 | the database refuses a category row exactly when one of its values is refused or the table with the stored row appended would break a constraint |
| Schema.ResourceKeysIdentifyRow | lib/db/schema.ts:20-22 | in a well-formed resources table two rows with the same id, or the same slug, are the same row |
| Schema.AdminKeysIdentifyRow | lib/db/schema.ts:4-5 | in a well-formed admins table two rows with the same id, or the same email, are the same row |
| Schema.CategoryKeysIdentifyRow | lib/db/schema.ts:12-14 | in a well-formed categories table two rows with the same id, or the same slug, are the same row |
| Schema.WellFormedRowsStoredAsWritten | lib/db/schema.ts:11-33 | every row of a well-formed store fits its columns, so storing it again changes nothing |
| Schema.ReferencesValidByMembership | lib/db/schema.ts:27 | referential integrity holds exactly when every category a resource references is a row of the categories table |
| Schema.EmptyStoreWellFormed | lib/db/schema.ts:3-33 | the empty store meets every constraint |
| Slug.Lower | app/admin/dashboard/resource-form.tsx:64 | an ASCII capital becomes the letter at the same place in a-z; the Kelvin sign becomes "k" and capital I with dot above "i" and a combining dot; every other character is kept |
| Slug.ToLower | app/admin/dashboard/resource-form.tsx:64 | at least as long as the text; without a capital I with dot above, the same length with each character replaced by its lower case; a text of [a-z0-9-] is its own lower case |
| Slug.CollapseSeparators | app/admin/dashboard/resource-form.tsx:65 | never longer than the text, empty only for the empty text, and starting with a letter or digit when the text does |
| Slug.CollapseSeparatorsJoinsWords | app/admin/dashboard/resource-form.tsx:65 | the replacement gives the maximal [a-z0-9] runs joined by single "-", with one "-" in front when the text starts with another character and one at the end when it ends with one; a text of separators only becomes "-" |
| Slug.TrimHyphens | app/admin/dashboard/resource-form.tsx:66 | drops one "-" at the start and one at the end when there is one, and nothing else |
| Slug.TrimHyphensShape | app/admin/dashboard/resource-form.tsx:66 | trimming a collapsed text leaves a slug: no "-" at either end |
| Slug.CollapseSeparatorsShape | app/admin/dashboard/resource-form.tsx:65 | after the replacement only [a-z0-9-] remain and no two "-" are adjacent |
| Slug.GenerateSlug | app/admin/dashboard/resource-form.tsx:62-67 | every generated slug is URL-safe: only [a-z0-9-], no "--", no "-" at either end |
| Slug.GenerateSlugFixesSlugs | app/admin/dashboard/category-form.tsx:20-25 | a text that already has the slug shape is its own slug |
| Slug.GenerateSlugJoinsWords | app/admin/dashboard/resource-form.tsx:62-67 | the slug is the maximal [a-z0-9] runs of the lower-cased title joined by single "-" |
| Slug.GenerateSlugIdempotent | app/admin/dashboard/resource-form.tsx:62-67 | generating a slug from a slug changes nothing |
| Slug.GenerateSlugKeepsAlnums | app/admin/dashboard/resource-form.tsx:62-67 | the slug's letters and digits are exactly those of the lower-cased title, in order |
| Slug.GenerateSlugEmptyIff | app/admin/dashboard/category-form.tsx:20-25 | the slug is empty exactly when the text has no ASCII letter or digit, no Kelvin sign and no capital I with dot above |
| Actions.NewResourceRow | lib/actions.ts:37-47 | the row createResource sends: title, slug and type verbatim, each of the six optional fields null when empty and the text otherwise, the insertion time in published, createdAt and updatedAt |
| Actions.EditedRow | lib/actions.ts:54-68 | the row updateResource sends: the same column values as createResource's, with the row's id, createdAt and published kept |
| Actions.NewCategoryRow | lib/actions.ts:83-87 | the row createCategory sends: name, slug and color verbatim, so the color default never applies |
| Actions.InsertResourceStatement | lib/actions.ts:37-47 | the insert fails exactly when the database raises an error for the row, and then with that error; otherwise the table gains the stored row at its end and is otherwise unchanged |
| Actions.UpdateResourceStatement | lib/actions.ts:54-68 | no row with the id: the table is returned unchanged; success keeps the row count; an error is the database's error for the edited row against the other rows |
| Actions.UpdateResourceErrorExact | lib/actions.ts:54-68 | when the id has a row, the update fails exactly when the first such row, once edited, breaks a constraint against the other rows, with that error; otherwise it writes the edited rows |
| Actions.UpdatedRows | lib/actions.ts:54-68 | the update's `WHERE id = $1`: same row count, rows with another id unchanged, rows with the id keep id, createdAt and published, get the new updatedAt and the new slug as its column stores it |
| Actions.InsertCategoryStatement | lib/actions.ts:83-87 | the insert fails exactly when the database raises an error for the row, and then with that error; otherwise the table gains the stored row at its end |
| Actions.DeleteCategoryStatement | lib/actions.ts:99 | the delete fails exactly when the category exists and a resource still references it, with the foreign-key violation; otherwise exactly the other categories remain |
| Actions.FindResource | lib/actions.ts:27-31 | the first row with that id when there is one, none exactly when no row has the id |
| Actions.WithoutResource | lib/actions.ts:76 | the delete statement keeps exactly the rows whose id differs, and changes nothing when the id is absent |
| Actions.DetachCategory | lib/actions.ts:94-97 | same row count, no row refers to the category afterwards, referring rows get a null categoryId and all others are unchanged |
| Actions.WithoutCategory | lib/actions.ts:99 | keeps exactly the categories whose id differs, and changes nothing when the id is absent |
| Actions.WrittenRowsNormalised | lib/actions.ts:36-68 | neither createResource nor updateResource ever stores "" in an optional column |
| Actions.DuplicateSlugRejected | lib/actions.ts:37-47 | a new resource whose stored slug is taken is refused; with accepted values and a fresh id the error is the slug unique violation |
| Actions.InsertResourceKeepsWellFormed | lib/actions.ts:37-47 | an accepted insert keeps every constraint; a refused one is refused because a value is refused or the stored row would break a constraint |
| Actions.UpdateChangesOnlyThatRow | lib/actions.ts:53-68 | an accepted update writes every editable field of the row with that id, normalised and as its column stores it, and stamps updatedAt; every other row is unchanged |
| Actions.UpdateMissingIdIsNoOp | lib/actions.ts:54-68 | updating an absent id succeeds and changes nothing |
| Actions.UpdateKeepsWellFormed | lib/actions.ts:54-68 | an accepted update keeps every resource constraint |
| Actions.DeleteResourceRemovesExactlyThatRow | lib/actions.ts:75-76 | deleting removes one row when the id exists and none otherwise, and keeps every constraint |
| Actions.DeleteResourceIdempotent | lib/actions.ts:75-76 | deleting the same id twice equals deleting it once |
| Actions.WithoutCategoryKeepsWellFormed | lib/actions.ts:99 | removing a category row keeps the category constraints |
| Actions.DeleteReferencedCategoryFails | lib/db/schema.ts:27 | deleting a category that a resource still references is refused by the foreign key |
| Actions.DetachedCategoryDeletes | lib/actions.ts:94-99 | once the references are nulled, the category delete cannot fail |
| Actions.DeleteCategoryKeepsIntegrity | lib/actions.ts:92-99 | after deleteCategory every remaining reference names an existing category and nothing refers to the deleted one |
| Actions.DeleteCategoryFrame | lib/actions.ts:92-99 | deleteCategory keeps every other category and every resource that did not refer to it |
| Actions.ReferencesStillValid | lib/actions.ts:82-87 | adding a category never invalidates a resource's reference |
| Actions.ContentStore.GetResource | lib/actions.ts:26-34 | the row with that id, or nothing exactly when no row has it |
| Actions.ContentStore.CreateResource | lib/actions.ts:36-51 | on success the table gains the normalised row and "/" and "/admin/dashboard" are revalidated; on a database error nothing changes and nothing is revalidated |
| Actions.ContentStore.UpdateResource | lib/actions.ts:53-73 | the update statement's outcome; on success also revalidates "/resources/" + the new slug |
| Actions.ContentStore.DeleteResource | lib/actions.ts:75-80 | the table without the row with that id; revalidates "/" and "/admin/dashboard" |
| Actions.ContentStore.CreateCategory | lib/actions.ts:82-90 | on success the table gains the category and only "/admin/dashboard" is revalidated; on error nothing changes |
| Actions.ContentStore.DeleteCategory | lib/actions.ts:92-103 | references nulled, then the category row deleted; the store stays well formed |
| ResourceFormState.LoadedFormData | app/admin/dashboard/resource-form.tsx:45-55 | title, slug and type loaded verbatim, each null column as "" |
| ResourceFormState.SaveUntouchedFormRoundTrip | app/admin/dashboard/resource-form.tsx:45-55 | saving an untouched edit form rewrites the row as it was apart from updatedAt |
| ResourceFormState.CreatedRowSurvivesEditRoundTrip | app/admin/dashboard/resource-form.tsx:45-55 | any row createResource stored survives a load and save, as stored again, unchanged apart from updatedAt |
| ResourceFormState.WithField | app/admin/dashboard/resource-form.tsx:147-270 | a field input sets that field to the value and leaves every other field as it was |
| ResourceFormState.ResourceForm.constructor | app/admin/dashboard/resource-form.tsx:26-38 | the form opens with empty fields, type "guide", not loading |
| ResourceFormState.ResourceForm.LoadForEdit | app/admin/dashboard/resource-form.tsx:40-60 | when editing and the resource exists, the form holds its loaded data; otherwise the data is unchanged; fetching ends false |
| ResourceFormState.ResourceForm.HandleTitleChange | app/admin/dashboard/resource-form.tsx:69-76 | sets the title; the slug follows the title (and is URL-safe) only when creating |
| ResourceFormState.ResourceForm.HandleFieldChange | app/admin/dashboard/resource-form.tsx:147-270 | any other input changes only its own field |
| ResourceFormState.ResourceForm.HandleSubmit | app/admin/dashboard/resource-form.tsx:78-94 | calls updateResource when editing and createResource otherwise; closes exactly when the action succeeds; loading ends false |
| CategoryFormState.InitialColorIsFirstOption | app/admin/dashboard/category-form.tsx:17 | the form's initial color is the first palette entry and the column's default |
| CategoryFormState.PaletteColorsAreHex | app/admin/dashboard/category-form.tsx:50-59 | every palette color is "#rrggbb" and fits the 7-character column |
| CategoryFormState.FormColorNeverTooLong | app/admin/dashboard/category-form.tsx:50-59 | a category submitted with a palette color is never refused for its color's length |
| CategoryFormState.CategoryForm.constructor | app/admin/dashboard/category-form.tsx:13-18 | the form opens empty with color "#ef4444" |
| CategoryFormState.CategoryForm.HandleNameChange | app/admin/dashboard/category-form.tsx:27-34 | sets the name and regenerates a URL-safe slug from it; keeps the color |
| CategoryFormState.CategoryForm.HandleSlugChange | app/admin/dashboard/category-form.tsx:107-108 | changes only the slug |
| CategoryFormState.CategoryForm.PickColor | app/admin/dashboard/category-form.tsx:121-124 | changes only the color, to that palette entry |
| CategoryFormState.CategoryForm.HandleSubmit | app/admin/dashboard/category-form.tsx:36-48 | calls createCategory; closes exactly when it succeeds, never failing on the color's length |
| Upload.Acceptable | app/api/upload/route.ts:12-24 | an accepted body is a parsed form whose entry is a file with a MIME type starting "image/" and at most 5242880 bytes; an unparsable body, a missing entry and a text entry are never accepted |
| Upload.Rejection | app/api/upload/route.ts:9-24 | an unparsable body or a non-empty text entry gives 500; a missing or empty entry "No file provided"; a file that is not an image, or one over 5 MiB, its own 400; none exactly when a file passes every check |
| Upload.SizeLimitIsInclusive | app/api/upload/route.ts:22 | a file of exactly 5 MiB passes, one byte more is too large |
| Upload.AfterLastDot | app/api/upload/route.ts:31 | the suffix after the last "." (the whole name when there is none), containing no "." |
| Upload.ExtensionCases | app/api/upload/route.ts:31 | extension: the whole name without a ".", "png" for an empty name or a trailing ".", else the text after the last "." |
| Upload.Extension | app/api/upload/route.ts:31 | the extension is never empty and never holds a "." |
| Upload.DecimalRoundTrip | app/api/upload/route.ts:32 | the timestamp's decimal text reads back as the timestamp |
| Upload.UploadFilename | app/api/upload/route.ts:32 | the stored name starts with "upload-" and ends with "." and the extension |
| Upload.FilenameKeepsExtension | app/api/upload/route.ts:30-32 | reading the extension back off the stored name gives the original extension |
| Upload.UploadUrl | app/api/upload/route.ts:42 | the URL is "/uploads/" followed by the stored name |
| Upload.DistinctTimestampsDistinctFilenames | app/api/upload/route.ts:30-32 | uploads at different times never share a stored name |
| Upload.Post | app/api/upload/route.ts:7-47 | a rejection writes nothing and answers its response; otherwise a successful write stores the bytes under the generated name and answers its URL, a failed write answers 500; status 200 exactly when the file is acceptable and the write succeeds |
| Auth.FindAdminByEmail | lib/auth.ts:24-28 | an admin with exactly that email, none exactly when no admin has it |
| Auth.FindAdminByEmailUnique | lib/auth.ts:24-28 | with unique emails the lookup returns the admin that has the email |
| Auth.Authorize | lib/auth.ts:16-45 | null for a missing or empty field or an unknown email; success only for a matching password, returning that admin's id, email and name, the email being the one supplied |
| Auth.AuthorizeSucceedsIff | lib/auth.ts:24-44 | in a well-formed table sign-in succeeds exactly when an admin has the email and the password matches; unknown email and wrong password both give null |
| Auth.AuthorizeSeesHashOnlyThroughMatches | lib/auth.ts:34-44 | the result depends on the stored hash only through the comparison |
| Auth.Token.Jwt | lib/auth.ts:52-57 | with a user the token's id becomes the user's id, without one the token is unchanged |
| Auth.Session.FromToken | lib/auth.ts:58-63 | when the session has a user its id becomes the token's id; nothing else changes |
| Auth.CallbackRound | lib/auth.ts:16-63 | one round of authorize, jwt and session: a signed-in admin's id lands in the token and the session user; with no user (a failed sign-in or a later request) the token keeps its earlier id and the session shows it; emails and names are unchanged |
| Listings.FindCategory | app/page.tsx:24 | the joined category has the resource's categoryId; none exactly when categoryId is null or matches no category |
| Listings.FindCategoryUnique | app/page.tsx:24 | with distinct ids the join partner is the category with that id |
| Listings.ByNewest | app/page.tsx:25 | the same rows, ordered by createdAt descending |
| Listings.ByName | app/admin/dashboard/page.tsx:29 | the same category rows, names ascending |
| Listings.ByNameGroupsEqualNames | app/admin/dashboard/page.tsx:29 | categories with the same name sit next to each other |
| Listings.MapKeepsMultiset | app/page.tsx:12-25 | projecting a reordering of the rows gives a reordering of the projected rows |
| HomePage.PublicRowOf | app/page.tsx:12-24 | the selected resource columns, and the joined category's name and color, both null when there is no match |
| HomePage.GetResources | app/page.tsx:10-28 | exactly one row per resource (same count, same multiset of projected rows), in newest-first order |
| HomePage.RowCarriesItsCategory | app/page.tsx:20-24 | in a well-formed store a row shows its category's name and color when categoryId is set, and null for both when it is null |
| HomePage.ListingShowsEveryResource | app/page.tsx:23-24 | every resource has its row and every row belongs to a resource |
| DashboardPage.DashboardRowOf | app/admin/dashboard/page.tsx:12-22 | the selected columns; categoryName is null exactly when the join finds no category |
| DashboardPage.GetResources | app/admin/dashboard/page.tsx:10-26 | one row per resource, rows in createdAt descending order |
| DashboardPage.GetCategories | app/admin/dashboard/page.tsx:28-30 | every category row, ordered by name ascending |
| DashboardPage.UserEmail | app/admin/dashboard/page.tsx:48 | the session user's email, or "" when there is none |
| DashboardPage.RedirectIgnoresStore | app/admin/dashboard/page.tsx:35-37 | without a session the page is the redirect to "/admin" whatever the tables hold |
| DashboardPage.Render | app/admin/dashboard/page.tsx:32-51 | no session redirects to "/admin" and carries no data; a session gets both listings and the user's email |
| DashboardPage.CategoriesAllListed | app/admin/dashboard/page.tsx:28-30 | a category is listed exactly when it is in the table |
| DashboardPage.RowNamesCategoryIffReferenced | app/admin/dashboard/page.tsx:18-22 | in a well-formed store a row names a category exactly when its resource references one |

## Left out

- Rendering: the React markup, animation, modal and tab state of the dashboard and the login page, and the rich-text editor with its clipboard handling.
- The seed script: environment variables, database connection and bcrypt hashing.
- bcrypt itself: the hash comparison is the parameter `matches(password, hash)`.
- NextAuth token signing, cookies and session transport: the token and the session are plain objects the callbacks update.
- `revalidatePath` cache effects: each action returns the list of paths it revalidates and nothing more.
- `Date.now()`, `new Date()` and uuid generation: the time is the parameter `now`, a new row's id the parameter `newId`.
- The file system: `mkdir` and `writeFile` are the parameter `writeSucceeds` and a map from file name to bytes; a partial write is not modelled.
- Upload.Post: the request body is taken already parsed (unparsable, or a form whose `file` entry is absent, text or a file); the multipart parsing itself is not modelled.
- Concurrency: the two statements of `deleteCategory` are not in a transaction, and interleaving requests are outside a sequential model.
- Slug.Lower: keeps every non-ASCII character other than the Kelvin sign and capital I with dot above, where JavaScript may change it to other non-ASCII characters (the final sigma depending on its neighbours); every such result is a separator for `[^a-z0-9]`, so no slug depends on it. Unpaired surrogates, which a JavaScript string can hold and a Dafny string cannot, are separators as well.
- uuid syntax: an id or categoryId that is not a valid uuid makes the database raise an error of its own; the model treats ids as plain text.
- The database's order of checks is modelled as a NUL in a text value, then column lengths in column order, then primary key, then unique slug, then foreign key; only which error comes first depends on it.
- Listings.ByNewest: rows with equal createdAt keep their table order; SQL leaves their order unspecified.
- Listings.ByName: names are compared code point by code point (the "C" collation); a database using a language collation orders some names differently.
- The browser's `required` check on the title, name and slug inputs runs before submission; the model's submit methods accept any field values and leave an empty value to the database.
- The public resource page (`/resources/[slug]`), the share button and the header and footer components are not part of this model.
