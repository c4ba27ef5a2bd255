# Storefront and admin panel of a dairy products website, modelled in Dafny

The website is a React front end over a hosted backend with three tables and one storage bucket:

- `site_content` holds one row per (section, element).
- `images` holds one row per image name.
- `products` is keyed by a sequence id.
- `website_images` is the storage bucket.

This project models the logic the front end runs against that backend:

- **Public catalog.** `filteredProducts` applies four stages: a text search, a category, a price bucket and a size bucket.
- **Public content.** The content hooks fold a section's rows into an element-to-content object. The contact variant parses JSON lists and takes its title and subtitle from the catalog section.
- **Admin section editors.**
  - Content updates are upserted one by one and stop at the first error.
  - Images live under `public/<name>` and their rows are upserted by name.
  - The home editor writes content first, then an optional image.
- **List editor.** It deletes, replaces or appends items in memory, then writes the whole list back as one row.
- **Product admin.**
  - The add and edit forms share a validation schema and name the uploaded image with a slug plus a timestamp.
  - The product list page's form stores images under `products/<timestamp>_<name>` and removes the image it replaces.
  - The list page fetches products in id order. Its delete derives the storage path from the image URL.
- **Gallery forms.** The add-image form inserts a row for `gallery/<uuid>.<ext>`. The edit-image form re-uploads and updates the row by its old name.
- **Navigation bar.** It normalises a link, splits it on `#`, and either loads another page or scrolls.

## How the backend is modelled

The backend is a `class Store` (module `Backend`):

- Each table and the bucket is a `map` field.
- A `calls` field records every SDK call, in order.
- Each SDK primitive is a method that takes the reply the network gave (`None` for success, `Some(message)` for an error). Its `ensures` says what the tables become.

This way every caller can be specified on every failure path: which calls were made, what changed, and what was reported.

Values the front end obtains from outside are parameters:

- `Date.now()` is `now`.
- `uuidv4()` is `uuid`.
- `JSON.parse` is `parse`, which returns `None` when it throws.
- `JSON.stringify` is `encode`.
- The page's current pathname and its element ids are `currentPath` and `ids`.

Each component with state is a class whose methods update that state: `ListManagementForm`, `ProductForm`, `AddImageForm`, `EditImageForm` and `Navbar`. Pure computations are functions, and their properties are lemmas.

## Model

| member | source | states |
|---|---|---|
| Catalog.FilteredIsSelected | src/features/catalog/components/ProductGrid.tsx:53-100 | With a product list, the result is the input filtered by one reference predicate, `Selected`: search, category, price and size tests, each active only when its selector is not empty and not `'all'`. |
| Catalog.FilteredIsSubsequence | src/features/catalog/components/ProductGrid.tsx:53-99 | The result is a subsequence of the fetched list. A product is in it exactly when it is in the input and selected, and it appears as often as in the input (nothing added or duplicated). |
| Catalog.NoProductsNoResult | src/features/catalog/components/ProductGrid.tsx:54 | A missing product list gives `[]`. |
| Catalog.DefaultsKeepEverything | src/features/catalog/components/ProductGrid.tsx:57-97 | An empty search and `'all'` for category, price and size return the input unchanged. |
| Catalog.SearchOnly | src/features/catalog/components/ProductGrid.tsx:57-61 | Search alone keeps exactly the products whose lower-cased name or lower-cased description contains the lower-cased query. |
| Catalog.AccentedSearch | src/features/catalog/components/ProductGrid.tsx:57-61 | A product named "Queso AÑEJO" is found by the query "añejo": Latin-1 capitals are lowered too. |
| Catalog.CategoryNeedsColumn | src/features/catalog/components/ProductGrid.tsx:64-65 | A category selection keeps only products whose `category` equals it, so rows without that column are all dropped. |
| Catalog.PriceBucketsPartition | src/features/catalog/components/ProductGrid.tsx:70-76 | `low`, `medium` and `high` are pairwise disjoint and together cover every price. |
| Catalog.PriceBoundaries | src/features/catalog/components/ProductGrid.tsx:70-76 | 50 is low and not medium; 120 is medium and not high; 120.01 is high. |
| Catalog.UnknownSelectorsKeepEverything | src/features/catalog/components/ProductGrid.tsx:68-97 | A price range or size outside the known values keeps every product. |
| Catalog.MediumExample | src/features/catalog/components/ProductGrid.tsx:89-90 | "500g" is in the medium size bucket. |
| Catalog.LargeExample | src/features/catalog/components/ProductGrid.tsx:85-92 | "1 KG" is large, because the weight is lower-cased before the test. |
| Catalog.ThousandTwoHundredIsSmall | src/features/catalog/components/ProductGrid.tsx:87-88 | "1200g" counts as small, because it contains "200". |
| Catalog.UnbucketedWeights | src/features/catalog/components/ProductGrid.tsx:85-92 | "250g" and "750g" match none of the three size buckets. |
| Catalog.ApplyStagesIsConjunction | src/features/catalog/components/ProductGrid.tsx:57-97 | Running filter stages one after another keeps exactly the products that pass all of them. |
| Catalog.StageOrderIrrelevant | src/features/catalog/components/ProductGrid.tsx:57-97 | Any permutation of the same stages gives the same list. |
| Catalog.PassesActiveStages | src/features/catalog/components/ProductGrid.tsx:57-97 | A product passes every stage the selectors switch on iff it is `Selected`. |
| Catalog.AnyStageOrder | src/features/catalog/components/ProductGrid.tsx:57-97 | The active stages, run in any order, give `filteredProducts`. |
| Strings.IndexOf | src/features/admin/pages/ProductManagement.tsx:26 | `indexOf`: -1 iff the text does not occur; otherwise the text occurs at the result and at no earlier position. |
| Strings.AfterLastSpec | src/features/admin/components/GenericSectionForm.tsx:63 | `split(c).pop()` holds no `c` and is a suffix of the input. It follows the last `c`, or is the whole input when there is no `c`. |
| Strings.SplitJoin | src/features/navigation/components/Navbar.tsx:29 | Splitting a join of pieces that hold no separator gives the pieces back. |
| Strings.JoinSplit | src/features/navigation/components/Navbar.tsx:29 | Joining the pieces of a split gives the original text back. |
| Backend.Patched | src/features/admin/components/EditProductForm.tsx:47-59 | An update sets the sent columns. A category or image URL that is not sent keeps the row's value. |
| Backend.WithImage | src/features/admin/components/GenericSectionForm.tsx:48-55 | An upsert on `name` leaves one row per name, with the new section and URL. The alt text is kept, or empty on a new row, and other rows are unchanged. |
| Backend.Store.UpsertContent | src/features/admin/components/GenericSectionForm.tsx:30-34 | The upsert on `section,element` replaces or adds that one key on success, changes nothing on error, and is logged. |
| Backend.Store.Upload | src/features/admin/components/AddProductForm.tsx:38-41 | An upload stores the file at the path. Without overwrite, an existing path fails with "already exists" and leaves the bucket unchanged. |
| Backend.Store.Remove | src/features/admin/pages/ProductManagement.tsx:29-30 | A removal deletes the object on success; an error leaves the bucket unchanged. |
| Backend.Store.UpsertImage | src/features/admin/components/GenericSectionForm.tsx:49-53 | The images upsert on `name` gives the table `WithImage` on success. |
| Backend.Store.InsertImage | src/features/admin/components/AddImageForm.tsx:64-69 | An insert adds the row when the name is free and reports a duplicate key otherwise. |
| Backend.Store.UpdateImage | src/features/admin/components/EditImageForm.tsx:74-77 | An update by name sets the URL, and the alt text when sent. A name with no row is a no-op. |
| Backend.Store.DeleteImage | src/features/admin/components/GenericSectionForm.tsx:85-86 | A delete by name removes that row on success. |
| Backend.Store.InsertProduct | src/features/admin/components/AddProductForm.tsx:54-55 | An insert stores the payload under the next sequence id and advances the sequence, keeping every id below it. |
| Backend.Store.UpdateProduct | src/features/admin/components/EditProductForm.tsx:56-57 | An update by id patches that row. An id with no row is a no-op. |
| Backend.Store.DeleteProduct | src/features/admin/pages/ProductManagement.tsx:33-34 | A delete by id removes that row on success. |
| SiteContent.ApplyUpdatesAt | src/features/admin/components/GenericSectionForm.tsx:28-37 | After upserting updates in order, a key is present iff it was before or some update names it. Rows are added only for new keys. A named key holds the last content given for it; other keys keep their content. |
| SiteContent.ApplyUpdatesTwice | src/features/admin/components/GenericSectionForm.tsx:28-37 | Upserting the same updates twice gives the same table as once. |
| SiteContent.FirstError | src/features/admin/components/GenericSectionForm.tsx:29-35 | The position of the first error reply: every earlier reply succeeded, and the one there failed unless it is the end. |
| SiteContent.Attempted | src/features/admin/components/GenericSectionForm.tsx:29-35 | The number of upserts sent: all of them, or up to and including the one that failed. |
| SiteContent.UpsertCalls | src/features/admin/components/GenericSectionForm.tsx:29-33 | One upsert call per update, in order, on that update's (section, element). |
| SiteContent.UpdateSiteContent | src/features/admin/components/GenericSectionForm.tsx:28-37 | The loop applies the updates before the first error, reports that error, and sends nothing after it. Without errors it applies them all and reports none. |
| SiteContent.ContentMapAt | src/hooks/use-site-content.ts:19-22 | The object has one key per distinct element among the rows. Each key holds the content of the last row with that element, unchanged. |
| SiteContent.FetchSiteContent | src/hooks/use-site-content.ts:9-23 | A query error becomes an error whose message is the fixed text, the section and the query's message. No rows gives the empty object. |
| SiteContent.FetchErrorNamesSection | src/hooks/use-site-content.ts:15-17 | The error message of a failed query contains the section's name. |
| SiteContent.ReadBack | src/hooks/use-site-content.ts:9-22 | Reading a section whose rows are listed once each gives exactly what the table holds for that section. |
| SiteContent.WriteThenRead | src/hooks/use-site-content.ts:19-22 | After the upserts succeed, reading the section back gives each written element the last content written for it. |
| ContactContent.Defaults | src/hooks/use-contact-content.ts:49 | The accumulator starts with `locations` and `contact_methods` as `[]`, and `title` and `subtitle` as `''`. |
| ContactContent.Interpret | src/hooks/use-contact-content.ts:34-47 | For the two list elements, empty content gives `[]`, and a parse failure gives `[]` instead of an error. Otherwise the parse result is used. Any other element keeps its content as text. |
| ContactContent.ContactFoldAt | src/hooks/use-contact-content.ts:33-49 | The folded object holds the default keys plus one key per row element. Unnamed keys keep their default; named keys hold what the last row for them gives. |
| ContactContent.ListElementsNeverText | src/hooks/use-contact-content.ts:33-49 | `locations` and `contact_methods` are always present and never the row's raw text: they hold the parse result, or `[]` for empty or unparsable content. |
| ContactContent.FetchContactContent | src/hooks/use-contact-content.ts:25-67 | A first-query error is thrown with its message. Otherwise the fold is returned. `title` and `subtitle` are replaced by catalog rows 0 and 1 only when the catalog query succeeded and those rows exist; every other key is the fold's. |
| ListManagement.Save | src/features/admin/components/ListManagementForm.tsx:76-84 | A truthy id keeps the length and replaces exactly the items with that id, leaving every other position unchanged. A falsy id appends one item with the timestamp as its id and keeps the prefix. |
| ListManagement.DeleteSpec | src/features/admin/components/ListManagementForm.tsx:71-74 | Delete keeps, in order and each as often as before, exactly the items whose id differs from the target's. |
| ListManagement.DeleteAbsent | src/features/admin/components/ListManagementForm.tsx:72 | Deleting an id no item has leaves the list unchanged. |
| ListManagement.SaveIdempotent | src/features/admin/components/ListManagementForm.tsx:78-79 | Saving the same item with a truthy id twice is saving it once. |
| ListManagement.AddThenDelete | src/features/admin/components/ListManagementForm.tsx:71-84 | Appending a new item under a fresh timestamp and then deleting it gives the original list back. |
| ListManagement.NewItemDefaults | src/features/admin/components/ListManagementForm.tsx:166 | A new-item form starts with exactly the configured fields, each `''`. |
| ListManagement.Merge | src/features/admin/components/ListManagementForm.tsx:171-173 | `{ ...item, ...values }`: form values win, the item's id and other fields are kept, and no other field appears. |
| ListManagement.ListManagementForm.constructor | src/features/admin/components/ListManagementForm.tsx:51-52 | The dialog starts closed with no current item. |
| ListManagement.ListManagementForm.OpenDialog | src/features/admin/components/ListManagementForm.tsx:66-69 | Opening sets the current item and opens the dialog. |
| ListManagement.ListManagementForm.Write | src/features/admin/components/ListManagementForm.tsx:54-64 | The serialised list is upserted as the one row of (section, element). The dialog closes only on success and stays open on error. |
| ListManagement.ListManagementForm.HandleDelete | src/features/admin/components/ListManagementForm.tsx:71-74 | Writes `Delete(list, target)`, with the same error and dialog behaviour. The current item and the product sequence are unchanged. |
| ListManagement.ListManagementForm.Submit | src/features/admin/components/ListManagementForm.tsx:76-84 | Writes the list with the merged item saved into it. The current item and the product sequence are unchanged. |
| SectionImages.ImageNameSpec | src/features/admin/components/GenericSectionForm.tsx:63-64 | The generated name starts with the section and `/`. Its text after the last `.` is the file's extension, or the whole file name when it has no dot. |
| SectionImages.PublicPath | src/features/admin/components/GenericSectionForm.tsx:42 | The storage key is `public/` followed by the image name. |
| SectionImages.UploadImage | src/features/admin/components/GenericSectionForm.tsx:39-46 | Uploads with overwrite to `public/<name>` and returns that object's public URL, or the error with the bucket unchanged. |
| SectionImages.UpdateImageRecord | src/features/admin/components/GenericSectionForm.tsx:48-55 | Upserts the row by name, so a name never has two rows. |
| GenericSection.AddImage | src/features/admin/components/GenericSectionForm.tsx:59-68 | An empty section fails before any call. Otherwise it uploads, then upserts the row, stopping at the first error, and returns the public URL. |
| GenericSection.UpdateImage | src/features/admin/components/GenericSectionForm.tsx:70-79 | Overwrites the same object, then sets the row's URL. An upload error stops before the row. |
| GenericSection.DeleteImage | src/features/admin/components/GenericSectionForm.tsx:81-89 | Removes `public/<name>` first. If that fails the row is not deleted. |
| GenericSection.HandleImageDelete | src/features/admin/components/GenericSectionForm.tsx:175-181 | An empty name makes no call and reports the invalid-name message. A non-empty name removes `public/<name>`, and deletes the row only when that removal succeeded; nothing else changes. |
| GenericSection.SubmitUpdates | src/features/admin/components/GenericSectionForm.tsx:149-153 | One update per form key, in order, each in the section with that key's value. |
| GenericSection.SubmitStoresValues | src/features/admin/components/GenericSectionForm.tsx:148-158 | After a successful submit, each form key holds its value in the section, and rows of other sections are untouched. |
| GenericSection.OnSubmit | src/features/admin/components/GenericSectionForm.tsx:148-158 | No keys means no write. Otherwise the updates go through the loop, with its stop-at-first-error behaviour. |
| HomeSection.HomeUpdates | src/features/admin/components/HomeSectionForm.tsx:98-100 | The updated elements are exactly the configured fields that have a value, in field order, each in the section with that value. |
| HomeSection.OnSubmit | src/features/admin/components/HomeSectionForm.tsx:96-115 | Content is written first, and a content error skips the image step. The image step runs only with a name and a file, uploading and then upserting by name. Success is reported only after every step it ran. |
| ProductForms.SchemaErrors | src/features/admin/components/AddProductForm.tsx:17-30 | Each field is in the error set iff its constraint fails: empty name, description or weight, price below 0.01, or category below 1. |
| ProductForms.ValidIff | src/features/admin/components/EditProductForm.tsx:17-30 | The values pass iff the strings are non-empty, the price is at least 0.01 and the category at least 1. |
| ProductForms.Slug | src/features/admin/components/AddProductForm.tsx:37 | Same length as the name. Each character is its lower-cased character if in a-z or 0-9, else `-`. |
| ProductForms.SlugSpec | src/features/admin/components/AddProductForm.tsx:37 | A slug holds only a-z, 0-9 and `-`. Capitals become their lower case, kept characters stay, a slug is its own slug, and it never holds `/`. |
| ProductForms.FileNameSpec | src/features/admin/components/AddProductForm.tsx:37 | The file name starts with the slug. Its text after the last `-` is the timestamp, and it holds no `/`. |
| ProductForms.AddProduct | src/features/admin/components/AddProductForm.tsx:87-106 | A file is uploaded without overwrite to `products/<file name>`, and an upload error returns with no insert. Otherwise the insert carries the five columns, plus the image URL only when uploaded, and a successful insert advances the product sequence by one. |
| ProductForms.EditProduct | src/features/admin/components/EditProductForm.tsx:89-109 | Without a file the current image URL is kept. An upload error returns with no update. Otherwise the row with the product's id is patched. |
| ProductManagement.SortedIds | src/features/admin/pages/ProductManagement.tsx:18 | Lists the ids in strictly increasing order, with the same members. |
| ProductManagement.FetchProducts | src/features/admin/pages/ProductManagement.tsx:17-21 | Returns the error, or every row of the table exactly once, in id order. |
| ProductManagement.StoragePath | src/features/admin/pages/ProductManagement.tsx:25-27 | Gives the text after the first `website_images/`. When that is absent, it gives the text from position 14. |
| ProductManagement.StoragePathOfPublicUrl | src/features/admin/pages/ProductManagement.tsx:25-27 | For a public URL whose fixed prefix does not already hold the marker, of a path that percent-encoding leaves unchanged, the derived path is the object's path. |
| ProductManagement.RemovedPath | src/features/admin/pages/ProductManagement.tsx:24-28 | An object is removed only for a non-empty URL whose derived path is non-empty. |
| ProductManagement.DeleteProduct | src/features/admin/pages/ProductManagement.tsx:23-35 | A storage removal error is ignored and the row is still deleted. The reported error is the delete's. |
| ProductEditor.OldObjectPath | src/features/admin/components/ProductForm.tsx:59-61 | The old object is `products/` plus the URL's last `/` segment, with no further `/`. It is absent when that segment is empty. |
| ProductEditor.OldObjectOfUpload | src/features/admin/components/ProductForm.tsx:48-61 | For an image this form uploaded under a name that percent-encoding leaves unchanged, the old object derived from its public URL is that upload's object. |
| ProductEditor.RemovedObject | src/features/admin/components/ProductForm.tsx:58-62 | Removal happens only after a new upload, and only for a truthy old URL with a non-empty last segment. |
| ProductEditor.ProductForm.Submit | src/features/admin/components/ProductForm.tsx:41-86 | Covers the file upload to `products/<timestamp>_<name>`, the abort on upload error, best-effort removal of the old image, and update by a truthy id or insert. The payload is name, description, price, weight and image URL. Only a successful insert advances the product sequence, by one. `loading` ends false in every outcome. |
| ImageForms.EditPathShape | src/features/admin/components/EditImageForm.tsx:56 | An edit path is `gallery/`, the timestamp's digits, `_`, then exactly the file name. |
| ImageForms.EditPathNotAddKey | src/features/admin/components/EditImageForm.tsx:56 | An edit path never equals a key the add form generates (`gallery/<uuid>.<ext>`) from a uuid with no `_`. |
| ImageForms.AddImageForm.Submit | src/features/admin/components/AddImageForm.tsx:50-81 | Key `gallery/<uuid>.<ext>`. An upload without overwrite that fails throws before any insert. The row (key, `gallery`, public URL of the same key, alt text) is inserted with its error ignored. `isUploading` ends false. |
| ImageForms.EditImageForm.Submit | src/features/admin/components/EditImageForm.tsx:49-89 | Without a file only the alt text changes. A new file goes to its edit path; the old object is removed only after that upload succeeds, and an upload error stops before removal and update. The row keeps its name. `isUploading` ends false. |
| Navigation.NormalizePath | src/features/navigation/components/Navbar.tsx:28 | The path always starts with `/` and ends with the href. An href already starting with `/` is kept. |
| Navigation.NormalizeIdempotent | src/features/navigation/components/Navbar.tsx:28 | Normalising twice is normalising once. |
| Navigation.PathnameNotEmpty | src/features/navigation/components/Navbar.tsx:28-31 | The pathname of a normalised path starts with `/`, so the `pathname !== ''` test never decides. |
| Navigation.SplitHash | src/features/navigation/components/Navbar.tsx:29 | For `p#h` with no `#` in `p` or `h`, the pathname is `p` and the hash is `h`. |
| Navigation.NoHashTarget | src/features/navigation/components/Navbar.tsx:29-35 | Without `#` the pathname is the whole path and the element looked up is `"undefined"`. |
| Navigation.DecideSpec | src/features/navigation/components/Navbar.tsx:27-43 | Navigates, to the whole path, iff the pathname differs from the current one. Scrolls to the hash iff the pathname matches and that element exists; otherwise does nothing. |
| Navigation.SectionLink | src/features/navigation/components/Navbar.tsx:18-43 | A `/#section` link loads the home page at that section from any other page, and scrolls to the section on the home page when it exists. |
| Navigation.Navbar.HandleSmoothScroll | src/features/navigation/components/Navbar.tsx:27-47 | Performs the decision and always closes the mobile menu. |

## Left out

- The hosted backend's SDK, its network behaviour and its URL scheme are not modelled beyond what the callers rely on. Each call is one `Store` method with the reply as a parameter. `getPublicUrl` is the fixed format `<origin>/storage/v1/object/public/website_images/<path>`, with the path not percent-encoded.
- `Date.now()`, `uuidv4()`, `JSON.parse` and `JSON.stringify` are parameters. A `JSON.parse` that throws is a `None` reply.
- React rendering, animation, dialogs, toasts, react-query cache invalidation, `console` logging and the theme toggle carry no statable logic and are not modelled.
- Concurrent or interleaved mutations (`mutate` is fire-and-forget) are not modelled. Each submit runs to completion on its own.
- Prices are reals compared exactly. Number formatting and string-to-number coercion are not modelled.
- zod and react-hook-form internals are not modelled; only the stated field constraints are.
- Authentication and sessions are delegated to the backend and not modelled.
- Strings.LowerChar: lower-casing covers the ASCII capitals and the Latin-1 capitals U+00C0 to U+00DE (except U+00D7). Capitals of other scripts (Greek, Cyrillic, Latin Extended) are kept as they are, and Unicode `toLowerCase` corner cases are not modelled, such as the Kelvin sign, which lower-cases to an ASCII `k`, or the dotted capital I, which lower-cases to two characters.
- ProductForms.Slug: works per code point, while the regex without the `u` flag replaces each UTF-16 unit. A character outside the Basic Multilingual Plane (an emoji) becomes `--` in the source and a single `-` here, so such slugs are one character shorter here.
- ProductEditor.OldObjectOfUpload: `getPublicUrl` percent-encodes the path with `encodeURI`, and the model's URL is not encoded. The lemma only covers names that encoding leaves unchanged. For a name with a space or a non-ASCII letter ("queso añejo.jpg") the derived old path is the encoded one, so the removal misses the object and it stays in the bucket.
- ProductManagement.StoragePathOfPublicUrl: for the same reason, the lemma only covers paths that `encodeURI` leaves unchanged. For other paths the derived path is the encoded one, the removal misses the object, and it stays in the bucket.
- The message shown for a thrown value that is not an `Error` (the "unknown error" text) is not modelled. Failures carry the backend's message.
- GenericSection.AddImage: the `typeof section !== 'string'` half of the guard is not modelled, because the section is a string here.
- GenericSection.SubmitUpdates: the form's keys come as a sequence in the order `Object.keys` gives. JavaScript's ordering of integer-like keys first is not modelled.
- HomeSection.HomeUpdates: a value is either present or absent. Present values that are not strings (`null`, a `File`) are not modelled.
- SiteContent.FetchSiteContent: NULL content is not modelled; content is always a string.
- ContactContent.FetchContactContent: `catalog` stands for the rows the second query returns, in the order returned. Which element lands at position 0 or 1 is the database's order, which is not modelled.
- ContactContent.FetchContactContent: the first query is given as its rows. The `.in('element', …)` restriction is not checked against a table.
- ListManagement.Merge: a form field literally named `id` is not modelled; the id is kept apart from the other fields.
- ProductManagement.FetchProducts: rows are returned as (id, row) pairs, and `select('*')` column projection is not modelled.
- Catalog.FilteredIsSelected: `useMemo` caching is not modelled; the result is a function of its inputs.
