/** The add-product and edit-product forms: their shared validation schema, the
    slugged file name of an uploaded product image, and the upload-then-write
    sequence of each submit. */
module ProductForms {
  import opened Wrappers
  import opened Strings
  import opened Backend

  /** The values the form hands to `onSubmit` once they have been validated. */
  datatype Values = Values(name: string, description: string, price: real, weight: string, categoryId: int)

  /** The fields of the schema. */
  datatype Field = Name | Description | Price | Weight | CategoryId

  /** The fields whose constraint the values break. */
  function SchemaErrors(v: Values): (r: set<Field>)
    ensures Name in r <==> v.name == ""
    ensures Description in r <==> v.description == ""
    ensures Price in r <==> v.price < 0.01
    ensures Weight in r <==> v.weight == ""
    ensures CategoryId in r <==> v.categoryId < 1
  {
    (if v.name == "" then {Name} else {})
    + (if v.description == "" then {Description} else {})
    + (if v.price < 0.01 then {Price} else {})
    + (if v.weight == "" then {Weight} else {})
    + (if v.categoryId < 1 then {CategoryId} else {})
  }

  /** The schema accepts the values: non-empty strings, a price of at least 0.01 and a
      category of at least 1. */
  predicate Valid(v: Values)
  {
    SchemaErrors(v) == {}
  }

  lemma ValidIff(v: Values)
    ensures Valid(v) <==> v.name != "" && v.description != "" && v.price >= 0.01 && v.weight != "" && v.categoryId >= 1
  {
    if !Valid(v) {
      var f :| f in SchemaErrors(v);
    }
  }

  /** One character of the slug: a-z and 0-9 stay, anything else becomes '-'. */
  function SlugChar(c: char): char
  {
    if 'a' <= c <= 'z' || '0' <= c <= '9' then c else '-'
  }

  /** `productName.toLowerCase().replace(/[^a-z0-9]/g, '-')`. */
  function Slug(name: string): (r: string)
    ensures |r| == |name|
    ensures forall i :: 0 <= i < |r| ==> SlugChar(LowerChar(name[i])) == r[i]
  {
    var lower := ToLower(name);
    seq(|lower|, i requires 0 <= i < |lower| => SlugChar(lower[i]))
  }

  /** A slug is made of a-z, 0-9 and '-' only; letters keep their place lower-cased,
      and a slug is its own slug. */
  lemma SlugSpec(name: string)
    ensures forall i :: 0 <= i < |name| ==> var c := Slug(name)[i]; 'a' <= c <= 'z' || '0' <= c <= '9' || c == '-'
    ensures forall i :: 0 <= i < |name| && 'A' <= name[i] <= 'Z' ==> Slug(name)[i] == (name[i] as int + 32) as char
    ensures forall i :: 0 <= i < |name| && ('a' <= name[i] <= 'z' || '0' <= name[i] <= '9') ==> Slug(name)[i] == name[i]
    ensures Slug(Slug(name)) == Slug(name)
    ensures '/' !in Slug(name)
  {
    var s := Slug(name);
    assert forall i :: 0 <= i < |s| ==> Slug(s)[i] == s[i];
    assert forall i :: 0 <= i < |s| ==> s[i] != '/';
  }

  /** The object name of an uploaded product image: the slug, '-' and the timestamp. */
  function FileName(productName: string, now: nat): string
  {
    Slug(productName) + "-" + NatToString(now)
  }

  /** The timestamp can be read back as the text after the file name's last '-', and
      the name holds no '/', so the object sits directly in `products/`. */
  lemma FileNameSpec(productName: string, now: nat)
    ensures Last(Split(FileName(productName, now), '-')) == NatToString(now)
    ensures '/' !in FileName(productName, now)
    ensures StartsWith(FileName(productName, now), Slug(productName))
  {
    var digits := NatToString(now);
    assert '-' !in digits by {
      forall i | 0 <= i < |digits| ensures digits[i] != '-' {
      }
    }
    AfterLastOf(Slug(productName), '-', digits);
    SlugSpec(productName);
    var f := FileName(productName, now);
    assert forall i :: 0 <= i < |f| ==> f[i] != '/' by {
      forall i | 0 <= i < |f| ensures f[i] != '/' {
        if i < |Slug(productName)| {
          assert f[i] == Slug(productName)[i];
        } else if i > |Slug(productName)| {
          assert f[i] == digits[i - |Slug(productName)| - 1];
        }
      }
    }
    assert f[..|Slug(productName)|] == Slug(productName);
  }

  const ProductsFolder := "products/"

  /** `onSubmit` of the add form: a picked file is uploaded without overwrite to
      `products/<file name>` and an upload error ends the submit with no insert; the
      row is then inserted with the form's columns, plus `image_url` only when an
      upload produced one. */
  method AddProduct(store: Store, values: Values, image: Option<File>, now: nat, uploadReply: Option<string>, insertReply: Option<string>)
    returns (outcome: Outcome)
    requires Valid(values)
    requires store.Valid()
    modifies store
    ensures store.Valid()
    ensures var path := ProductsFolder + FileName(values.name, now);
      var uploadErr := if uploadReply.Some? then uploadReply else if path in old(store.objects) then Some(AlreadyExists) else None;
      image.Some? && uploadErr.Some? ==>
        && outcome == Fail(uploadErr.value)
        && store.Tables() == old(store.Tables())
        && store.nextProductId == old(store.nextProductId)
        && store.calls == old(store.calls) + [ObjectUpload(path)]
    ensures var path := ProductsFolder + FileName(values.name, now);
      var uploadErr := if uploadReply.Some? then uploadReply else if path in old(store.objects) then Some(AlreadyExists) else None;
      var payload := Product(values.name, values.description, values.price, values.weight, Some(values.categoryId),
                             if image.Some? then Some(store.PublicUrl(path)) else None);
      image.None? || uploadErr.None? ==>
        && outcome == (if insertReply.Some? then Fail(insertReply.value) else Pass)
        && store.Tables() == old(store.Tables()).(
             objects := if image.Some? then old(store.objects)[path := image.value] else old(store.objects),
             products := if insertReply.None? then old(store.products)[old(store.nextProductId) := payload] else old(store.products))
        && store.nextProductId == old(store.nextProductId) + (if insertReply.None? then 1 else 0)
        && store.calls == old(store.calls) + (if image.Some? then [ObjectUpload(path)] else []) + [ProductInsert]
  {
    var imageUrl: Option<string> := None;
    var path := ProductsFolder + FileName(values.name, now);
    if image.Some? {
      var err := store.Upload(path, image.value, false, uploadReply);
      if err.Some? {
        return Fail(err.value);
      }
      imageUrl := Some(store.PublicUrl(path));
    }
    var payload := Product(values.name, values.description, values.price, values.weight, Some(values.categoryId), imageUrl);
    var err := store.InsertProduct(payload, insertReply);
    outcome := if err.Some? then Fail(err.value) else Pass;
  }

  /** The product an edit form was opened on. */
  datatype Current = Current(id: int, imageUrl: Option<string>)

  /** `onSubmit` of the edit form: without a file the current `image_url` is kept; a
      picked file is uploaded as in the add form and an upload error ends the submit
      with no update; the row with the product's id is then updated. */
  method EditProduct(store: Store, product: Current, values: Values, image: Option<File>, now: nat,
                     uploadReply: Option<string>, updateReply: Option<string>)
    returns (outcome: Outcome)
    requires Valid(values)
    modifies store
    ensures store.nextProductId == old(store.nextProductId)
    ensures var path := ProductsFolder + FileName(values.name, now);
      var uploadErr := if uploadReply.Some? then uploadReply else if path in old(store.objects) then Some(AlreadyExists) else None;
      image.Some? && uploadErr.Some? ==>
        && outcome == Fail(uploadErr.value)
        && store.Tables() == old(store.Tables())
        && store.calls == old(store.calls) + [ObjectUpload(path)]
    ensures var path := ProductsFolder + FileName(values.name, now);
      var uploadErr := if uploadReply.Some? then uploadReply else if path in old(store.objects) then Some(AlreadyExists) else None;
      var payload := Product(values.name, values.description, values.price, values.weight, Some(values.categoryId),
                             if image.Some? then Some(store.PublicUrl(path)) else product.imageUrl);
      image.None? || uploadErr.None? ==>
        && outcome == (if updateReply.Some? then Fail(updateReply.value) else Pass)
        && store.Tables() == old(store.Tables()).(
             objects := if image.Some? then old(store.objects)[path := image.value] else old(store.objects),
             products := if updateReply.None? && product.id in old(store.products)
               then old(store.products)[product.id := Patched(old(store.products)[product.id], payload)] else old(store.products))
        && store.calls == old(store.calls) + (if image.Some? then [ObjectUpload(path)] else []) + [ProductUpdate(product.id)]
  {
    var imageUrl := product.imageUrl;
    var path := ProductsFolder + FileName(values.name, now);
    if image.Some? {
      var err := store.Upload(path, image.value, false, uploadReply);
      if err.Some? {
        return Fail(err.value);
      }
      imageUrl := Some(store.PublicUrl(path));
    }
    var payload := Product(values.name, values.description, values.price, values.weight, Some(values.categoryId), imageUrl);
    var err := store.UpdateProduct(product.id, payload, updateReply);
    outcome := if err.Some? then Fail(err.value) else Pass;
  }
}
