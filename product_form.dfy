/** The product form of the product list page: it uploads an optional new image,
    removes the image it replaces, and then updates or inserts the product, keeping a
    `loading` flag while it works. */
module ProductEditor {
  import opened Wrappers
  import opened Strings
  import opened Backend

  /** The values the form hands to `onSubmit` once they have been validated. */
  datatype Values = Values(name: string, description: string, price: real, weight: string)

  /** The schema: non-empty strings and a price, coerced to a number, of at least 0. */
  predicate Valid(v: Values)
  {
    v.name != "" && v.description != "" && v.price >= 0.0 && v.weight != ""
  }

  /** The product the form was opened on (`product` is undefined for a new one). */
  datatype Existing = Existing(id: Option<int>, imageUrl: Option<string>)

  /** `product?.id` is truthy: present and not 0. */
  predicate Updates(product: Option<Existing>)
  {
    product.Some? && product.value.id.Some? && product.value.id.value != 0
  }

  /** `product?.image_url`. */
  function CurrentUrl(product: Option<Existing>): Option<string>
  {
    if product.Some? then product.value.imageUrl else None
  }

  /** Where a newly picked file is stored: `products/<timestamp>_<file name>`. */
  function UploadPath(now: nat, fileName: string): string
  {
    "products/" + NatToString(now) + "_" + fileName
  }

  /** The object an old image URL is taken to name: `products/` and the URL's last
      '/'-segment, or nothing when that segment is empty. */
  function OldObjectPath(url: string): (r: Option<string>)
    ensures r.Some? ==> StartsWith(r.value, "products/") && '/' !in r.value[9..]
  {
    var segment := Last(Split(url, '/'));
    if segment == "" then None else Some("products/" + segment)
  }

  /** The old object named by the public URL of an upload is that upload's object
      whenever the uploaded name holds no '/' and no character `encodeURI` would
      percent-encode. */
  lemma OldObjectOfUpload(store: Store, name: string)
    requires name != "" && '/' !in name && UriSafe(name)
    ensures OldObjectPath(store.PublicUrl("products/" + name)) == Some("products/" + name)
  {
    var url := store.PublicUrl("products/" + name);
    assert url == (store.origin + "/storage/v1/object/public/" + BucketName + "/products") + ['/'] + name;
    AfterLastOf(store.origin + "/storage/v1/object/public/" + BucketName + "/products", '/', name);
  }

  /** The object `onSubmit` removes: only after a new file was uploaded, only when the
      product had a truthy image URL whose last segment is not empty. */
  function RemovedObject(product: Option<Existing>, uploaded: bool): (r: Option<string>)
    ensures r.Some? ==> uploaded && CurrentUrl(product).Some? && CurrentUrl(product).value != ""
    ensures r.Some? ==> r == OldObjectPath(CurrentUrl(product).value)
  {
    var current := CurrentUrl(product);
    if uploaded && current.Some? && current.value != "" then OldObjectPath(current.value) else None
  }

  class ProductForm {
    var loading: bool

    constructor ()
      ensures !loading
    {
      loading := false;
    }

    /** `onSubmit`. A new file is uploaded, without overwrite, to its upload path, and
        an upload error ends the submit before any removal or table write. After a
        successful upload the old image is removed (its error is not looked at). The
        row is then updated by id when the product has a truthy id, otherwise
        inserted; either way with name, description, price, weight and the new or
        kept `image_url` only. `loading` is false whatever happened. */
    method Submit(store: Store, product: Option<Existing>, values: Values, file: Option<File>, now: nat,
                  uploadReply: Option<string>, removeReply: Option<string>, writeReply: Option<string>)
      returns (outcome: Outcome)
      requires Valid(values)
      requires store.Valid()
      modifies this, store
      ensures !loading
      ensures store.Valid()
      ensures var path := UploadPath(now, if file.Some? then file.value.name else "");
        var uploadErr := if uploadReply.Some? then uploadReply else if path in old(store.objects) then Some(AlreadyExists) else None;
        file.Some? && uploadErr.Some? ==>
          && outcome == Fail(uploadErr.value)
          && store.Tables() == old(store.Tables())
          && store.nextProductId == old(store.nextProductId)
          && store.calls == old(store.calls) + [ObjectUpload(path)]
      ensures var path := UploadPath(now, if file.Some? then file.value.name else "");
        var uploadErr := if uploadReply.Some? then uploadReply else if path in old(store.objects) then Some(AlreadyExists) else None;
        var removed := RemovedObject(product, file.Some?);
        var payload := Product(values.name, values.description, values.price, values.weight, None,
                               if file.Some? then Some(store.PublicUrl(path)) else CurrentUrl(product));
        var uploaded := if file.Some? then old(store.objects)[path := file.value] else old(store.objects);
        file.None? || uploadErr.None? ==>
          && outcome == (if writeReply.Some? then Fail(writeReply.value) else Pass)
          && store.calls == old(store.calls) + (if file.Some? then [ObjectUpload(path)] else [])
               + (if removed.Some? then [ObjectRemove(removed.value)] else [])
               + [if Updates(product) then ProductUpdate(product.value.id.value) else ProductInsert]
          && store.nextProductId == old(store.nextProductId) + (if !Updates(product) && writeReply.None? then 1 else 0)
          && store.siteContent == old(store.siteContent) && store.images == old(store.images)
          && store.objects == (if removed.Some? && removeReply.None? then uploaded - {removed.value} else uploaded)
          && store.products == (if writeReply.Some? then old(store.products)
               else if Updates(product) then
                 (if product.value.id.value in old(store.products)
                  then old(store.products)[product.value.id.value := Patched(old(store.products)[product.value.id.value], payload)]
                  else old(store.products))
               else old(store.products)[old(store.nextProductId) := payload])
    {
      loading := true;
      var imageUrl := CurrentUrl(product);
      var path := UploadPath(now, if file.Some? then file.value.name else "");
      if file.Some? {
        var err := store.Upload(path, file.value, false, uploadReply);
        if err.Some? {
          loading := false;
          return Fail(err.value);
        }
        imageUrl := Some(store.PublicUrl(path));
        var removed := RemovedObject(product, true);
        if removed.Some? {
          var ignored := store.Remove(removed.value, removeReply);
        }
      }
      var payload := Product(values.name, values.description, values.price, values.weight, None, imageUrl);
      var err;
      if Updates(product) {
        err := store.UpdateProduct(product.value.id.value, payload, writeReply);
      } else {
        err := store.InsertProduct(payload, writeReply);
      }
      outcome := if err.Some? then Fail(err.value) else Pass;
      loading := false;
    }
  }
}
