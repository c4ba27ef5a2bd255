/** The hosted backend as the front end sees it: the `site_content`, `images` and
    `products` tables and the `website_images` storage bucket, each an abstract map,
    plus a log of the calls made so far, in order. Every SDK call takes the reply
    the network gave it (`None` for success, `Some(message)` for an error), so a
    caller's behaviour on every failure can be stated. */
module Backend {
  import opened Wrappers

  /** The key of a `site_content` row (unique on `section,element`). */
  datatype ContentKey = ContentKey(section: string, element: string)

  /** A file picked in the browser. */
  datatype File = File(name: string, data: seq<bv8>)

  /** An `images` row, keyed by `name` elsewhere. */
  datatype ImageRow = ImageRow(section: string, url: string, altText: string)

  /** A `products` row, or the payload of an insert or update: a `None` column is
      NULL in a row and "not sent" in a payload. */
  datatype Product = Product(
    name: string,
    description: string,
    price: real,
    weight: string,
    categoryId: Option<int>,
    imageUrl: Option<string>)

  /** The four stores at one moment. */
  datatype Snapshot = Snapshot(
    siteContent: map<ContentKey, string>,
    images: map<string, ImageRow>,
    products: map<int, Product>,
    objects: map<string, File>)

  /** One call to the backend, in the order the front end makes them. */
  datatype Call =
    | ContentUpsert(key: ContentKey)
    | ObjectUpload(path: string)
    | ObjectRemove(path: string)
    | ImageUpsert(name: string)
    | ImageInsert(name: string)
    | ImageUpdate(name: string)
    | ImageDelete(name: string)
    | ProductInsert
    | ProductUpdate(id: int)
    | ProductDelete(id: int)

  const BucketName := "website_images"

  /** What storage answers to an upload without overwrite onto an existing path. */
  const AlreadyExists := "The resource already exists"

  /** What the table answers to an insert whose unique key is taken. */
  const DuplicateKey := "duplicate key value violates unique constraint"

  /** An update sends only the columns of the payload that are present. */
  function Patched(row: Product, payload: Product): (r: Product)
    ensures r.name == payload.name && r.description == payload.description && r.price == payload.price && r.weight == payload.weight
    ensures r.categoryId == if payload.categoryId.Some? then payload.categoryId else row.categoryId
    ensures r.imageUrl == if payload.imageUrl.Some? then payload.imageUrl else row.imageUrl
  {
    Product(payload.name, payload.description, payload.price, payload.weight,
            if payload.categoryId.Some? then payload.categoryId else row.categoryId,
            if payload.imageUrl.Some? then payload.imageUrl else row.imageUrl)
  }

  /** The images table after an upsert of `{ name, section, url }` on `name`: the
      columns not sent keep their value on an existing row and are empty on a new one. */
  function WithImage(images: map<string, ImageRow>, name: string, section: string, url: string): (r: map<string, ImageRow>)
    ensures r.Keys == images.Keys + {name}
    ensures r[name].section == section && r[name].url == url
    ensures r[name].altText == if name in images then images[name].altText else ""
    ensures forall n :: n in images && n != name ==> r[n] == images[n]
  {
    images[name := ImageRow(section, url, if name in images then images[name].altText else "")]
  }

  /** A character `encodeURI` leaves as it is, among those an object path uses:
      ASCII letters and digits, `-`, `_`, `.`, `~` and `/`. */
  predicate UriSafeChar(c: char)
  {
    'a' <= c <= 'z' || 'A' <= c <= 'Z' || '0' <= c <= '9' || c in "-_.~/"
  }

  /** A path whose public URL is the same with or without percent-encoding. */
  predicate UriSafe(s: string)
  {
    forall i :: 0 <= i < |s| ==> UriSafeChar(s[i])
  }

  class Store {
    var siteContent: map<ContentKey, string>
    var images: map<string, ImageRow>
    var products: map<int, Product>
    var objects: map<string, File>
    /** The next value of the products id sequence. */
    var nextProductId: int
    /** Every call made so far, oldest first. */
    var calls: seq<Call>
    /** The project URL that public object URLs start with. */
    const origin: string

    function Tables(): Snapshot
      reads this
    {
      Snapshot(siteContent, images, products, objects)
    }

    /** Product ids come from a sequence that is ahead of every id in the table. */
    ghost predicate Valid()
      reads this
    {
      forall id :: id in products ==> id < nextProductId
    }

    constructor (origin: string)
      ensures Valid()
      ensures this.origin == origin
      ensures Tables() == Snapshot(map[], map[], map[], map[]) && calls == []
    {
      this.origin := origin;
      siteContent, images, products, objects := map[], map[], map[], map[];
      nextProductId := 1;
      calls := [];
    }

    /** `getPublicUrl(path)`: the public address of an object of the bucket. The path
        is appended as it is, which is what `encodeURI` gives for a `UriSafe` path. */
    function PublicUrl(path: string): string
    {
      origin + "/storage/v1/object/public/" + BucketName + "/" + path
    }

    /** `from('site_content').upsert(row, { onConflict: 'section,element' })`. */
    method UpsertContent(key: ContentKey, content: string, reply: Option<string>) returns (err: Option<string>)
      modifies this
      ensures err == reply
      ensures Tables() == old(Tables()).(siteContent := if reply.None? then old(siteContent)[key := content] else old(siteContent))
      ensures nextProductId == old(nextProductId)
      ensures calls == old(calls) + [ContentUpsert(key)]
    {
      err := reply;
      if reply.None? {
        siteContent := siteContent[key := content];
      }
      calls := calls + [ContentUpsert(key)];
    }

    /** `storage.from('website_images').upload(path, file, { upsert })`: without
        overwrite an existing path is refused. */
    method Upload(path: string, file: File, overwrite: bool, reply: Option<string>) returns (err: Option<string>)
      modifies this
      ensures err == if reply.Some? then reply else if !overwrite && path in old(objects) then Some(AlreadyExists) else None
      ensures Tables() == old(Tables()).(objects := if err.None? then old(objects)[path := file] else old(objects))
      ensures nextProductId == old(nextProductId)
      ensures calls == old(calls) + [ObjectUpload(path)]
    {
      if reply.Some? {
        err := reply;
      } else if !overwrite && path in objects {
        err := Some(AlreadyExists);
      } else {
        err := None;
        objects := objects[path := file];
      }
      calls := calls + [ObjectUpload(path)];
    }

    /** `storage.from('website_images').remove([path])`: a missing object is not an error. */
    method Remove(path: string, reply: Option<string>) returns (err: Option<string>)
      modifies this
      ensures err == reply
      ensures Tables() == old(Tables()).(objects := if reply.None? then old(objects) - {path} else old(objects))
      ensures nextProductId == old(nextProductId)
      ensures calls == old(calls) + [ObjectRemove(path)]
    {
      err := reply;
      if reply.None? {
        objects := objects - {path};
      }
      calls := calls + [ObjectRemove(path)];
    }

    /** `from('images').upsert({ name, section, url }, { onConflict: 'name' })`. */
    method UpsertImage(name: string, section: string, url: string, reply: Option<string>) returns (err: Option<string>)
      modifies this
      ensures err == reply
      ensures Tables() == old(Tables()).(images := if reply.Some? then old(images) else WithImage(old(images), name, section, url))
      ensures nextProductId == old(nextProductId)
      ensures calls == old(calls) + [ImageUpsert(name)]
    {
      err := reply;
      if reply.None? {
        images := WithImage(images, name, section, url);
      }
      calls := calls + [ImageUpsert(name)];
    }

    /** `from('images').insert(row)`: a taken name is refused. */
    method InsertImage(name: string, row: ImageRow, reply: Option<string>) returns (err: Option<string>)
      modifies this
      ensures err == if reply.Some? then reply else if name in old(images) then Some(DuplicateKey) else None
      ensures Tables() == old(Tables()).(images := if err.None? then old(images)[name := row] else old(images))
      ensures nextProductId == old(nextProductId)
      ensures calls == old(calls) + [ImageInsert(name)]
    {
      if reply.Some? {
        err := reply;
      } else if name in images {
        err := Some(DuplicateKey);
      } else {
        err := None;
        images := images[name := row];
      }
      calls := calls + [ImageInsert(name)];
    }

    /** `from('images').update({ url, alt_text? }).eq('name', name)`: no matching row is not an error. */
    method UpdateImage(name: string, url: string, altText: Option<string>, reply: Option<string>) returns (err: Option<string>)
      modifies this
      ensures err == reply
      ensures Tables() == old(Tables()).(images := if reply.None? && name in old(images)
        then old(images)[name := old(images)[name].(url := url, altText := if altText.Some? then altText.value else old(images)[name].altText)]
        else old(images))
      ensures nextProductId == old(nextProductId)
      ensures calls == old(calls) + [ImageUpdate(name)]
    {
      err := reply;
      if reply.None? && name in images {
        var alt := if altText.Some? then altText.value else images[name].altText;
        images := images[name := images[name].(url := url, altText := alt)];
      }
      calls := calls + [ImageUpdate(name)];
    }

    /** `from('images').delete().match({ name })`. */
    method DeleteImage(name: string, reply: Option<string>) returns (err: Option<string>)
      modifies this
      ensures err == reply
      ensures Tables() == old(Tables()).(images := if reply.None? then old(images) - {name} else old(images))
      ensures nextProductId == old(nextProductId)
      ensures calls == old(calls) + [ImageDelete(name)]
    {
      err := reply;
      if reply.None? {
        images := images - {name};
      }
      calls := calls + [ImageDelete(name)];
    }

    /** `from('products').insert(payload)`: the row gets the next id of the sequence. */
    method InsertProduct(payload: Product, reply: Option<string>) returns (err: Option<string>)
      requires Valid()
      modifies this
      ensures Valid()
      ensures err == reply
      ensures Tables() == old(Tables()).(products := if reply.None? then old(products)[old(nextProductId) := payload] else old(products))
      ensures nextProductId == if reply.None? then old(nextProductId) + 1 else old(nextProductId)
      ensures reply.None? ==> old(nextProductId) !in old(products)
      ensures calls == old(calls) + [ProductInsert]
    {
      err := reply;
      if reply.None? {
        products := products[nextProductId := payload];
        nextProductId := nextProductId + 1;
      }
      calls := calls + [ProductInsert];
    }

    /** `from('products').update(payload).eq('id', id)`: no matching row is not an error. */
    method UpdateProduct(id: int, payload: Product, reply: Option<string>) returns (err: Option<string>)
      modifies this
      ensures err == reply
      ensures Tables() == old(Tables()).(products := if reply.None? && id in old(products)
        then old(products)[id := Patched(old(products)[id], payload)] else old(products))
      ensures nextProductId == old(nextProductId)
      ensures calls == old(calls) + [ProductUpdate(id)]
    {
      err := reply;
      if reply.None? && id in products {
        products := products[id := Patched(products[id], payload)];
      }
      calls := calls + [ProductUpdate(id)];
    }

    /** `from('products').delete().match({ id })`. */
    method DeleteProduct(id: int, reply: Option<string>) returns (err: Option<string>)
      modifies this
      ensures err == reply
      ensures Tables() == old(Tables()).(products := if reply.None? then old(products) - {id} else old(products))
      ensures nextProductId == old(nextProductId)
      ensures calls == old(calls) + [ProductDelete(id)]
    {
      err := reply;
      if reply.None? {
        products := products - {id};
      }
      calls := calls + [ProductDelete(id)];
    }
  }
}
