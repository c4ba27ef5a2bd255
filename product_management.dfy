/** The product list of the admin panel: the products fetched in id order, and the
    delete action, which removes the product's image from storage on a best-effort
    basis and then deletes the row. */
module ProductManagement {
  import opened Wrappers
  import opened Strings
  import opened Backend

  /** What precedes an object's path in its public URL. */
  const Marker := BucketName + "/"

  /** The smallest id of a non-empty set of ids. */
  lemma {:induction false} HasMinimum(s: set<int>)
    requires s != {}
    ensures exists m :: m in s && forall x :: x in s ==> m <= x
    decreases |s|
  {
    if forall z :: z !in s {
      assert false;
    }
    var y :| y in s;
    var rest := s - {y};
    if rest == {} {
      assert s == {y};
    } else {
      HasMinimum(rest);
      var m :| m in rest && forall x :: x in rest ==> m <= x;
      MinimumOfAdded(s, y, m);
    }
  }

  /** Adding `y` back to a set whose minimum is `m` gives the smaller of the two as minimum. */
  lemma MinimumOfAdded(s: set<int>, y: int, m: int)
    requires y in s && m in s - {y}
    requires forall x :: x in s - {y} ==> m <= x
    ensures exists least :: least in s && forall x :: x in s ==> least <= x
  {
    var least := if y < m then y else m;
    forall x | x in s ensures least <= x {
      if x != y {
        assert x in s - {y};
      }
    }
    assert least in s;
  }

  /** The smallest id of a non-empty set of ids. */
  function Minimum(s: set<int>): (m: int)
    requires s != {}
    ensures m in s && forall x :: x in s ==> m <= x
  {
    HasMinimum(s);
    var m :| m in s && forall x :: x in s ==> m <= x;
    m
  }

  /** The ids of `s` in increasing order. */
  function SortedIds(s: set<int>): (r: seq<int>)
    ensures forall i, j :: 0 <= i < j < |r| ==> r[i] < r[j]
    ensures forall x :: x in s <==> x in r
    decreases |s|
  {
    if s == {} then []
    else
      var m := Minimum(s);
      var rest := SortedIds(s - {m});
      assert forall k :: 0 <= k < |rest| ==> m < rest[k] by {
        forall k | 0 <= k < |rest| ensures m < rest[k] {
          assert rest[k] in s - {m};
        }
      }
      [m] + rest
  }

  /** The rows of the given ids, in the ids' order. */
  function RowsOf(ids: seq<int>, products: map<int, Product>): (r: seq<(int, Product)>)
    requires forall i :: 0 <= i < |ids| ==> ids[i] in products
    ensures |r| == |ids|
    ensures forall i :: 0 <= i < |r| ==> r[i].0 == ids[i] && r[i].1 == products[ids[i]]
  {
    seq(|ids|, i requires 0 <= i < |ids| => (ids[i], products[ids[i]]))
  }

  /** `fetchProducts`: `select('*').order('id')`, the whole table in id order, or the
      query's error. */
  method FetchProducts(store: Store, reply: Option<string>) returns (r: Result<seq<(int, Product)>>)
    ensures r.Failure? <==> reply.Some?
    ensures reply.Some? ==> r.error == reply.value
    ensures r.Success? ==> forall i, j :: 0 <= i < j < |r.value| ==> r.value[i].0 < r.value[j].0
    ensures r.Success? ==> forall i :: 0 <= i < |r.value| ==> r.value[i].0 in store.products && store.products[r.value[i].0] == r.value[i].1
    ensures r.Success? ==> forall id :: id in store.products ==> exists i :: 0 <= i < |r.value| && r.value[i].0 == id
  {
    if reply.Some? {
      return Failure(reply.value);
    }
    var products := store.products;
    var ids := SortedIds(products.Keys);
    var rows := RowsOf(ids, products);
    forall id | id in products ensures exists i :: 0 <= i < |rows| && rows[i].0 == id {
      var i :| 0 <= i < |ids| && ids[i] == id;
      assert rows[i].0 == id;
    }
    r := Success(rows);
  }

  /** The path `deleteProduct` derives from an image URL: the text after the first
      `website_images/`. When the marker is absent `indexOf` gives -1, so the path is
      the URL from position 14 on (empty when the URL is shorter). */
  function StoragePath(url: string): (r: string)
    ensures Contains(url, Marker) ==> r == url[IndexOf(url, Marker) + |Marker|..]
    ensures !Contains(url, Marker) ==> r == url[(if |url| < 14 then |url| else 14)..]
  {
    var start := IndexOf(url, Marker) + |BucketName| + 1;
    url[(if start > |url| then |url| else start)..]
  }

  /** The text of a public URL before the object's path. */
  function UrlPrefix(origin: string): string
  {
    origin + "/storage/v1/object/public/" + BucketName
  }

  /** The path derived from the public URL of an object is the object's path, as long
      as the marker does not already occur in the URL's fixed prefix and the path holds
      no character `encodeURI` would percent-encode. */
  lemma StoragePathOfPublicUrl(store: Store, path: string)
    requires !Contains(UrlPrefix(store.origin), Marker) && UriSafe(path)
    ensures StoragePath(store.PublicUrl(path)) == path
  {
    var prefix := UrlPrefix(store.origin);
    var url := store.PublicUrl(path);
    assert url == prefix + "/" + path;
    var p := |prefix| - |BucketName|;
    assert url[p..p + |Marker|] == Marker;
    forall j | 0 <= j < p ensures !StartsWith(url[j..], Marker) {
      if StartsWith(url[j..], Marker) {
        assert url[j..][..|Marker|] == prefix[j..j + |Marker|];
        assert OccursAt(prefix, Marker, j);
        ContainsIff(prefix, Marker);
        assert false;
      }
    }
    IndexOfFirst(url, Marker, p);
    assert url[p + |Marker|..] == path;
  }

  /** Whether `deleteProduct` removes an object for this URL, and which one. */
  function RemovedPath(imageUrl: Option<string>): (r: Option<string>)
    ensures r.Some? ==> imageUrl.Some? && imageUrl.value != "" && r.value != ""
    ensures imageUrl.Some? && imageUrl.value != "" && StoragePath(imageUrl.value) != "" ==> r == Some(StoragePath(imageUrl.value))
  {
    if imageUrl.Some? && imageUrl.value != "" && StoragePath(imageUrl.value) != "" then Some(StoragePath(imageUrl.value)) else None
  }

  /** `deleteProduct`: a non-empty path derived from the image URL is removed from
      storage first, and an error there is only logged; the row is then deleted, and
      that error is the one reported. */
  method DeleteProduct(store: Store, id: int, imageUrl: Option<string>, removeReply: Option<string>, deleteReply: Option<string>)
    returns (err: Option<string>)
    modifies store
    ensures err == deleteReply
    ensures var removed := RemovedPath(imageUrl);
      store.calls == old(store.calls) + (if removed.Some? then [ObjectRemove(removed.value)] else []) + [ProductDelete(id)]
    ensures var removed := RemovedPath(imageUrl);
      store.Tables() == old(store.Tables()).(
        objects := if removed.Some? && removeReply.None? then old(store.objects) - {removed.value} else old(store.objects),
        products := if deleteReply.None? then old(store.products) - {id} else old(store.products))
    ensures store.nextProductId == old(store.nextProductId)
  {
    if imageUrl.Some? && imageUrl.value != "" {
      var path := StoragePath(imageUrl.value);
      if path != "" {
        var ignored := store.Remove(path, removeReply);
      }
    }
    err := store.DeleteProduct(id, deleteReply);
  }
}
