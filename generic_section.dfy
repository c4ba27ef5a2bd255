/** The generic section editor: its form values become `site_content` upserts, and
    its image gallery adds, replaces and deletes images of the section. */
module GenericSection {
  import opened Wrappers
  import opened Strings
  import opened Backend
  import opened SiteContent
  import opened SectionImages

  const InvalidSection := "Image section is missing or invalid."
  const InvalidName := "Cannot delete image with invalid name."

  /** `addImage`: an empty section is refused before anything is sent; otherwise the
      file is uploaded under its generated name and the row is upserted, and the first
      error stops the sequence. */
  method AddImage(store: Store, section: string, file: File, uuid: string, uploadReply: Option<string>, recordReply: Option<string>)
    returns (r: Result<string>)
    modifies store
    ensures section == "" ==> r == Failure(InvalidSection) && store.Tables() == old(store.Tables()) && store.calls == old(store.calls)
    ensures var name := ImageName(section, uuid, file.name);
      section != "" ==>
        && r == (if uploadReply.Some? then Failure(uploadReply.value)
                 else if recordReply.Some? then Failure(recordReply.value)
                 else Success(store.PublicUrl(PublicPath(name))))
        && store.calls == old(store.calls) + [ObjectUpload(PublicPath(name))] + (if uploadReply.None? then [ImageUpsert(name)] else [])
        && store.Tables() == old(store.Tables()).(
             objects := if uploadReply.None? then old(store.objects)[PublicPath(name) := file] else old(store.objects),
             images := if uploadReply.None? && recordReply.None?
               then WithImage(old(store.images), name, section, store.PublicUrl(PublicPath(name))) else old(store.images))
    ensures store.nextProductId == old(store.nextProductId)
  {
    if section == "" {
      return Failure(InvalidSection);
    }
    var name := ImageName(section, uuid, file.name);
    r := UploadImage(store, file, name, uploadReply);
    if r.Failure? {
      return r;
    }
    var err := UpdateImageRecord(store, name, section, r.value, recordReply);
    if err.Some? {
      return Failure(err.value);
    }
  }

  /** `updateImage`: the file overwrites the image's object, then the row's URL is set
      to the object's public URL; an upload error stops before the row. */
  method UpdateImage(store: Store, imageName: string, file: File, uploadReply: Option<string>, dbReply: Option<string>)
    returns (err: Option<string>)
    modifies store
    ensures err == if uploadReply.Some? then uploadReply else dbReply
    ensures store.calls == old(store.calls) + [ObjectUpload(PublicPath(imageName))] + (if uploadReply.None? then [ImageUpdate(imageName)] else [])
    ensures store.Tables() == old(store.Tables()).(
      objects := if uploadReply.None? then old(store.objects)[PublicPath(imageName) := file] else old(store.objects),
      images := if uploadReply.None? && dbReply.None? && imageName in old(store.images)
        then old(store.images)[imageName := old(store.images)[imageName].(url := store.PublicUrl(PublicPath(imageName)))]
        else old(store.images))
    ensures store.nextProductId == old(store.nextProductId)
  {
    var url := UploadImage(store, file, imageName, uploadReply);
    if url.Failure? {
      return Some(url.error);
    }
    err := store.UpdateImage(imageName, url.value, None, dbReply);
  }

  /** `deleteImage`: the object at the same path the upload used is removed first; if
      that fails, the row is left alone. */
  method DeleteImage(store: Store, imageName: string, storageReply: Option<string>, dbReply: Option<string>)
    returns (err: Option<string>)
    modifies store
    ensures err == if storageReply.Some? then storageReply else dbReply
    ensures store.calls == old(store.calls) + [ObjectRemove(PublicPath(imageName))] + (if storageReply.None? then [ImageDelete(imageName)] else [])
    ensures store.Tables() == old(store.Tables()).(
      objects := if storageReply.None? then old(store.objects) - {PublicPath(imageName)} else old(store.objects),
      images := if storageReply.None? && dbReply.None? then old(store.images) - {imageName} else old(store.images))
    ensures store.nextProductId == old(store.nextProductId)
  {
    err := store.Remove(PublicPath(imageName), storageReply);
    if err.Some? {
      return;
    }
    err := store.DeleteImage(imageName, dbReply);
  }

  /** `handleImageDelete`: an empty name is refused without any call. */
  method HandleImageDelete(store: Store, imageName: string, storageReply: Option<string>, dbReply: Option<string>)
    returns (err: Option<string>)
    modifies store
    ensures imageName == "" ==> err == Some(InvalidName) && store.Tables() == old(store.Tables()) && store.calls == old(store.calls)
    ensures imageName != "" ==> err == if storageReply.Some? then storageReply else dbReply
    ensures imageName != "" ==> store.calls == old(store.calls) + [ObjectRemove(PublicPath(imageName))] + (if storageReply.None? then [ImageDelete(imageName)] else [])
    ensures imageName != "" ==> store.Tables() == old(store.Tables()).(
      objects := if storageReply.None? then old(store.objects) - {PublicPath(imageName)} else old(store.objects),
      images := if storageReply.None? && dbReply.None? then old(store.images) - {imageName} else old(store.images))
    ensures store.nextProductId == old(store.nextProductId)
  {
    if imageName == "" {
      return Some(InvalidName);
    }
    err := DeleteImage(store, imageName, storageReply, dbReply);
  }

  /** `onSubmit`'s mapping: one update per form key, in key order, each in the section. */
  function SubmitUpdates(section: string, values: seq<(string, string)>): (r: seq<Update>)
    ensures |r| == |values|
    ensures forall i :: 0 <= i < |values| ==> r[i].section == section && r[i].element == values[i].0 && r[i].content == values[i].1
  {
    seq(|values|, i requires 0 <= i < |values| => Update(section, values[i].0, values[i].1))
  }

  /** The keys of an object are distinct. */
  predicate DistinctKeys(values: seq<(string, string)>)
  {
    forall i, j :: 0 <= i < j < |values| ==> values[i].0 != values[j].0
  }

  /** After a successful submit every form key holds its value in the section, and
      every row outside the section is as it was. */
  lemma SubmitStoresValues(table: map<ContentKey, string>, section: string, values: seq<(string, string)>)
    requires DistinctKeys(values)
    ensures var t := ApplyUpdates(table, SubmitUpdates(section, values));
      forall i :: 0 <= i < |values| ==> ContentKey(section, values[i].0) in t && t[ContentKey(section, values[i].0)] == values[i].1
    ensures var t := ApplyUpdates(table, SubmitUpdates(section, values));
      forall k: ContentKey :: k.section != section ==> (k in t <==> k in table) && (k in table ==> t[k] == table[k])
  {
    var us := SubmitUpdates(section, values);
    forall i | 0 <= i < |values|
      ensures ContentKey(section, values[i].0) in ApplyUpdates(table, us)
      ensures ApplyUpdates(table, us)[ContentKey(section, values[i].0)] == values[i].1
    {
      ApplyUpdatesAt(table, us, KeyOf(us[i]));
    }
    forall k: ContentKey | k.section != section
      ensures k in ApplyUpdates(table, us) <==> k in table
      ensures k in table ==> ApplyUpdates(table, us)[k] == table[k]
    {
      ApplyUpdatesAt(table, us, k);
    }
  }

  /** `onSubmit`: the updates are written only when the form has keys. */
  method OnSubmit(store: Store, section: string, values: seq<(string, string)>, replies: seq<Option<string>>)
    returns (err: Option<string>)
    requires |replies| == |values|
    modifies store
    ensures values == [] ==> err == None && store.Tables() == old(store.Tables()) && store.calls == old(store.calls)
    ensures var us := SubmitUpdates(section, values);
      var n := FirstError(replies);
      && err == (if n < |us| then replies[n] else None)
      && store.Tables() == old(store.Tables()).(siteContent := ApplyUpdates(old(store.siteContent), us[..n]))
      && store.calls == old(store.calls) + UpsertCalls(us[..Attempted(replies)])
    ensures store.nextProductId == old(store.nextProductId)
  {
    var updates := SubmitUpdates(section, values);
    if |updates| > 0 {
      err := UpdateSiteContent(store, updates, replies);
    } else {
      err := None;
      assert updates[..0] == [];
    }
  }
}
