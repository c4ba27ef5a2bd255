/** The home section editor: the configured fields that have a value are written as
    `site_content` upserts, then an optional image replaces the section's named image. */
module HomeSection {
  import opened Wrappers
  import opened Sequences
  import opened Backend
  import opened SiteContent
  import opened SectionImages

  /** The elements that a list of updates writes, in order. */
  function Elements(us: seq<Update>): (r: seq<string>)
    ensures |r| == |us|
    ensures forall i :: 0 <= i < |us| ==> r[i] == us[i].element
  {
    seq(|us|, i requires 0 <= i < |us| => us[i].element)
  }

  /** `onSubmit`'s filter and map: one update per configured field whose value is
      defined, in field order, each with the section's key and the field's value. */
  function HomeUpdates(section: string, fields: seq<string>, values: map<string, string>): (r: seq<Update>)
    ensures Elements(r) == Filter(fields, (f: string) => f in values)
    ensures forall i :: 0 <= i < |r| ==> r[i].section == section && r[i].element in values && r[i].content == values[r[i].element]
    decreases |fields|
  {
    if fields == [] then []
    else
      var rest := HomeUpdates(section, fields[1..], values);
      if fields[0] in values then [Update(section, fields[0], values[fields[0]])] + rest else rest
  }

  /** `onSubmit`: the content is written first and a failure there stops the submit
      before the image step; the image step runs only with an image name and a file,
      uploads and then upserts the row by name. `contentReplies[i]` answers the i-th
      upsert. The outcome is a success only after every step it ran has completed. */
  method OnSubmit(store: Store, section: string, fields: seq<string>, values: map<string, string>,
                  imageName: string, image: Option<File>,
                  contentReplies: seq<Option<string>>, uploadReply: Option<string>, recordReply: Option<string>)
    returns (outcome: Outcome)
    requires |contentReplies| == |HomeUpdates(section, fields, values)|
    modifies store
    ensures var us := HomeUpdates(section, fields, values);
      var n := FirstError(contentReplies);
      n < |us| ==>
        && outcome == Fail(contentReplies[n].value)
        && store.calls == old(store.calls) + UpsertCalls(us[..n + 1])
        && store.Tables() == old(store.Tables()).(siteContent := ApplyUpdates(old(store.siteContent), us[..n]))
    ensures var us := HomeUpdates(section, fields, values);
      FirstError(contentReplies) == |us| && (imageName == "" || image.None?) ==>
        && outcome == Pass
        && store.calls == old(store.calls) + UpsertCalls(us)
        && store.Tables() == old(store.Tables()).(siteContent := ApplyUpdates(old(store.siteContent), us))
    ensures var us := HomeUpdates(section, fields, values);
      var path := PublicPath(imageName);
      FirstError(contentReplies) == |us| && imageName != "" && image.Some? ==>
        && outcome == (if uploadReply.Some? then Fail(uploadReply.value)
                       else if recordReply.Some? then Fail(recordReply.value) else Pass)
        && store.calls == old(store.calls) + UpsertCalls(us) + [ObjectUpload(path)] + (if uploadReply.None? then [ImageUpsert(imageName)] else [])
        && store.Tables() == old(store.Tables()).(
             siteContent := ApplyUpdates(old(store.siteContent), us),
             objects := if uploadReply.None? then old(store.objects)[path := image.value] else old(store.objects),
             images := if uploadReply.None? && recordReply.None?
               then WithImage(old(store.images), imageName, section, store.PublicUrl(path)) else old(store.images))
    ensures store.nextProductId == old(store.nextProductId)
  {
    var updates := HomeUpdates(section, fields, values);
    if |updates| > 0 {
      var err := UpdateSiteContent(store, updates, contentReplies);
      if err.Some? {
        return Fail(err.value);
      }
    }
    assert updates[..|updates|] == updates;
    if imageName != "" && image.Some? {
      var url := UploadImage(store, image.value, imageName, uploadReply);
      if url.Failure? {
        return Fail(url.error);
      }
      var err := UpdateImageRecord(store, imageName, section, url.value, recordReply);
      if err.Some? {
        return Fail(err.value);
      }
    }
    outcome := Pass;
  }
}
