/** The gallery's add-image and edit-image forms: each uploads a file, then writes
    the `images` row, keeping an `isUploading` flag while it works. */
module ImageForms {
  import opened Wrappers
  import opened Strings
  import opened Backend
  import opened SectionImages

  const Gallery := "gallery"

  /** The add form's schema: at least one file and a non-empty alternative text. */
  predicate ValidAdd(files: seq<File>, altText: string)
  {
    |files| > 0 && altText != ""
  }

  /** Where an edited image's new file is stored: `gallery/<timestamp>_<file name>`. */
  function EditPath(now: nat, fileName: string): string
  {
    Gallery + "/" + NatToString(now) + "_" + fileName
  }

  /** An edit path is `gallery/`, then the timestamp's digits, then '_', then the file
      name. */
  lemma EditPathShape(now: nat, fileName: string)
    ensures StartsWith(EditPath(now, fileName), Gallery + "/")
    ensures var p := EditPath(now, fileName);
      var k := |Gallery| + 1 + |NatToString(now)|;
      && k < |p| && p[k] == '_' && p[k + 1..] == fileName
      && forall i :: |Gallery| + 1 <= i < k ==> '0' <= p[i] <= '9'
  {
    var p := EditPath(now, fileName);
    var digits := NatToString(now);
    assert p == Gallery + "/" + digits + "_" + fileName;
    assert p[..|Gallery| + 1] == Gallery + "/";
    forall i | |Gallery| + 1 <= i < |Gallery| + 1 + |digits| ensures '0' <= p[i] <= '9' {
      assert p[i] == digits[i - |Gallery| - 1];
    }
  }

  /** An edit never stores its file under a key the add form generates, as long as
      the add form's uuid holds no '_' (a `crypto.randomUUID()` value holds only hex
      digits and '-'): where the edit path has its '_' after the digits, the key has a
      uuid character or its '.', or it had its '.' already among the digits. */
  lemma EditPathNotAddKey(now: nat, fileName: string, uuid: string, addFileName: string)
    requires '_' !in uuid
    ensures EditPath(now, fileName) != ImageName(Gallery, uuid, addFileName)
  {
    EditPathShape(now, fileName);
    var p := EditPath(now, fileName);
    var key := ImageName(Gallery, uuid, addFileName);
    var g := |Gallery| + 1;
    var k := g + |NatToString(now)|;
    var u := g + |uuid|;
    assert key == Gallery + "/" + uuid + "." + Last(Split(addFileName, '.'));
    if k < u {
      assert key[k] == uuid[k - g];
      assert p[k] != key[k];
    } else if k == u {
      assert key[u] == '.';
      assert p[k] != key[k];
    } else {
      assert key[u] == '.';
      assert '0' <= p[u] <= '9';
      assert p[u] != key[u];
    }
  }

  class AddImageForm {
    var isUploading: bool

    constructor ()
      ensures !isUploading
    {
      isUploading := false;
    }

    /** `onSubmit`: the first file is uploaded, without overwrite, to
        `gallery/<uuid>.<extension>`, and an upload error is reported before any row
        is written. The row `{ name: key, section: 'gallery', url, alt_text }` is then
        inserted, with the public URL of that same key; the insert's error is not
        looked at. `isUploading` is false whatever happened. */
    method Submit(store: Store, files: seq<File>, altText: string, uuid: string, uploadReply: Option<string>, insertReply: Option<string>)
      returns (outcome: Outcome)
      requires ValidAdd(files, altText)
      modifies this, store
      ensures !isUploading
      ensures store.nextProductId == old(store.nextProductId)
      ensures var key := ImageName(Gallery, uuid, files[0].name);
        var uploadErr := if uploadReply.Some? then uploadReply else if key in old(store.objects) then Some(AlreadyExists) else None;
        uploadErr.Some? ==>
          && outcome == Fail(uploadErr.value)
          && store.Tables() == old(store.Tables())
          && store.calls == old(store.calls) + [ObjectUpload(key)]
      ensures var key := ImageName(Gallery, uuid, files[0].name);
        var uploadErr := if uploadReply.Some? then uploadReply else if key in old(store.objects) then Some(AlreadyExists) else None;
        var inserted := insertReply.None? && key !in old(store.images);
        uploadErr.None? ==>
          && outcome == Pass
          && store.calls == old(store.calls) + [ObjectUpload(key), ImageInsert(key)]
          && store.Tables() == old(store.Tables()).(
               objects := old(store.objects)[key := files[0]],
               images := if inserted then old(store.images)[key := ImageRow(Gallery, store.PublicUrl(key), altText)] else old(store.images))
    {
      isUploading := true;
      var file := files[0];
      var key := ImageName(Gallery, uuid, file.name);
      var err := store.Upload(key, file, false, uploadReply);
      if err.Some? {
        isUploading := false;
        return Fail(err.value);
      }
      var url := store.PublicUrl(key);
      var ignored := store.InsertImage(key, ImageRow(Gallery, url, altText), insertReply);
      outcome := Pass;
      isUploading := false;
    }
  }

  /** The image an edit form was opened on. */
  datatype Shown = Shown(name: string, url: string, altText: string)

  class EditImageForm {
    const image: Shown
    var isUploading: bool

    constructor (image: Shown)
      ensures this.image == image && !isUploading
    {
      this.image := image;
      isUploading := false;
    }

    /** `onSubmit`: an optional new file is uploaded, without overwrite, to its edit
        path, and an upload error is reported before anything else. After a successful
        upload the object named by the row's name is removed (its error is not looked
        at). The row with the image's name then gets the new or kept URL and the new
        alternative text; that update's error is not looked at either. The row keeps
        its name, so after a new upload it no longer names the object its URL points
        to. `isUploading` is false whatever happened. */
    method Submit(store: Store, file: Option<File>, altText: string, now: nat,
                  uploadReply: Option<string>, removeReply: Option<string>, updateReply: Option<string>)
      returns (outcome: Outcome)
      requires altText != ""
      modifies this, store
      ensures !isUploading
      ensures store.nextProductId == old(store.nextProductId)
      ensures var path := EditPath(now, if file.Some? then file.value.name else "");
        var uploadErr := if uploadReply.Some? then uploadReply else if path in old(store.objects) then Some(AlreadyExists) else None;
        file.Some? && uploadErr.Some? ==>
          && outcome == Fail(uploadErr.value)
          && store.Tables() == old(store.Tables())
          && store.calls == old(store.calls) + [ObjectUpload(path)]
      ensures var path := EditPath(now, if file.Some? then file.value.name else "");
        var uploadErr := if uploadReply.Some? then uploadReply else if path in old(store.objects) then Some(AlreadyExists) else None;
        var removes := file.Some? && image.name != "";
        var url := if file.Some? then store.PublicUrl(path) else image.url;
        var uploaded := if file.Some? then old(store.objects)[path := file.value] else old(store.objects);
        file.None? || uploadErr.None? ==>
          && outcome == Pass
          && store.calls == old(store.calls) + (if file.Some? then [ObjectUpload(path)] else [])
               + (if removes then [ObjectRemove(image.name)] else []) + [ImageUpdate(image.name)]
          && store.Tables() == old(store.Tables()).(
               objects := if removes && removeReply.None? then uploaded - {image.name} else uploaded,
               images := if updateReply.None? && image.name in old(store.images)
                 then old(store.images)[image.name := ImageRow(old(store.images)[image.name].section, url, altText)]
                 else old(store.images))
    {
      isUploading := true;
      var newUrl := image.url;
      var path := EditPath(now, if file.Some? then file.value.name else "");
      if file.Some? {
        var err := store.Upload(path, file.value, false, uploadReply);
        if err.Some? {
          isUploading := false;
          return Fail(err.value);
        }
        newUrl := store.PublicUrl(path);
        if image.name != "" {
          var ignored := store.Remove(image.name, removeReply);
        }
      }
      var ignored := store.UpdateImage(image.name, newUrl, Some(altText), updateReply);
      outcome := Pass;
      isUploading := false;
    }
  }
}
