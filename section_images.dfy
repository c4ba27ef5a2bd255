/** The image helpers that the section forms share: the generated name of an added
    image, an upload under `public/` that overwrites, and an upsert of the `images`
    row by name. */
module SectionImages {
  import opened Wrappers
  import opened Strings
  import opened Backend

  /** The name of an added image: `<section>/<uuid>.<extension>`, the extension being
      the file name's text after its last '.' (all of it when it has none). */
  function ImageName(section: string, uuid: string, fileName: string): string
  {
    section + "/" + uuid + "." + Last(Split(fileName, '.'))
  }

  /** The generated name starts with the section and a '/', and keeps the file's
      extension: the text after its last '.' is the file name's. */
  lemma ImageNameSpec(section: string, uuid: string, fileName: string)
    ensures StartsWith(ImageName(section, uuid, fileName), section + "/")
    ensures Last(Split(ImageName(section, uuid, fileName), '.')) == Last(Split(fileName, '.'))
    ensures '.' !in fileName ==> Last(Split(ImageName(section, uuid, fileName), '.')) == fileName
  {
    var ext := Last(Split(fileName, '.'));
    AfterLastSpec(fileName, '.');
    var name := ImageName(section, uuid, fileName);
    assert name == (section + "/" + uuid) + ['.'] + ext;
    AfterLastOf(section + "/" + uuid, '.', ext);
    assert name[..|section + "/"|] == section + "/";
  }

  /** The storage path of a section image. */
  function PublicPath(imageName: string): (p: string)
    ensures |p| == |imageName| + 7 && p[7..] == imageName
  {
    "public/" + imageName
  }

  /** `uploadImage`: stores the file at `public/<imageName>`, replacing what was there,
      and gives back the object's public URL, or the upload's error. */
  method UploadImage(store: Store, file: File, imageName: string, reply: Option<string>) returns (r: Result<string>)
    modifies store
    ensures r == if reply.Some? then Failure(reply.value) else Success(store.PublicUrl(PublicPath(imageName)))
    ensures store.Tables() == old(store.Tables()).(objects :=
      if reply.None? then old(store.objects)[PublicPath(imageName) := file] else old(store.objects))
    ensures store.calls == old(store.calls) + [ObjectUpload(PublicPath(imageName))]
    ensures store.nextProductId == old(store.nextProductId)
  {
    var err := store.Upload(PublicPath(imageName), file, true, reply);
    if err.Some? {
      return Failure(err.value);
    }
    r := Success(store.PublicUrl(PublicPath(imageName)));
  }

  /** `updateImageRecord`: upserts the row `{ name, section, url }` on `name`, so one
      name never has two rows. */
  method UpdateImageRecord(store: Store, name: string, section: string, url: string, reply: Option<string>) returns (err: Option<string>)
    modifies store
    ensures err == reply
    ensures store.Tables() == old(store.Tables()).(images :=
      if reply.None? then WithImage(old(store.images), name, section, url) else old(store.images))
    ensures store.calls == old(store.calls) + [ImageUpsert(name)]
    ensures store.nextProductId == old(store.nextProductId)
  {
    err := store.UpsertImage(name, section, url, reply);
  }
}
