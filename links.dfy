/**
 * The API links of a record's file entry (`file_links_item`): self, content
 * and commit always; preview and thumbnail only for a file that is not
 * derived and whose file is a PDF, a JPEG or a PNG (`PreviewFileLink`,
 * `ThumbFileLink`). A link is given by the endpoint it addresses and the key
 * it addresses it for; the URI templates themselves are not modelled.
 */
module Links {
  import opened Wrappers
  import opened Naming
  import opened Mimetypes
  import opened Renderers
  import opened Store
  import opened Components
  import opened ComponentProperties

  datatype LinkName = SelfLink | ContentLink | CommitLink | PreviewLink | ThumbnailLink

  /** The endpoint a link addresses, for one key of the record. */
  datatype Target = Entry(key: Key) | ContentOf(key: Key) | CommitOf(key: Key) | PreviewOf(key: Key)

  /**
   * The mimetype of an entry's file: an entry has no file, hence no
   * mimetype, until content is uploaded; the file's mimetype is guessed from
   * the key.
   */
  function FileMimetype(key: Key, entry: FileEntry): (m: Option<string>)
    ensures m.Some? <==> entry.content.Some?
  {
    if entry.content.None? then None else Some(GuessType(key))
  }

  /** `PreviewFileLink.should_render`: never for a derived file, else a PDF, JPEG or PNG file. */
  predicate ShouldRender(entry: FileEntry, mimetype: Option<string>)
  {
    if IsDerived(entry) then false
    else if mimetype.None? then false
    else mimetype.value == Pdf || mimetype.value == "image/jpeg" || mimetype.value == "image/png"
  }

  /**
   * `ThumbFileLink.vars`: the template variables gain "thumb", the key of
   * the file's thumbnail; the renaming error of an empty key is raised.
   */
  function ThumbVars(vars: map<string, string>, key: Key): (r: Result<map<string, string>, NamingError>)
  {
    match ChangeFilenameExtension(key, "jpg")
    case Failure(e) => Failure(e)
    case Success(thumb) => Success(vars["thumb" := thumb])
  }

  /** The variables of a link template, updated in place by `ThumbFileLink.vars`. */
  class TemplateVars {
    var vars: map<string, string>

    constructor (vars: map<string, string>)
      ensures this.vars == vars
    {
      this.vars := vars;
    }

    method ThumbFileLinkVars(key: Key) returns (r: Outcome<NamingError>)
      modifies this
      ensures r.Pass? <==> ThumbVars(old(vars), key).Success?
      ensures r.Pass? ==> vars == ThumbVars(old(vars), key).value
      ensures r.Fail? ==> vars == old(vars) && r.error == ThumbVars(old(vars), key).error
    {
      var thumb := ChangeFilenameExtension(key, "jpg");
      if thumb.Failure? {
        return Fail(thumb.error);
      }
      vars := vars["thumb" := thumb.value];
      r := Pass;
    }
  }

  /**
   * `file_links_item` expanded for one entry whose file has `mimetype`: the
   * three base links, then preview and thumbnail where `should_render` says
   * so; the thumbnail link's variables come from `ThumbVars`, whose error is
   * raised.
   */
  function Links(key: Key, entry: FileEntry, mimetype: Option<string>): (r: Result<map<LinkName, Target>, NamingError>)
  {
    var base := map[SelfLink := Entry(key), ContentLink := ContentOf(key), CommitLink := CommitOf(key)];
    if !ShouldRender(entry, mimetype) then Success(base)
    else
      match ThumbVars(map["key" := key], key)
      case Failure(e) => Failure(e)
      case Success(vars) => Success(base[PreviewLink := PreviewOf(key)][ThumbnailLink := ContentOf(vars["thumb"])])
  }

  /** The links of an entry, its file's mimetype guessed from its key. */
  function FileLinks(key: Key, entry: FileEntry): (r: Result<map<LinkName, Target>, NamingError>)
  {
    Links(key, entry, FileMimetype(key, entry))
  }

  /**
   * Which links an entry has: the base links always, preview and thumbnail
   * together, exactly when `should_render` holds; the renaming error is
   * raised only for the empty key.
   */
  lemma LinkSet(key: Key, entry: FileEntry, mimetype: Option<string>)
    ensures Links(key, entry, mimetype).Failure? <==> key == [] && ShouldRender(entry, mimetype)
    ensures Links(key, entry, mimetype).Success? ==>
              var links := Links(key, entry, mimetype).value;
              {SelfLink, ContentLink, CommitLink} <= links.Keys <= {SelfLink, ContentLink, CommitLink, PreviewLink, ThumbnailLink} &&
              (PreviewLink in links <==> ThumbnailLink in links) &&
              (PreviewLink in links <==> ShouldRender(entry, mimetype))
  {
  }

  /** Where the base links and the preview link point: at the entry's own key. */
  lemma BaseLinkTargets(key: Key, entry: FileEntry, mimetype: Option<string>)
    requires Links(key, entry, mimetype).Success?
    ensures var links := Links(key, entry, mimetype).value;
            links[SelfLink] == Entry(key) && links[ContentLink] == ContentOf(key) && links[CommitLink] == CommitOf(key) &&
            (PreviewLink in links ==> links[PreviewLink] == PreviewOf(key))
  {
  }

  /**
   * Where the thumbnail link points: at the content of the key the commit
   * hook gives the entry's thumbnail.
   */
  lemma ThumbnailLinkTarget(key: Key, entry: FileEntry, mimetype: Option<string>)
    requires Links(key, entry, mimetype).Success? && ThumbnailLink in Links(key, entry, mimetype).value
    ensures key != [] && Links(key, entry, mimetype).value[ThumbnailLink] == ContentOf(ChangeFilenameExtension(key, "jpg").value)
  {
  }

  /**
   * The renaming error never reaches the links of a stored entry: an empty
   * key has no extension, so its file is never a PDF, JPEG or PNG.
   */
  lemma FileLinksNeverFail(key: Key, entry: FileEntry)
    ensures FileLinks(key, entry).Success?
  {
    if key == [] && entry.content.Some? {
      assert SplitExt(key).ext == [];
      GuessTypeWithoutExtension(key);
      assert |OctetStream| != |Pdf| && |OctetStream| != |"image/jpeg"| && |OctetStream| != |"image/png"|;
    }
  }

  /**
   * An entry gets preview and thumbnail links exactly when it is not
   * derived and has an uploaded PDF, JPEG or PNG file.
   */
  lemma FileLinkSet(key: Key, entry: FileEntry)
    ensures FileLinks(key, entry).Success?
    ensures (ThumbnailLink in FileLinks(key, entry).value) <==>
            !IsDerived(entry) && entry.content.Some? && GuessType(key) in {Pdf, "image/jpeg", "image/png"}
  {
    FileLinksNeverFail(key, entry);
    LinkSet(key, entry, FileMimetype(key, entry));
  }

  /** `ThumbFileLink.vars` sets "thumb" and leaves every other variable as it was. */
  lemma ThumbVarsOnlySetsThumb(vars: map<string, string>, key: Key)
    ensures ThumbVars(vars, key).Success? <==> key != []
    ensures ThumbVars(vars, key).Failure? ==> ThumbVars(vars, key).error == InvalidFilename(key)
    ensures var r := ThumbVars(vars, key);
            r.Success? ==>
              r.value.Keys == vars.Keys + {"thumb"} &&
              r.value["thumb"] == ChangeFilenameExtension(key, "jpg").value &&
              (forall name :: name in vars && name != "thumb" ==> r.value[name] == vars[name])
  {
  }

  /**
   * A thumbnail link is only shown for a file whose type the commit hook
   * draws thumbnails for.
   */
  lemma ThumbnailLinkOnlyForThumbnailTypes(key: Key, entry: FileEntry)
    requires ThumbnailLink in FileLinks(key, entry).value
    ensures ThumbnailSupported(GuessType(key))
  {
    FileLinkSet(key, entry);
    var m := GuessType(key);
    if m != Pdf {
      assert m[..6] == "image/";
    }
  }

  /**
   * The converse does not hold: a GIF ("a.gif" is one) that the library
   * resizes gets a completed thumbnail on commit, yet its entry has no
   * preview and no thumbnail link.
   */
  lemma GifHasNoThumbnailLink(files: Files, faults: set<Call>, thumbs: ThumbnailBackend, texts: TextBackend,
                              key: Key, source: Bytes, blob: Bytes)
    requires GuessType(key) == "image/gif"
    requires key in files && TypeOf(files[key]) != Some("thumbnail") && files[key].content == Some(source)
    requires thumbs.image(source) == Some(blob) && blob != []
    requires key != [] ==>
               var thumbKey := ChangeFilenameExtension(key, "jpg").value;
               thumbKey !in files && InitCall(thumbKey) !in faults &&
               SetContentCall(thumbKey) !in faults && CommitCall(thumbKey) !in faults
    ensures key != []
    ensures var thumbKey := ChangeFilenameExtension(key, "jpg").value;
            var out := CommitEffect(files, faults, thumbs, texts, key).files;
            thumbKey in out && out[thumbKey] == FileEntry(Completed, DerivedMetadata(Thumbnail, key), Some(blob))
    ensures ThumbnailLink !in FileLinks(key, files[key]).value && PreviewLink !in FileLinks(key, files[key]).value
  {
    GifKeyNotEmpty(key);
    assert "image/gif"[..6] == "image/";
    ImageGetsThumbnail(files, faults, thumbs, texts, key, source, blob);
    FileLinkSet(key, files[key]);
    LinkSet(key, files[key], FileMimetype(key, files[key]));
  }

  /** Only a key with an extension guesses a GIF: the empty key is an octet stream. */
  lemma GifKeyNotEmpty(key: Key)
    requires GuessType(key) == "image/gif"
    ensures key != []
  {
    if key == [] {
      assert SplitExt(key).ext == [];
      GuessTypeWithoutExtension(key);
    }
  }

  lemma GifType()
    ensures GuessType("a.gif") == "image/gif"
  {
    assert "a"[0] != '.';
    SplitSimpleName("a" + "." + "gif", "a", "gif");
    assert "a" + "." + "gif" == "a.gif";
    assert ".gif" in KnownTypes;
  }

  /** An entry without content has the base links only, whatever its key. */
  lemma LinksBeforeUpload(key: Key, metadata: Metadata)
    ensures FileLinks(key, FileEntry(Pending, metadata, None)).value.Keys == {SelfLink, ContentLink, CommitLink}
  {
  }

  /**
   * Once uploaded, a PDF entry that is not derived has all five links, the
   * thumbnail pointing at its thumbnail's content ("test-pdf.jpg" for
   * "test.pdf", as the repository's tests expect; see PdfType).
   */
  lemma PdfLinksAfterUpload(key: Key, entry: FileEntry)
    requires GuessType(key) == Pdf && !IsDerived(entry) && entry.content.Some?
    ensures var links := FileLinks(key, entry).value;
            links.Keys == {SelfLink, ContentLink, CommitLink, PreviewLink, ThumbnailLink} &&
            links[ThumbnailLink] == ContentOf(ChangeFilenameExtension(key, "jpg").value)
  {
    FileLinkSet(key, entry);
    LinkSet(key, entry, FileMimetype(key, entry));
    ThumbnailLinkTarget(key, entry, FileMimetype(key, entry));
  }

  /** "test.pdf" is a PDF (its thumbnail key is "test-pdf.jpg" by TestKeyExample). */
  lemma PdfType()
    ensures GuessType("test.pdf") == Pdf
  {
    assert "test"[0] != '.';
    SplitSimpleName("test" + "." + "pdf", "test", "pdf");
    assert "test" + "." + "pdf" == "test.pdf";
    assert ".pdf" in KnownTypes;
  }
}
