/**
 * `ThumbnailAndFulltextComponent`: the hooks the file service runs after it
 * commits or deletes a file of a record. On commit, a thumbnail ("<key>.jpg"
 * shape) and a full text ("<key>.txt" shape) are derived from the file, each
 * in its own failure domain; on delete, both derived keys are deleted.
 *
 * The component is registered on the file service, so the service's own
 * `commit_file` and `delete_file`, which the hooks call for the derived
 * keys, run the hooks again on those keys. The functions below follow that
 * call structure (CommitEffect, TryGenerate and ServiceCommit; DeleteEffect
 * and ServiceDelete), and the class methods are proved to have exactly
 * their effect.
 */
module Components {
  import opened Wrappers
  import opened Naming
  import opened Mimetypes
  import opened Renderers
  import opened Store

  /** The two kinds of derived file. */
  datatype Kind = Thumbnail | Fulltext

  function TargetExtension(kind: Kind): string
  {
    match kind
    case Thumbnail => "jpg"
    case Fulltext => "txt"
  }

  function TypeName(kind: Kind): string
  {
    match kind
    case Thumbnail => "thumbnail"
    case Fulltext => "fulltext"
  }

  function BackReference(kind: Kind): string
  {
    match kind
    case Thumbnail => "thumbnail_for"
    case Fulltext => "fulltext_for"
  }

  /** The metadata of a derived file: its kind and the key it was derived from. */
  function DerivedMetadata(kind: Kind, fileKey: Key): Metadata
  {
    map["type" := TypeName(kind), BackReference(kind) := fileKey]
  }

  /** `entry.get("metadata", {}).get("type")` */
  function TypeOf(entry: FileEntry): Option<string>
  {
    if "type" in entry.metadata then Some(entry.metadata["type"]) else None
  }

  /** A thumbnail or a full text, by its metadata. */
  predicate IsDerived(entry: FileEntry)
  {
    TypeOf(entry) == Some("thumbnail") || TypeOf(entry) == Some("fulltext")
  }

  /** The exceptions raised inside the hooks. */
  datatype Error =
    | NoSuchFile(key: Key)        // `record.files[file_key]` on a key the record lacks
    | NoFileObject(key: Key)      // an entry without content has no file to read
    | Rendering(renderError: RenderError)
    | Renaming(namingError: NamingError)
    | Storage(storeError: StoreError)

  /** The service's "file key not found", the one error the delete hook swallows. */
  predicate IsNotFound(e: Error)
  {
    e.Storage? && e.storeError.FileKeyNotFound?
  }

  /** What a hook raises, if anything, and the record's entries afterwards. */
  datatype Effect = Effect(outcome: Outcome<Error>, files: Files)

  /**
   * What one branch of the commit hook would store: the thumbnail blob, or
   * the UTF-8 bytes of the full text. None when the renderer gives nothing
   * or an empty value (both are false in the source's `if`); an error when
   * the file cannot be read or the renderer raises.
   */
  function Payload(kind: Kind, thumbs: ThumbnailBackend, texts: TextBackend, fileKey: Key, entry: FileEntry)
    : (p: Result<Option<Bytes>, Error>)
    ensures p.Success? && p.value.Some? ==>
              entry.content.Some? && p.value.value != [] &&
              (kind == Thumbnail ==> ThumbnailSupported(GuessType(fileKey))) &&
              (kind == Fulltext ==> FulltextSupported(GuessType(fileKey)))
  {
    match entry.content
    case None => Failure(NoFileObject(fileKey))
    case Some(source) =>
      var mimetype := GuessType(fileKey);
      match kind
      case Thumbnail =>
        (match CreateThumbnailFromFile(thumbs, source, mimetype)
         case Failure(e) => Failure(Rendering(e))
         case Success(blob) => if blob.None? || blob.value == [] then Success(None) else Success(blob))
      case Fulltext =>
        (match CreateFulltextFromFile(texts, source, mimetype)
         case Failure(e) => Failure(Rendering(e))
         case Success(text) =>
           if text.None? || text.value == [] then Success(None) else Success(Some(Utf8Encode(text.value))))
  }

  /**
   * The termination measure of the commit hook: 1 for a file that can still
   * give rise to a derived file, 0 for one that cannot (missing, a thumbnail,
   * or a mimetype without thumbnail or full text).
   */
  function CommitRank(files: Files, fileKey: Key): nat
  {
    if fileKey in files && TypeOf(files[fileKey]) != Some("thumbnail") &&
       (ThumbnailSupported(GuessType(fileKey)) || FulltextSupported(GuessType(fileKey)))
    then 1 else 0
  }

  function PayloadRank(payload: Result<Option<Bytes>, Error>): nat
  {
    if payload.Success? && payload.value.Some? then 1 else 0
  }

  /**
   * The full-text key of a file gets neither a thumbnail nor a full text:
   * its extension is ".txt" (mimetype text/plain) or none at all.
   */
  lemma TextKeyHasNoRenderer(fileKey: Key)
    requires fileKey != []
    ensures var textKey := ChangeFilenameExtension(fileKey, "txt").value;
            !ThumbnailSupported(GuessType(textKey)) && !FulltextSupported(GuessType(textKey))
  {
    var textKey := ChangeFilenameExtension(fileKey, "txt").value;
    DerivedKeyExtension(fileKey, "txt");
    if SplitExt(textKey).ext == [] {
      GuessTypeWithoutExtension(textKey);
    } else {
      GuessTypeOfText(textKey);
    }
  }

  /**
   * A derived entry just written can give rise to nothing more: a thumbnail
   * by its type, a full text by its key.
   */
  lemma DerivedEntryRankZero(files: Files, fileKey: Key, kind: Kind)
    requires fileKey != []
    requires var derivedKey := ChangeFilenameExtension(fileKey, TargetExtension(kind)).value;
             derivedKey in files && files[derivedKey].metadata == DerivedMetadata(kind, fileKey)
    ensures CommitRank(files, ChangeFilenameExtension(fileKey, TargetExtension(kind)).value) == 0
  {
    var derivedKey := ChangeFilenameExtension(fileKey, TargetExtension(kind)).value;
    assert "type" in DerivedMetadata(kind, fileKey) && DerivedMetadata(kind, fileKey)["type"] == TypeName(kind);
    if kind == Fulltext {
      TextKeyHasNoRenderer(fileKey);
    }
  }

  lemma GuessTypeOfText(key: Key)
    requires SplitExt(key).ext == ".txt"
    ensures GuessType(key) == "text/plain"
    ensures !ThumbnailSupported(GuessType(key)) && !FulltextSupported(GuessType(key))
  {
    assert ".txt" in KnownTypes;
    assert "text/plain"[0] != "image/"[0];
  }

  lemma GuessTypeWithoutExtension(key: Key)
    requires SplitExt(key).ext == []
    ensures GuessType(key) == OctetStream
    ensures !ThumbnailSupported(GuessType(key)) && !FulltextSupported(GuessType(key))
  {
    assert LowerAscii([]) == [];
    assert [] !in KnownTypes;
    assert OctetStream[0] != "image/"[0];
  }

  /**
   * `commit_file` of the component: nothing for a thumbnail; otherwise the
   * thumbnail branch, then the full-text branch, each of whose errors is
   * swallowed. Only reading a key the record lacks raises.
   */
  function CommitEffect(files: Files, faults: set<Call>, thumbs: ThumbnailBackend, texts: TextBackend, fileKey: Key)
    : Effect
    decreases CommitRank(files, fileKey), 2
  {
    if fileKey !in files then
      Effect(Fail(NoSuchFile(fileKey)), files)
    else
      var entry := files[fileKey];
      if TypeOf(entry) == Some("thumbnail") then
        Effect(Pass, files)
      else
        var thumbnail := TryGenerate(files, faults, thumbs, texts, fileKey, Thumbnail,
                                     Payload(Thumbnail, thumbs, texts, fileKey, entry));
        var fulltext := TryGenerate(thumbnail.files, faults, thumbs, texts, fileKey, Fulltext,
                                    Payload(Fulltext, thumbs, texts, fileKey, entry));
        Effect(Pass, fulltext.files)
  }

  /**
   * One branch of the commit hook: when there is something to store, name
   * the derived key, then init, set content and commit it through the
   * service, stopping at the first error, which is returned (the hook drops
   * it) with whatever the earlier steps did left in place.
   */
  function TryGenerate(files: Files, faults: set<Call>, thumbs: ThumbnailBackend, texts: TextBackend,
                       fileKey: Key, kind: Kind, payload: Result<Option<Bytes>, Error>)
    : Effect
    decreases PayloadRank(payload), 1
  {
    match payload
    case Failure(e) => Effect(Fail(e), files)
    case Success(None) => Effect(Pass, files)
    case Success(Some(content)) =>
      match ChangeFilenameExtension(fileKey, TargetExtension(kind))
      case Failure(e) => Effect(Fail(Renaming(e)), files)
      case Success(derivedKey) =>
        var initialised := Init(files, faults, derivedKey, DerivedMetadata(kind, fileKey));
        if initialised.outcome.Fail? then
          Effect(Fail(Storage(initialised.outcome.error)), initialised.files)
        else
          var written := SetContent(initialised.files, faults, derivedKey, content);
          if written.outcome.Fail? then
            Effect(Fail(Storage(written.outcome.error)), written.files)
          else
            DerivedEntryRankZero(written.files, fileKey, kind);
            ServiceCommit(written.files, faults, thumbs, texts, derivedKey)
  }

  /** The file service's `commit_file`: the storage commit, then this component's hook. */
  function ServiceCommit(files: Files, faults: set<Call>, thumbs: ThumbnailBackend, texts: TextBackend, key: Key)
    : Effect
    decreases CommitRank(files, key), 3
  {
    var committed := Commit(files, faults, key);
    if committed.outcome.Fail? then
      Effect(Fail(Storage(committed.outcome.error)), committed.files)
    else
      CommitEffect(committed.files, faults, thumbs, texts, key)
  }

  /**
   * `delete_file` of the component: nothing for a derived file; otherwise
   * delete the ".jpg" key, then the ".txt" key, through the service.
   * "Not found" is swallowed; any other error is raised at once, with what
   * was deleted before it left deleted.
   */
  function DeleteEffect(files: Files, faults: set<Call>, fileKey: Key, deleted: FileEntry): (e: Effect)
    ensures |e.files| <= |files|
    decreases |files|, 1
  {
    if IsDerived(deleted) then
      Effect(Pass, files)
    else
      match ChangeFilenameExtension(fileKey, "jpg")
      case Failure(e) => Effect(Fail(Renaming(e)), files)
      case Success(thumbKey) =>
        var thumb := ServiceDelete(files, faults, thumbKey);
        if thumb.outcome.Fail? && !IsNotFound(thumb.outcome.error) then
          thumb
        else
          // the key is not empty here, so naming cannot fail a second time
          var textKey := ChangeFilenameExtension(fileKey, "txt").value;
          var text := ServiceDelete(thumb.files, faults, textKey);
          if text.outcome.Fail? && !IsNotFound(text.outcome.error) then
            text
          else
            Effect(Pass, text.files)
  }

  /** The file service's `delete_file`: the storage delete, then this component's hook. */
  function ServiceDelete(files: Files, faults: set<Call>, key: Key): (e: Effect)
    ensures |e.files| <= |files|
    decreases |files|, 0
  {
    var removed := Delete(files, faults, key);
    if removed.outcome.Fail? then
      Effect(Fail(Storage(removed.outcome.error)), removed.files)
    else
      assert removed.files.Keys == files.Keys - {key};
      assert |removed.files| == |removed.files.Keys|;
      DeleteEffect(removed.files, faults, key, files[key])
  }

  /** The component, bound to the record's file service and to the rendering libraries. */
  class ThumbnailAndFulltextComponent {
    const service: FileService
    const thumbs: ThumbnailBackend
    const texts: TextBackend

    constructor (service: FileService, thumbs: ThumbnailBackend, texts: TextBackend)
      ensures this.service == service && this.thumbs == thumbs && this.texts == texts
    {
      this.service := service;
      this.thumbs := thumbs;
      this.texts := texts;
    }

    /** The commit hook; returns what it raises. */
    method CommitFile(fileKey: Key) returns (r: Outcome<Error>)
      modifies service
      decreases CommitRank(service.files, fileKey), 2
      ensures Effect(r, service.files) == CommitEffect(old(service.files), service.faults, thumbs, texts, fileKey)
    {
      if fileKey !in service.files {
        return Fail(NoSuchFile(fileKey));
      }
      var entry := service.files[fileKey];
      if TypeOf(entry) == Some("thumbnail") {
        return Pass;
      }
      // each branch is its own failure domain: what it raises is dropped
      var _ := TryGenerateFile(fileKey, Thumbnail, Payload(Thumbnail, thumbs, texts, fileKey, entry));
      var _ := TryGenerateFile(fileKey, Fulltext, Payload(Fulltext, thumbs, texts, fileKey, entry));
      r := Pass;
    }

    /** One branch of the commit hook; returns what it raises. */
    method TryGenerateFile(fileKey: Key, kind: Kind, payload: Result<Option<Bytes>, Error>) returns (r: Outcome<Error>)
      modifies service
      decreases PayloadRank(payload), 1
      ensures Effect(r, service.files) ==
              TryGenerate(old(service.files), service.faults, thumbs, texts, fileKey, kind, payload)
    {
      if payload.Failure? {
        return Fail(payload.error);
      }
      if payload.value.None? {
        return Pass;
      }
      var named := ChangeFilenameExtension(fileKey, TargetExtension(kind));
      if named.Failure? {
        return Fail(Renaming(named.error));
      }
      var derivedKey := named.value;
      var initialised := service.InitFile(derivedKey, DerivedMetadata(kind, fileKey));
      if initialised.Fail? {
        return Fail(Storage(initialised.error));
      }
      var written := service.SetFileContent(derivedKey, payload.value.value);
      if written.Fail? {
        return Fail(Storage(written.error));
      }
      DerivedEntryRankZero(service.files, fileKey, kind);
      r := ServiceCommitFile(derivedKey);
    }

    /** The file service's `commit_file` with this component registered. */
    method ServiceCommitFile(key: Key) returns (r: Outcome<Error>)
      modifies service
      decreases CommitRank(service.files, key), 3
      ensures Effect(r, service.files) == ServiceCommit(old(service.files), service.faults, thumbs, texts, key)
    {
      var committed := service.CommitFile(key);
      if committed.Fail? {
        return Fail(Storage(committed.error));
      }
      r := CommitFile(key);
    }

    /** The delete hook, given the entry that was deleted; returns what it raises. */
    method DeleteFile(fileKey: Key, deleted: FileEntry) returns (r: Outcome<Error>)
      modifies service
      decreases |service.files|, 1
      ensures Effect(r, service.files) == DeleteEffect(old(service.files), service.faults, fileKey, deleted)
    {
      if IsDerived(deleted) {
        return Pass;
      }
      var named := ChangeFilenameExtension(fileKey, "jpg");
      if named.Failure? {
        return Fail(Renaming(named.error));
      }
      var thumb := ServiceDeleteFile(named.value);
      if thumb.Fail? && !IsNotFound(thumb.error) {
        return thumb;
      }
      var textKey := ChangeFilenameExtension(fileKey, "txt").value;
      var text := ServiceDeleteFile(textKey);
      if text.Fail? && !IsNotFound(text.error) {
        return text;
      }
      r := Pass;
    }

    /** The file service's `delete_file` with this component registered. */
    method ServiceDeleteFile(key: Key) returns (r: Outcome<Error>)
      modifies service
      decreases |service.files|, 0
      ensures Effect(r, service.files) == ServiceDelete(old(service.files), service.faults, key)
    {
      var deleted := if key in service.files then Some(service.files[key]) else None;
      var removed := service.DeleteFile(key);
      if removed.Fail? {
        return Fail(Storage(removed.error));
      }
      r := DeleteFile(key, deleted.value);
    }
  }
}
