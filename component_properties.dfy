/**
 * What the commit and delete hooks of `ThumbnailAndFulltextComponent` do to
 * a record's entries, in closed form, and what the component guarantees:
 * the re-entrant runs on derived files stop at once, the two commit branches
 * are independent failure domains, nothing is rolled back, commit only adds
 * the two derived entries, delete removes them and is idempotent.
 */
module ComponentProperties {
  import opened Wrappers
  import opened Naming
  import opened Renderers
  import opened Store
  import opened Components

  /**
   * The entry a commit branch leaves at its derived key once `init_files`
   * has succeeded: still pending and empty when setting the content fails,
   * pending with content when the commit fails, completed otherwise.
   */
  function DerivedEntry(faults: set<Call>, derivedKey: Key, metadata: Metadata, content: Bytes): FileEntry
  {
    if SetContentCall(derivedKey) in faults then FileEntry(Pending, metadata, None)
    else if CommitCall(derivedKey) in faults then FileEntry(Pending, metadata, Some(content))
    else FileEntry(Completed, metadata, Some(content))
  }

  /**
   * The entries after one commit branch: a new entry at the derived key when
   * there is something to store, the key can be named, `init_files` does not
   * fail and the key is still free; otherwise the entries as they were.
   */
  function BranchFiles(files: Files, faults: set<Call>, fileKey: Key, kind: Kind,
                       payload: Result<Option<Bytes>, Error>): Files
  {
    if payload.Success? && payload.value.Some? && fileKey != [] then
      var derivedKey := ChangeFilenameExtension(fileKey, TargetExtension(kind)).value;
      if InitCall(derivedKey) in faults || derivedKey in files then files
      else files[derivedKey := DerivedEntry(faults, derivedKey, DerivedMetadata(kind, fileKey), payload.value.value)]
    else files
  }

  /** The keys a commit of `fileKey` may add: its thumbnail and full-text keys. */
  function DerivedKeys(fileKey: Key): set<Key>
  {
    if fileKey == [] then {}
    else {ChangeFilenameExtension(fileKey, "jpg").value, ChangeFilenameExtension(fileKey, "txt").value}
  }

  /**
   * Committing a derived entry through the service runs the hook on it
   * again, and that run changes nothing: a thumbnail is stopped by the type
   * guard, a full text by the mimetype of its key.
   */
  lemma ReentryStops(files: Files, faults: set<Call>, thumbs: ThumbnailBackend, texts: TextBackend,
                     fileKey: Key, kind: Kind)
    requires fileKey != []
    requires var derivedKey := ChangeFilenameExtension(fileKey, TargetExtension(kind)).value;
             derivedKey in files && files[derivedKey].metadata == DerivedMetadata(kind, fileKey)
    ensures CommitEffect(files, faults, thumbs, texts, ChangeFilenameExtension(fileKey, TargetExtension(kind)).value)
            == Effect(Pass, files)
  {
    var derivedKey := ChangeFilenameExtension(fileKey, TargetExtension(kind)).value;
    assert "type" in DerivedMetadata(kind, fileKey) && DerivedMetadata(kind, fileKey)["type"] == TypeName(kind);
    if kind == Fulltext {
      TextReentryStops(files, faults, thumbs, texts, fileKey, derivedKey);
    }
  }

  /** The full-text half of ReentryStops: neither renderer has anything for a ".txt" key. */
  lemma TextReentryStops(files: Files, faults: set<Call>, thumbs: ThumbnailBackend, texts: TextBackend,
                         fileKey: Key, textKey: Key)
    requires fileKey != [] && textKey == ChangeFilenameExtension(fileKey, "txt").value && textKey in files
    ensures var entry := files[textKey];
            TryGenerate(files, faults, thumbs, texts, textKey, Thumbnail, Payload(Thumbnail, thumbs, texts, textKey, entry)).files == files &&
            TryGenerate(files, faults, thumbs, texts, textKey, Fulltext, Payload(Fulltext, thumbs, texts, textKey, entry)).files == files
  {
    TextKeyHasNoRenderer(fileKey);
    var entry := files[textKey];
    NothingToStore(files, faults, thumbs, texts, textKey, Thumbnail, Payload(Thumbnail, thumbs, texts, textKey, entry));
    NothingToStore(files, faults, thumbs, texts, textKey, Fulltext, Payload(Fulltext, thumbs, texts, textKey, entry));
  }

  /** A branch with nothing to store (no file, a renderer error, or no content) changes nothing. */
  lemma NothingToStore(files: Files, faults: set<Call>, thumbs: ThumbnailBackend, texts: TextBackend,
                       fileKey: Key, kind: Kind, payload: Result<Option<Bytes>, Error>)
    requires !(payload.Success? && payload.value.Some?)
    ensures TryGenerate(files, faults, thumbs, texts, fileKey, kind, payload).files == files
  {
  }

  /** One commit branch, in closed form. */
  lemma TryGenerateClosedForm(files: Files, faults: set<Call>, thumbs: ThumbnailBackend, texts: TextBackend,
                              fileKey: Key, kind: Kind, payload: Result<Option<Bytes>, Error>)
    ensures TryGenerate(files, faults, thumbs, texts, fileKey, kind, payload).files
            == BranchFiles(files, faults, fileKey, kind, payload)
  {
    var result := TryGenerate(files, faults, thumbs, texts, fileKey, kind, payload);
    if payload.Success? && payload.value.Some? && fileKey != [] {
      var derivedKey := ChangeFilenameExtension(fileKey, TargetExtension(kind)).value;
      if InitCall(derivedKey) !in faults && derivedKey !in files {
        BranchCreatesEntry(files, faults, thumbs, texts, fileKey, kind, payload.value.value);
      } else {
        assert Init(files, faults, derivedKey, DerivedMetadata(kind, fileKey)).outcome.Fail?;
        assert result.files == files;
      }
    } else if payload.Success? && payload.value.Some? {
      assert ChangeFilenameExtension(fileKey, TargetExtension(kind)).Failure?;
      assert result.files == files;
    } else {
      assert result.files == files;
    }
  }

  /** A branch whose `init_files` succeeds leaves the entry DerivedEntry describes. */
  lemma BranchCreatesEntry(files: Files, faults: set<Call>, thumbs: ThumbnailBackend, texts: TextBackend,
                           fileKey: Key, kind: Kind, content: Bytes)
    requires fileKey != []
    requires var derivedKey := ChangeFilenameExtension(fileKey, TargetExtension(kind)).value;
             InitCall(derivedKey) !in faults && derivedKey !in files
    ensures var derivedKey := ChangeFilenameExtension(fileKey, TargetExtension(kind)).value;
            var metadata := DerivedMetadata(kind, fileKey);
            TryGenerate(files, faults, thumbs, texts, fileKey, kind, Success(Some(content))).files
            == files[derivedKey := DerivedEntry(faults, derivedKey, metadata, content)]
  {
    var derivedKey := ChangeFilenameExtension(fileKey, TargetExtension(kind)).value;
    var metadata := DerivedMetadata(kind, fileKey);
    StoreSteps(files, faults, derivedKey, metadata, content);
    var written := SetContent(Init(files, faults, derivedKey, metadata).files, faults, derivedKey, content);
    if written.outcome.Pass? {
      ServiceCommitOfDerived(written.files, faults, thumbs, texts, fileKey, kind);
    }
  }

  /**
   * The three storage calls of a branch on a free key: `init_files` passes,
   * and the entry ends as DerivedEntry describes after setting the content
   * and committing.
   */
  lemma StoreSteps(files: Files, faults: set<Call>, derivedKey: Key, metadata: Metadata, content: Bytes)
    requires InitCall(derivedKey) !in faults && derivedKey !in files
    ensures var initialised := Init(files, faults, derivedKey, metadata);
            initialised.outcome.Pass? &&
            var written := SetContent(initialised.files, faults, derivedKey, content);
            derivedKey in written.files && written.files[derivedKey].metadata == metadata &&
            (written.outcome.Fail? ==> written.files == files[derivedKey := DerivedEntry(faults, derivedKey, metadata, content)]) &&
            (written.outcome.Pass? ==> Commit(written.files, faults, derivedKey).files == files[derivedKey := DerivedEntry(faults, derivedKey, metadata, content)])
  {
  }

  /** The service's commit of a derived entry just written: the storage commit alone. */
  lemma ServiceCommitOfDerived(files: Files, faults: set<Call>, thumbs: ThumbnailBackend, texts: TextBackend,
                               fileKey: Key, kind: Kind)
    requires fileKey != []
    requires var derivedKey := ChangeFilenameExtension(fileKey, TargetExtension(kind)).value;
             derivedKey in files && files[derivedKey].metadata == DerivedMetadata(kind, fileKey)
    ensures var derivedKey := ChangeFilenameExtension(fileKey, TargetExtension(kind)).value;
            ServiceCommit(files, faults, thumbs, texts, derivedKey).files == Commit(files, faults, derivedKey).files
  {
    var derivedKey := ChangeFilenameExtension(fileKey, TargetExtension(kind)).value;
    var committed := Commit(files, faults, derivedKey);
    if committed.outcome.Pass? {
      ReentryStops(committed.files, faults, thumbs, texts, fileKey, kind);
    }
  }

  /**
   * The commit hook on a file that is not a thumbnail: the thumbnail branch,
   * then the full-text branch, both on the file as it was; the hook itself
   * never raises.
   */
  lemma CommitClosedForm(files: Files, faults: set<Call>, thumbs: ThumbnailBackend, texts: TextBackend, fileKey: Key)
    requires fileKey in files && TypeOf(files[fileKey]) != Some("thumbnail")
    ensures var entry := files[fileKey];
            var thumbnail := BranchFiles(files, faults, fileKey, Thumbnail, Payload(Thumbnail, thumbs, texts, fileKey, entry));
            CommitEffect(files, faults, thumbs, texts, fileKey) ==
              Effect(Pass, BranchFiles(thumbnail, faults, fileKey, Fulltext, Payload(Fulltext, thumbs, texts, fileKey, entry)))
  {
    var entry := files[fileKey];
    var p1 := Payload(Thumbnail, thumbs, texts, fileKey, entry);
    var p2 := Payload(Fulltext, thumbs, texts, fileKey, entry);
    TryGenerateClosedForm(files, faults, thumbs, texts, fileKey, Thumbnail, p1);
    var thumbnail := TryGenerate(files, faults, thumbs, texts, fileKey, Thumbnail, p1);
    TryGenerateClosedForm(thumbnail.files, faults, thumbs, texts, fileKey, Fulltext, p2);
  }

  /**
   * Commit only adds: it raises exactly for a key the record lacks, every
   * existing entry is left as it was, and every new entry is the thumbnail
   * or the full text of the committed file, saying so in its metadata.
   */
  lemma CommitOnlyAdds(files: Files, faults: set<Call>, thumbs: ThumbnailBackend, texts: TextBackend, fileKey: Key)
    ensures var e := CommitEffect(files, faults, thumbs, texts, fileKey);
            (e.outcome.Pass? <==> fileKey in files) &&
            (forall k :: k in files ==> k in e.files && e.files[k] == files[k]) &&
            e.files.Keys <= files.Keys + DerivedKeys(fileKey) &&
            (forall k :: k in e.files && k !in files ==>
               (k == ChangeFilenameExtension(fileKey, "jpg").value && e.files[k].metadata == DerivedMetadata(Thumbnail, fileKey)) ||
               (k == ChangeFilenameExtension(fileKey, "txt").value && e.files[k].metadata == DerivedMetadata(Fulltext, fileKey)))
  {
    if fileKey in files && TypeOf(files[fileKey]) != Some("thumbnail") {
      var entry := files[fileKey];
      var p1 := Payload(Thumbnail, thumbs, texts, fileKey, entry);
      var p2 := Payload(Fulltext, thumbs, texts, fileKey, entry);
      CommitClosedForm(files, faults, thumbs, texts, fileKey);
      var thumbnail := BranchFiles(files, faults, fileKey, Thumbnail, p1);
      BranchOnlyAdds(files, faults, fileKey, Thumbnail, p1);
      BranchOnlyAdds(thumbnail, faults, fileKey, Fulltext, p2);
    }
  }

  /** One branch keeps every entry and adds at most its derived entry, pointing back at the file. */
  lemma BranchOnlyAdds(files: Files, faults: set<Call>, fileKey: Key, kind: Kind, payload: Result<Option<Bytes>, Error>)
    ensures var out := BranchFiles(files, faults, fileKey, kind, payload);
            (forall k :: k in files ==> k in out && out[k] == files[k]) &&
            (forall k :: k in out && k !in files ==>
               fileKey != [] && k == ChangeFilenameExtension(fileKey, TargetExtension(kind)).value &&
               out[k].metadata == DerivedMetadata(kind, fileKey))
  {
    if payload.Success? && payload.value.Some? && fileKey != [] {
      var derivedKey := ChangeFilenameExtension(fileKey, TargetExtension(kind)).value;
      if InitCall(derivedKey) !in faults && derivedKey !in files {
        var entry := DerivedEntry(faults, derivedKey, DerivedMetadata(kind, fileKey), payload.value.value);
        assert entry.metadata == DerivedMetadata(kind, fileKey);
        assert BranchFiles(files, faults, fileKey, kind, payload) == files[derivedKey := entry];
        AddOneKey(files, derivedKey, entry);
      }
    }
  }

  /** Adding a new key keeps every other entry and adds nothing else. */
  lemma AddOneKey<K, V>(m: map<K, V>, k: K, v: V)
    requires k !in m
    ensures forall x :: x in m ==> x in m[k := v] && m[k := v][x] == m[x]
    ensures forall x :: x in m[k := v] && x !in m ==> x == k && m[k := v][x] == v
  {
  }

  /**
   * The two branches are separate failure domains: what the commit hook
   * leaves at the full-text key is what the full-text branch alone would
   * leave, whatever the thumbnail renderer does and whichever thumbnail
   * calls fail.
   */
  lemma FulltextIsolation(files: Files, faults: set<Call>, thumbs: ThumbnailBackend, texts: TextBackend, fileKey: Key)
    requires fileKey != [] && fileKey in files && TypeOf(files[fileKey]) != Some("thumbnail")
    ensures var textKey := ChangeFilenameExtension(fileKey, "txt").value;
            var out := CommitEffect(files, faults, thumbs, texts, fileKey).files;
            var alone := BranchFiles(files, faults, fileKey, Fulltext, Payload(Fulltext, thumbs, texts, fileKey, files[fileKey]));
            (textKey in out <==> textKey in alone) && (textKey in out ==> out[textKey] == alone[textKey])
  {
    CommitClosedForm(files, faults, thumbs, texts, fileKey);
    DistinctTargets(fileKey, "jpg", "txt");
  }

  /**
   * Nothing is rolled back: when setting the thumbnail's content fails, the
   * entry `init_files` created stays, pending and empty.
   */
  lemma PartialThumbnailKept(files: Files, faults: set<Call>, thumbs: ThumbnailBackend, texts: TextBackend, fileKey: Key)
    requires fileKey != [] && fileKey in files && TypeOf(files[fileKey]) != Some("thumbnail")
    requires Payload(Thumbnail, thumbs, texts, fileKey, files[fileKey]).Success?
    requires Payload(Thumbnail, thumbs, texts, fileKey, files[fileKey]).value.Some?
    requires var thumbKey := ChangeFilenameExtension(fileKey, "jpg").value;
             thumbKey !in files && InitCall(thumbKey) !in faults && SetContentCall(thumbKey) in faults
    ensures var thumbKey := ChangeFilenameExtension(fileKey, "jpg").value;
            var out := CommitEffect(files, faults, thumbs, texts, fileKey).files;
            thumbKey in out && out[thumbKey] == FileEntry(Pending, DerivedMetadata(Thumbnail, fileKey), None)
  {
    CommitClosedForm(files, faults, thumbs, texts, fileKey);
    DistinctTargets(fileKey, "jpg", "txt");
  }

  /**
   * A PDF whose renderers succeed gets a completed thumbnail holding the
   * first page and a completed full text holding its pages joined by
   * newlines, UTF-8 encoded, each pointing back at the PDF.
   */
  lemma PdfGetsBothDerivedFiles(files: Files, faults: set<Call>, thumbs: ThumbnailBackend, texts: TextBackend,
                                fileKey: Key, source: Bytes, blob: Bytes, pages: seq<string>)
    requires fileKey != [] && fileKey in files && TypeOf(files[fileKey]) != Some("thumbnail")
    requires files[fileKey].content == Some(source) && Mimetypes.GuessType(fileKey) == Pdf
    requires thumbs.firstPdfPage(source) == Some(blob) && blob != []
    requires texts.pageTexts(source) == Some(pages) && JoinLines(pages) != []
    requires var thumbKey := ChangeFilenameExtension(fileKey, "jpg").value;
             thumbKey !in files && InitCall(thumbKey) !in faults &&
             SetContentCall(thumbKey) !in faults && CommitCall(thumbKey) !in faults
    requires var textKey := ChangeFilenameExtension(fileKey, "txt").value;
             textKey !in files && InitCall(textKey) !in faults &&
             SetContentCall(textKey) !in faults && CommitCall(textKey) !in faults
    ensures var thumbKey := ChangeFilenameExtension(fileKey, "jpg").value;
            var textKey := ChangeFilenameExtension(fileKey, "txt").value;
            CommitEffect(files, faults, thumbs, texts, fileKey) == Effect(Pass, files
              [thumbKey := FileEntry(Completed, DerivedMetadata(Thumbnail, fileKey), Some(blob))]
              [textKey := FileEntry(Completed, DerivedMetadata(Fulltext, fileKey), Some(Utf8Encode(JoinLines(pages))))])
  {
    PdfPayloads(thumbs, texts, fileKey, files[fileKey], source, blob, pages);
    CommitClosedForm(files, faults, thumbs, texts, fileKey);
    DistinctTargets(fileKey, "jpg", "txt");
  }

  /** What the two renderers hand over for a PDF when both succeed. */
  lemma PdfPayloads(thumbs: ThumbnailBackend, texts: TextBackend, fileKey: Key, entry: FileEntry,
                    source: Bytes, blob: Bytes, pages: seq<string>)
    requires entry.content == Some(source) && Mimetypes.GuessType(fileKey) == Pdf
    requires thumbs.firstPdfPage(source) == Some(blob) && blob != []
    requires texts.pageTexts(source) == Some(pages) && JoinLines(pages) != []
    ensures Payload(Thumbnail, thumbs, texts, fileKey, entry) == Success(Some(blob))
    ensures Payload(Fulltext, thumbs, texts, fileKey, entry) == Success(Some(Utf8Encode(JoinLines(pages))))
  {
  }

  /**
   * An image that is not a PDF, resized by the library to a non-empty blob,
   * gets a completed thumbnail holding that blob and pointing back at it.
   */
  lemma ImageGetsThumbnail(files: Files, faults: set<Call>, thumbs: ThumbnailBackend, texts: TextBackend,
                           fileKey: Key, source: Bytes, blob: Bytes)
    requires fileKey != [] && fileKey in files && TypeOf(files[fileKey]) != Some("thumbnail")
    requires files[fileKey].content == Some(source) && StartsWith(Mimetypes.GuessType(fileKey), "image/")
    requires thumbs.image(source) == Some(blob) && blob != []
    requires var thumbKey := ChangeFilenameExtension(fileKey, "jpg").value;
             thumbKey !in files && InitCall(thumbKey) !in faults &&
             SetContentCall(thumbKey) !in faults && CommitCall(thumbKey) !in faults
    ensures var thumbKey := ChangeFilenameExtension(fileKey, "jpg").value;
            var out := CommitEffect(files, faults, thumbs, texts, fileKey).files;
            thumbKey in out && out[thumbKey] == FileEntry(Completed, DerivedMetadata(Thumbnail, fileKey), Some(blob))
  {
    var entry := files[fileKey];
    ImagePayload(thumbs, texts, fileKey, entry, source, blob);
    CommitClosedForm(files, faults, thumbs, texts, fileKey);
    var thumbnail := BranchFiles(files, faults, fileKey, Thumbnail, Payload(Thumbnail, thumbs, texts, fileKey, entry));
    BranchOnlyAdds(thumbnail, faults, fileKey, Fulltext, Payload(Fulltext, thumbs, texts, fileKey, entry));
  }

  /** What the thumbnail renderer hands over for an image that is not a PDF when the library works. */
  lemma ImagePayload(thumbs: ThumbnailBackend, texts: TextBackend, fileKey: Key, entry: FileEntry,
                     source: Bytes, blob: Bytes)
    requires entry.content == Some(source) && StartsWith(Mimetypes.GuessType(fileKey), "image/")
    requires thumbs.image(source) == Some(blob) && blob != []
    ensures Payload(Thumbnail, thumbs, texts, fileKey, entry) == Success(Some(blob))
  {
    assert Mimetypes.GuessType(fileKey)[0] != Pdf[0];
  }

  /**
   * An empty full text (a PDF without pages, or with one empty page) is
   * false in the hook's test, so no full-text entry is created.
   */
  lemma EmptyFulltextGetsNoEntry(files: Files, faults: set<Call>, thumbs: ThumbnailBackend, texts: TextBackend,
                                 fileKey: Key, source: Bytes, pages: seq<string>)
    requires fileKey != [] && fileKey in files && TypeOf(files[fileKey]) != Some("thumbnail")
    requires files[fileKey].content == Some(source)
    requires texts.pageTexts(source) == Some(pages) && JoinLines(pages) == []
    requires ChangeFilenameExtension(fileKey, "txt").value !in files
    ensures ChangeFilenameExtension(fileKey, "txt").value !in CommitEffect(files, faults, thumbs, texts, fileKey).files
  {
    var entry := files[fileKey];
    assert Payload(Fulltext, thumbs, texts, fileKey, entry) == Success(None);
    CommitClosedForm(files, faults, thumbs, texts, fileKey);
    BranchOnlyAdds(files, faults, fileKey, Thumbnail, Payload(Thumbnail, thumbs, texts, fileKey, entry));
    DistinctTargets(fileKey, "jpg", "txt");
  }

  /**
   * The guard of the commit hook: any entry whose type is "thumbnail",
   * whatever else its metadata holds, is committed without deriving anything.
   */
  lemma ThumbnailGuard(files: Files, faults: set<Call>, thumbs: ThumbnailBackend, texts: TextBackend, fileKey: Key)
    requires fileKey in files && TypeOf(files[fileKey]) == Some("thumbnail")
    ensures CommitEffect(files, faults, thumbs, texts, fileKey) == Effect(Pass, files)
  {
  }

  /** A file that is neither an image nor a PDF gets nothing. */
  lemma UnsupportedTypeGetsNothing(files: Files, faults: set<Call>, thumbs: ThumbnailBackend, texts: TextBackend, fileKey: Key)
    requires fileKey in files && !ThumbnailSupported(Mimetypes.GuessType(fileKey))
    ensures CommitEffect(files, faults, thumbs, texts, fileKey) == Effect(Pass, files)
  {
    if TypeOf(files[fileKey]) != Some("thumbnail") {
      CommitClosedForm(files, faults, thumbs, texts, fileKey);
    }
  }

  /** An image that is not a PDF never gets a full text. */
  lemma ImageGetsNoFulltext(files: Files, faults: set<Call>, thumbs: ThumbnailBackend, texts: TextBackend, fileKey: Key)
    requires fileKey != [] && fileKey in files && Mimetypes.GuessType(fileKey) != Pdf
    requires ChangeFilenameExtension(fileKey, "txt").value !in files
    ensures ChangeFilenameExtension(fileKey, "txt").value !in CommitEffect(files, faults, thumbs, texts, fileKey).files
  {
    if TypeOf(files[fileKey]) != Some("thumbnail") {
      CommitClosedForm(files, faults, thumbs, texts, fileKey);
      DistinctTargets(fileKey, "jpg", "txt");
    }
  }

  /** Every entry of `small` is in `big`, unchanged. */
  ghost predicate SubMap(small: Files, big: Files)
  {
    forall k :: k in small ==> k in big && small[k] == big[k]
  }

  /**
   * The service's delete, with the hook and every delete it triggers in
   * turn, never adds or changes an entry.
   */
  lemma {:induction false} ServiceDeleteOnlyRemoves(files: Files, faults: set<Call>, key: Key)
    ensures SubMap(ServiceDelete(files, faults, key).files, files)
    decreases |files|, 0
  {
    var removed := Delete(files, faults, key);
    if removed.outcome.Pass? {
      assert removed.files.Keys == files.Keys - {key};
      assert |removed.files| < |files|;
      DeleteHookOnlyRemoves(removed.files, faults, key, files[key]);
    }
  }

  /** The delete hook never adds or changes an entry. */
  lemma {:induction false} DeleteHookOnlyRemoves(files: Files, faults: set<Call>, fileKey: Key, deleted: FileEntry)
    ensures SubMap(DeleteEffect(files, faults, fileKey, deleted).files, files)
    decreases |files|, 1
  {
    if !IsDerived(deleted) && fileKey != [] {
      var thumbKey := ChangeFilenameExtension(fileKey, "jpg").value;
      var textKey := ChangeFilenameExtension(fileKey, "txt").value;
      ServiceDeleteOnlyRemoves(files, faults, thumbKey);
      var thumb := ServiceDelete(files, faults, thumbKey);
      ServiceDeleteOnlyRemoves(thumb.files, faults, textKey);
    }
  }

  /** No deletion through the service fails for a reason outside the model. */
  ghost predicate NoDeleteFaults(faults: set<Call>)
  {
    forall k :: DeleteCall(k) !in faults
  }

  /**
   * Without delete faults, the service's delete of a non-empty key leaves
   * the key absent, and fails only with "not found" for a key that was
   * already absent.
   */
  lemma {:induction false} ServiceDeleteRemovesKey(files: Files, faults: set<Call>, key: Key)
    requires NoDeleteFaults(faults) && key != []
    ensures var e := ServiceDelete(files, faults, key);
            key !in e.files &&
            (e.outcome.Pass? || (key !in files && e == Effect(Fail(Storage(FileKeyNotFound(key))), files)))
    decreases |files|, 0
  {
    if key in files {
      var removed := Delete(files, faults, key);
      assert removed.files.Keys == files.Keys - {key};
      assert |removed.files| < |files|;
      DeleteHookRemovesDerived(removed.files, faults, key, files[key]);
      DeleteHookOnlyRemoves(removed.files, faults, key, files[key]);
    }
  }

  /**
   * Without delete faults, the delete hook of a non-empty key never raises,
   * and for a file that is not derived it leaves neither derived key.
   */
  lemma {:induction false} DeleteHookRemovesDerived(files: Files, faults: set<Call>, fileKey: Key, deleted: FileEntry)
    requires NoDeleteFaults(faults) && fileKey != []
    ensures var e := DeleteEffect(files, faults, fileKey, deleted);
            e.outcome.Pass? &&
            (!IsDerived(deleted) ==>
               ChangeFilenameExtension(fileKey, "jpg").value !in e.files &&
               ChangeFilenameExtension(fileKey, "txt").value !in e.files)
    decreases |files|, 1
  {
    if !IsDerived(deleted) {
      var thumbKey := ChangeFilenameExtension(fileKey, "jpg").value;
      var textKey := ChangeFilenameExtension(fileKey, "txt").value;
      ServiceDeleteRemovesKey(files, faults, thumbKey);
      var thumb := ServiceDelete(files, faults, thumbKey);
      ServiceDeleteRemovesKey(thumb.files, faults, textKey);
      ServiceDeleteOnlyRemoves(thumb.files, faults, textKey);
    }
  }

  /**
   * Deleting a file that is not derived, when its derived keys hold derived
   * entries or nothing, removes exactly those two keys.
   */
  lemma DeleteRemovesExactlyDerived(files: Files, faults: set<Call>, fileKey: Key, deleted: FileEntry)
    requires fileKey != [] && !IsDerived(deleted)
    requires var thumbKey := ChangeFilenameExtension(fileKey, "jpg").value;
             DeleteCall(thumbKey) !in faults && (thumbKey in files ==> IsDerived(files[thumbKey]))
    requires var textKey := ChangeFilenameExtension(fileKey, "txt").value;
             DeleteCall(textKey) !in faults && (textKey in files ==> IsDerived(files[textKey]))
    ensures DeleteEffect(files, faults, fileKey, deleted) ==
            Effect(Pass, files - {ChangeFilenameExtension(fileKey, "jpg").value, ChangeFilenameExtension(fileKey, "txt").value})
  {
    var thumbKey := ChangeFilenameExtension(fileKey, "jpg").value;
    var textKey := ChangeFilenameExtension(fileKey, "txt").value;
    ServiceDeleteOfDerived(files, faults, thumbKey);
    var thumb := ServiceDelete(files, faults, thumbKey);
    assert thumb.files == files - {thumbKey};
    ServiceDeleteOfDerived(thumb.files, faults, textKey);
    DeleteHookSwallowsNotFound(files, faults, fileKey, deleted);
    RemoveTwoKeys(files, thumbKey, textKey);
  }

  lemma RemoveTwoKeys<K, V>(m: map<K, V>, a: K, b: K)
    ensures m - {a} - {b} == m - {a, b}
  {
  }

  /** When both deletes pass or find nothing, the delete hook passes with their combined effect. */
  lemma DeleteHookSwallowsNotFound(files: Files, faults: set<Call>, fileKey: Key, deleted: FileEntry)
    requires fileKey != [] && !IsDerived(deleted)
    requires var thumb := ServiceDelete(files, faults, ChangeFilenameExtension(fileKey, "jpg").value);
             (thumb.outcome.Pass? || IsNotFound(thumb.outcome.error)) &&
             var text := ServiceDelete(thumb.files, faults, ChangeFilenameExtension(fileKey, "txt").value);
             (text.outcome.Pass? || IsNotFound(text.outcome.error))
    ensures var thumb := ServiceDelete(files, faults, ChangeFilenameExtension(fileKey, "jpg").value);
            DeleteEffect(files, faults, fileKey, deleted) ==
            Effect(Pass, ServiceDelete(thumb.files, faults, ChangeFilenameExtension(fileKey, "txt").value).files)
  {
  }

  /**
   * The service's delete of a key that holds a derived entry, or nothing,
   * removes just that key: the hook skips derived entries.
   */
  lemma ServiceDeleteOfDerived(files: Files, faults: set<Call>, key: Key)
    requires DeleteCall(key) !in faults
    requires key in files ==> IsDerived(files[key])
    ensures var e := ServiceDelete(files, faults, key);
            e.files == files - {key} && (e.outcome.Pass? || IsNotFound(e.outcome.error))
  {
    if key !in files {
      assert files - {key} == files;
    } else {
      var removed := Delete(files, faults, key);
      assert removed.files == files - {key};
      assert DeleteEffect(removed.files, faults, key, files[key]) == Effect(Pass, removed.files);
    }
  }

  /** Deleting twice is deleting once: the second run finds nothing to delete. */
  lemma DeleteIdempotent(files: Files, faults: set<Call>, fileKey: Key, deleted: FileEntry)
    requires NoDeleteFaults(faults) && fileKey != []
    ensures var once := DeleteEffect(files, faults, fileKey, deleted).files;
            DeleteEffect(once, faults, fileKey, deleted) == Effect(Pass, once)
  {
    DeleteHookRemovesDerived(files, faults, fileKey, deleted);
  }

  /**
   * The delete hook raises what is not "not found": the naming error of the
   * empty key, or a failing delete of the thumbnail, in which case the full
   * text is not deleted at all.
   */
  lemma DeleteErrorsPropagate(files: Files, faults: set<Call>, fileKey: Key, deleted: FileEntry)
    requires !IsDerived(deleted)
    ensures fileKey == [] ==>
              DeleteEffect(files, faults, fileKey, deleted) == Effect(Fail(Renaming(InvalidFilename([]))), files)
    ensures fileKey != [] && DeleteCall(ChangeFilenameExtension(fileKey, "jpg").value) in faults ==>
              DeleteEffect(files, faults, fileKey, deleted) ==
              Effect(Fail(Storage(StorageFault(DeleteCall(ChangeFilenameExtension(fileKey, "jpg").value)))), files)
  {
  }

  /**
   * The service's delete of a file that is not derived, when its derived
   * keys hold derived entries or nothing: the file and both derived keys go.
   */
  lemma ServiceDeleteOfSource(files: Files, faults: set<Call>, fileKey: Key)
    requires fileKey != [] && fileKey in files && !IsDerived(files[fileKey]) && DeleteCall(fileKey) !in faults
    requires var thumbKey := ChangeFilenameExtension(fileKey, "jpg").value;
             DeleteCall(thumbKey) !in faults && (thumbKey in files ==> IsDerived(files[thumbKey]))
    requires var textKey := ChangeFilenameExtension(fileKey, "txt").value;
             DeleteCall(textKey) !in faults && (textKey in files ==> IsDerived(files[textKey]))
    ensures ServiceDelete(files, faults, fileKey) ==
            Effect(Pass, files - {fileKey} - {ChangeFilenameExtension(fileKey, "jpg").value, ChangeFilenameExtension(fileKey, "txt").value})
  {
    DerivedKeyIsLonger(fileKey, "jpg");
    DerivedKeyIsLonger(fileKey, "txt");
    var removed := files - {fileKey};
    assert Delete(files, faults, fileKey) == Step(Pass, removed);
    DeleteRemovesExactlyDerived(removed, faults, fileKey, files[fileKey]);
  }

  /**
   * A record holding one file, committed and then deleted through the
   * service, ends up with no entries at all: whatever the commit derived,
   * the delete removes.
   */
  lemma CommitThenDeleteEmpties(fileKey: Key, entry: FileEntry, faults: set<Call>,
                                thumbs: ThumbnailBackend, texts: TextBackend)
    requires fileKey != [] && !IsDerived(entry) && NoDeleteFaults(faults)
    ensures var committed := CommitEffect(map[fileKey := entry], faults, thumbs, texts, fileKey).files;
            ServiceDelete(committed, faults, fileKey) == Effect(Pass, map[])
  {
    var committed := CommitEffect(map[fileKey := entry], faults, thumbs, texts, fileKey).files;
    CommitOnlyAdds(map[fileKey := entry], faults, thumbs, texts, fileKey);
    DeleteOfCommitted(committed, faults, fileKey, entry);
  }

  /** The delete half of CommitThenDeleteEmpties, for any entries a commit may leave. */
  lemma DeleteOfCommitted(committed: Files, faults: set<Call>, fileKey: Key, entry: FileEntry)
    requires fileKey != [] && !IsDerived(entry) && NoDeleteFaults(faults)
    requires fileKey in committed && committed[fileKey] == entry
    requires committed.Keys <= {fileKey} + DerivedKeys(fileKey)
    requires forall k :: k in committed && k !in map[fileKey := entry] ==>
               (k == ChangeFilenameExtension(fileKey, "jpg").value && committed[k].metadata == DerivedMetadata(Thumbnail, fileKey)) ||
               (k == ChangeFilenameExtension(fileKey, "txt").value && committed[k].metadata == DerivedMetadata(Fulltext, fileKey))
    ensures ServiceDelete(committed, faults, fileKey) == Effect(Pass, map[])
  {
    CommittedEntriesDerived(committed, fileKey, entry);
    ServiceDeleteOfSource(committed, faults, fileKey);
    RemoveAllThreeKeys(committed, fileKey, ChangeFilenameExtension(fileKey, "jpg").value, ChangeFilenameExtension(fileKey, "txt").value);
  }

  /** Every entry a commit adds is derived, at a key other than the file's own. */
  lemma CommittedEntriesDerived(committed: Files, fileKey: Key, entry: FileEntry)
    requires fileKey != []
    requires forall k :: k in committed && k !in map[fileKey := entry] ==>
               (k == ChangeFilenameExtension(fileKey, "jpg").value && committed[k].metadata == DerivedMetadata(Thumbnail, fileKey)) ||
               (k == ChangeFilenameExtension(fileKey, "txt").value && committed[k].metadata == DerivedMetadata(Fulltext, fileKey))
    ensures var thumbKey := ChangeFilenameExtension(fileKey, "jpg").value;
            thumbKey != fileKey && (thumbKey in committed ==> IsDerived(committed[thumbKey]))
    ensures var textKey := ChangeFilenameExtension(fileKey, "txt").value;
            textKey != fileKey && (textKey in committed ==> IsDerived(committed[textKey]))
  {
    assert "type" in DerivedMetadata(Thumbnail, fileKey) && "type" in DerivedMetadata(Fulltext, fileKey);
    DerivedKeyIsLonger(fileKey, "jpg");
    DerivedKeyIsLonger(fileKey, "txt");
  }

  lemma RemoveAllThreeKeys<K, V>(m: map<K, V>, a: K, b: K, c: K)
    requires m.Keys <= {a, b, c}
    ensures m - {a} - {b, c} == map[]
  {
  }

  /**
   * Derived keys are shared across basenames, so deleting a file also
   * deletes the thumbnail of another file whose key has the same derived
   * key ("a.b" and "a-b" both have "a-b.jpg").
   */
  lemma DeleteReachesSharedThumbnail(a: Key, b: Key, p: FileEntry, q: FileEntry, t: FileEntry, faults: set<Call>)
    requires a != [] && b != [] && a != b
    requires ChangeFilenameExtension(a, "jpg") == ChangeFilenameExtension(b, "jpg")
    requires !IsDerived(q) && t.metadata == DerivedMetadata(Thumbnail, a)
    requires NoDeleteFaults(faults)
    ensures var thumbKey := ChangeFilenameExtension(b, "jpg").value;
            ServiceDelete(map[a := p, b := q, thumbKey := t], faults, b) == Effect(Pass, map[a := p])
  {
    var thumbKey := ChangeFilenameExtension(b, "jpg").value;
    var textKey := ChangeFilenameExtension(b, "txt").value;
    var files := map[a := p, b := q, thumbKey := t];
    assert thumbKey != a && thumbKey != b && textKey != a && textKey != b by {
      DerivedKeyIsLonger(a, "jpg");
      DerivedKeyIsLonger(b, "jpg");
      DerivedKeyIsLonger(b, "txt");
      DistinctTargets(b, "jpg", "txt");
      assert |textKey| == |thumbKey| == |a| + 4;
    }
    assert IsDerived(t) by {
      assert "type" in t.metadata;
    }
    OneSourceLeft(a, b, thumbKey, textKey, p, q, t);
    ServiceDeleteOfSource(files, faults, b);
  }

  /** The map steps of DeleteReachesSharedThumbnail, for keys known apart. */
  lemma OneSourceLeft<K, V>(a: K, b: K, thumbKey: K, textKey: K, p: V, q: V, t: V)
    requires a != b && thumbKey != a && thumbKey != b && textKey != a && textKey != b
    ensures var files := map[a := p, b := q, thumbKey := t];
            b in files && files[b] == q && thumbKey in files && files[thumbKey] == t &&
            (textKey in files ==> textKey == thumbKey) &&
            files - {b} - {thumbKey, textKey} == map[a := p]
  {
  }

  /** "a-b" deletes "a-b.jpg", the thumbnail of "a.b". */
  lemma DeleteReachesAnotherFilesThumbnail(p: FileEntry, q: FileEntry, t: FileEntry, faults: set<Call>)
    requires NoDeleteFaults(faults) && !IsDerived(q) && t.metadata == DerivedMetadata(Thumbnail, "a.b")
    ensures ServiceDelete(map["a.b" := p, "a-b" := q, "a-b.jpg" := t], faults, "a-b") == Effect(Pass, map["a.b" := p])
  {
    SharedDerivedKey();
    assert "a.b" != "a-b";
    DeleteReachesSharedThumbnail("a.b", "a-b", p, q, t, faults);
  }
}
