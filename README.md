# Derived files of rero-invenio-files, modelled in Dafny

rero-invenio-files attaches uploaded files to Invenio records. Its file
service runs `ThumbnailAndFulltextComponent` on every file commit and file
delete:

- **Commit.** Committing a file that is not itself a thumbnail starts two independent branches.
  - An image or a PDF gets a JPEG thumbnail stored under a derived key. For "doc.pdf" that key is "doc-pdf.jpg"; the entry carries the metadata `type = "thumbnail"` and `thumbnail_for = <key>`.
  - A PDF also gets its page texts, joined by newlines, stored as "doc-pdf.txt" with `type = "fulltext"` and `fulltext_for = <key>`.
  - Each branch does init, set content and commit through the same file service. The component is registered on that service, so the derived file's own commit runs the hook again.
  - Whatever a branch raises is swallowed, and nothing is rolled back.
- **Delete.** Deleting a file that is not derived deletes both derived keys through the service. Only "file key not found" is swallowed.
- **Links.** The API links of a file entry are self, content and commit. A PDF, JPEG or PNG that is not derived also gets preview and thumbnail links. The thumbnail link points at the content of the derived ".jpg" key.

The model is organised as follows:

- `naming.dfy`: `change_filename_extension` over `os.path.splitext` (POSIX).
- `mimetypes.dfy`: the mimetype the storage layer guesses from a key's extension.
- `renderers.dfy`: the two rendering gates, the `"\n".join` of page texts and the UTF-8 encoding.
- `store.dfy`: the record's entries and the four file-service calls the component makes. The service is a `class FileService` whose methods update its `files` map. Each method is tied to a pure step function.
- `components.dfy`: the hooks. Each has two forms:
  - as functions over the entries (`CommitEffect`, `TryGenerate`, `DeleteEffect`), including the re-entrant service calls (`ServiceCommit`, `ServiceDelete`);
  - as the methods of `class ThumbnailAndFulltextComponent`, which drive a `FileService` in place and are proved equal to those functions.
- `component_properties.dfy`: what commit and delete do, in closed form, and what the component guarantees:
  - re-entry stops;
  - the branches are separate failure domains;
  - commit only adds derived entries;
  - delete removes them, is idempotent, and after a commit leaves nothing behind.
- `links.dfy`: `PreviewFileLink.should_render`, `ThumbFileLink.vars` (a class holding the template variables, updated in place) and `file_links_item`.

Outside effects are parameters of the model:

- The rendering libraries are the function-valued `ThumbnailBackend` and `TextBackend`.
- Failures of the storage layer are the set `faults` of service calls that raise.
- A file's bytes are its entry's `content`.

Re-entry terminates for the following reasons:

- The re-entrant commit of a derived ".jpg" stops at the thumbnail type guard.
- That of a ".txt" stops because its mimetype is text/plain, or application/octet-stream when everything before the dot is dots. Neither renderer accepts either (`Components.TextKeyHasNoRenderer`).
- Delete re-entry ends because every delete makes the record smaller.

Derived keys are unique only per basename. "a.b" and "a-b" share the thumbnail key "a-b.jpg" (`Naming.SharedDerivedKey`). Two consequences follow:

- Whichever of the two commits second finds the key taken. Its `init_files` fails, and the failure is swallowed.
- Deleting "a-b" deletes the thumbnail of "a.b" (`ComponentProperties.DeleteReachesAnotherFilesThumbnail`).

A GIF that the library resizes gets a completed thumbnail on commit (`ComponentProperties.ImageGetsThumbnail`), yet no preview and no thumbnail link (`Links.GifHasNoThumbnailLink`).

## Model

| member | source | states |
|---|---|---|
| `Naming.SplitExt` | rero_invenio_files/records/components.py:43 | splitext: root followed by ext is the key; the root is empty exactly for the empty key; a non-empty ext starts with '.' |
| `Naming.SplitExtShape` | rero_invenio_files/records/components.py:43 | a non-empty extension holds no further '.' and no '/' |
| `Naming.ChangeFilenameExtension` | rero_invenio_files/records/components.py:36-52 | raises exactly for a key with an empty basename, which is the empty key; otherwise the derived key is as long as a stem of the key's length plus "." + extension, and ends in "." + extension |
| `Naming.NoExtensionCase` | rero_invenio_files/records/components.py:48-49 | a key without extension gets "." + extension appended |
| `Naming.ExtensionCase` | rero_invenio_files/records/components.py:50-52 | in a key with an extension, the extension's dot becomes "-" and "." + extension is appended |
| `Naming.StemWithExtension` | rero_invenio_files/records/components.py:50-52 | the derived key of a key with extension is root + "-" + extension without its dot + "." + target |
| `Naming.DistinctExtensions` | rero_invenio_files/records/components.py:39-41 | two keys with the same basename and different extensions never share a derived key |
| `Naming.ExtensionVersusNone` | rero_invenio_files/records/components.py:39-41 | a key without extension and one with the same basename plus an extension never share a derived key |
| `Naming.NoExtensionShape` | rero_invenio_files/records/components.py:48-49 | a key holding no dot becomes key + "." + extension |
| `Naming.SplitSimpleName` | rero_invenio_files/records/components.py:43 | a name without '/', not all dots, then a dot and a dotless extension, splits at that dot |
| `Naming.ExtensionShape` | rero_invenio_files/records/components.py:50-52 | such a name "root.ext" becomes "root-ext." + extension |
| `Naming.SharedDerivedKey` | rero_invenio_files/records/components.py:48-52 | "a.b" and "a-b" both derive "a-b.jpg" |
| `Naming.TestKeyExample` | tests/test_rero_invenio_files.py:133-147 | "test.pdf" derives "test-pdf." + extension, the keys the tests read back |
| `Naming.LeadingDotExample` | rero_invenio_files/records/components.py:43-49 | leading dots are no extension: ".pdf" splits into (".pdf", "") and derives ".pdf.jpg" |
| `Naming.DirectoryExample` | rero_invenio_files/records/components.py:43-52 | only the last path component is split: "dir/a.b" has the extension ".b" and derives "dir/a-b.jpg" |
| `Naming.TrailingDotExample` | rero_invenio_files/records/components.py:50-52 | a trailing dot is an extension: "x." becomes "x-.jpg" |
| `Naming.DerivedKeyIsLonger` | rero_invenio_files/records/components.py:48-52 | a derived key is longer than its key, so never the key itself |
| `Naming.DistinctTargets` | rero_invenio_files/records/components.py:147 | the ".jpg" and ".txt" derived keys of one key differ |
| `Naming.DerivedKeyExtension` | rero_invenio_files/records/components.py:147 | split again, a derived key has the target extension, or none when everything before its last dot is dots |
| `Renderers.CreateThumbnailFromFile` | rero_invenio_files/records/components.py:54-87 | None exactly for a type that is neither an image nor a PDF; for an image or a PDF, a thumbnail exactly when the library works and its exception otherwise; a PDF's thumbnail is the first page, another image's the resized image |
| `Renderers.CreateFulltextFromFile` | rero_invenio_files/records/components.py:89-102 | None exactly for a file that is not a PDF; for a PDF, a text exactly when the library works, its page texts joined by newlines, and its exception otherwise |
| `Renderers.FirstIndexOf` | rero_invenio_files/records/components.py:102 | the index of the first occurrence of a character, none before it |
| `Renderers.SplitJoinLines` | rero_invenio_files/records/components.py:101-102 | page texts without newlines are recovered from their join |
| `Renderers.SplitFirstLine` | rero_invenio_files/records/components.py:102 | splitting a joined text yields its first line, then the split of the rest |
| `Renderers.JoinSplitLines` | rero_invenio_files/records/components.py:102 | joining the lines of a text gives the text back |
| `Renderers.JoinLinesEmpty` | rero_invenio_files/records/components.py:146 | the joined text is empty (falsy) exactly for no pages or one empty page |
| `Renderers.Utf8Encode` | rero_invenio_files/records/components.py:164 | one to four bytes per character, so only the empty text encodes to nothing |
| `Store.FileService.InitFile` | rero_invenio_files/records/components.py:122-133 | a new pending entry without content and with the given metadata; raises for a taken key |
| `Store.FileService.SetFileContent` | rero_invenio_files/records/components.py:134-140 | the entry's content is replaced; raises for a missing key |
| `Store.FileService.CommitFile` | rero_invenio_files/records/components.py:141-143 | an entry with content becomes completed; raises for a missing key or missing content |
| `Store.FileService.DeleteFile` | rero_invenio_files/records/components.py:187-189 | the entry is removed; raises "file key not found" for a missing key |
| `Components.Payload` | rero_invenio_files/records/components.py:115-120 | something to store only for an entry with a file, non-empty, and of a type the renderer of that branch accepts |
| `Components.TextKeyHasNoRenderer` | rero_invenio_files/records/components.py:145-147 | a ".txt" derived key gets neither a thumbnail nor a full text |
| `Components.DerivedEntryRankZero` | rero_invenio_files/records/components.py:112-114 | a derived entry just written can give rise to nothing more, which bounds the re-entry |
| `Components.GuessTypeOfText` | rero_invenio_files/records/components.py:146 | a ".txt" key is text/plain, which no renderer accepts |
| `Components.GuessTypeWithoutExtension` | rero_invenio_files/records/components.py:120 | a key without extension is application/octet-stream, which no renderer accepts |
| `Components.DeleteEffect` | rero_invenio_files/records/components.py:171-194 | the delete hook never makes the record larger |
| `Components.ServiceDelete` | rero_invenio_files/records/services.py:100-103 | the service's delete, with the hook registered, never makes the record larger |
| `Components.ThumbnailAndFulltextComponent.CommitFile` | rero_invenio_files/records/components.py:104-169 | the in-place commit hook leaves the service's entries as CommitEffect says and returns what it raises |
| `Components.ThumbnailAndFulltextComponent.TryGenerateFile` | rero_invenio_files/records/components.py:119-143 | one branch, in place, as TryGenerate says |
| `Components.ThumbnailAndFulltextComponent.ServiceCommitFile` | rero_invenio_files/records/services.py:100-103 | the service's commit followed by this component's hook, in place, as ServiceCommit says |
| `Components.ThumbnailAndFulltextComponent.DeleteFile` | rero_invenio_files/records/components.py:171-194 | the in-place delete hook, as DeleteEffect says |
| `Components.ThumbnailAndFulltextComponent.ServiceDeleteFile` | rero_invenio_files/records/services.py:100-103 | the service's delete followed by this component's hook, in place, as ServiceDelete says |
| `ComponentProperties.ReentryStops` | rero_invenio_files/records/components.py:112-114 | the re-entrant commit of a derived entry changes nothing and raises nothing |
| `ComponentProperties.TextReentryStops` | rero_invenio_files/records/components.py:145-147 | on a ".txt" derived key neither branch stores anything |
| `ComponentProperties.NothingToStore` | rero_invenio_files/records/components.py:119-120 | a branch whose renderer gives nothing or raises leaves the entries as they were |
| `ComponentProperties.TryGenerateClosedForm` | rero_invenio_files/records/components.py:119-143 | one branch in closed form: an entry at the derived key when there is content, a name, a working init and a free key; otherwise no change |
| `ComponentProperties.BranchCreatesEntry` | rero_invenio_files/records/components.py:121-143 | after a working init, the derived entry is pending and empty, pending with content, or completed, as set-content and commit fail or not |
| `ComponentProperties.StoreSteps` | rero_invenio_files/records/components.py:122-143 | the three storage calls on a free key leave that same entry |
| `ComponentProperties.ServiceCommitOfDerived` | rero_invenio_files/records/components.py:141-143 | committing a derived entry through the service is the storage commit alone |
| `ComponentProperties.CommitClosedForm` | rero_invenio_files/records/components.py:104-169 | the hook on a file that is not a thumbnail runs both branches on the file as it was and never raises |
| `ComponentProperties.CommitOnlyAdds` | rero_invenio_files/records/components.py:104-169 | commit raises exactly for a missing key, keeps every entry, and adds only the two derived keys, each with metadata pointing back at the file |
| `ComponentProperties.BranchOnlyAdds` | rero_invenio_files/records/components.py:119-143 | one branch keeps every entry and adds at most its derived entry |
| `ComponentProperties.FulltextIsolation` | rero_invenio_files/records/components.py:144-146 | the full-text result does not depend on the thumbnail branch |
| `ComponentProperties.PartialThumbnailKept` | rero_invenio_files/records/components.py:119-140 | nothing is rolled back: a failed set-content leaves a pending, empty thumbnail entry |
| `ComponentProperties.PdfGetsBothDerivedFiles` | rero_invenio_files/records/components.py:118-169 | a PDF gets a completed thumbnail holding the first page and a completed full text holding its encoded joined pages |
| `ComponentProperties.PdfPayloads` | rero_invenio_files/records/components.py:120 | for a PDF the two branches have the first page and the encoded text to store |
| `ComponentProperties.UnsupportedTypeGetsNothing` | rero_invenio_files/records/components.py:62-64 | a file that is neither an image nor a PDF gets nothing |
| `ComponentProperties.ImageGetsThumbnail` | rero_invenio_files/records/components.py:118-142 | an image that is not a PDF, resized by the library to a non-empty blob, gets a completed thumbnail holding it and pointing back at the file |
| `ComponentProperties.ImagePayload` | rero_invenio_files/records/components.py:120 | for such an image the thumbnail branch has the resized image to store |
| `ComponentProperties.EmptyFulltextGetsNoEntry` | rero_invenio_files/records/components.py:146 | an empty joined text is false in the test, so no full-text entry is created |
| `ComponentProperties.ThumbnailGuard` | rero_invenio_files/records/components.py:112-114 | any entry typed "thumbnail" is committed without deriving anything |
| `ComponentProperties.ImageGetsNoFulltext` | rero_invenio_files/records/components.py:98-99 | a file that is not a PDF gets no full text |
| `ComponentProperties.ServiceDeleteOnlyRemoves` | rero_invenio_files/records/services.py:100-103 | the service's delete, with every delete it triggers, never adds or changes an entry |
| `ComponentProperties.DeleteHookOnlyRemoves` | rero_invenio_files/records/components.py:171-194 | the delete hook never adds or changes an entry |
| `ComponentProperties.ServiceDeleteRemovesKey` | rero_invenio_files/records/components.py:186-194 | without storage faults a delete leaves the key absent, failing only with "not found" for an absent key |
| `ComponentProperties.DeleteHookRemovesDerived` | rero_invenio_files/records/components.py:185-194 | without storage faults the delete hook never raises, and for a file that is not derived leaves neither derived key |
| `ComponentProperties.DeleteRemovesExactlyDerived` | rero_invenio_files/records/components.py:185-194 | when the derived keys hold derived entries or nothing, the hook removes exactly those two keys |
| `ComponentProperties.DeleteHookSwallowsNotFound` | rero_invenio_files/records/components.py:186-194 | when both deletes pass or find nothing, the hook passes with their combined effect |
| `ComponentProperties.ServiceDeleteOfDerived` | rero_invenio_files/records/components.py:180-182 | deleting a derived entry removes just that key: its hook stops at the type guard |
| `ComponentProperties.DeleteIdempotent` | rero_invenio_files/records/components.py:186-194 | running the delete hook a second time passes and changes nothing |
| `ComponentProperties.DeleteErrorsPropagate` | rero_invenio_files/records/components.py:185-189 | the empty key's naming error and a failing thumbnail delete are raised, the latter before the full text is touched |
| `ComponentProperties.ServiceDeleteOfSource` | rero_invenio_files/records/services.py:100-103 | deleting a file whose derived keys hold derived entries or nothing removes the file and both keys |
| `ComponentProperties.CommitThenDeleteEmpties` | rero_invenio_files/records/components.py:104-194 | a record with one file, committed then deleted, has no entries left |
| `ComponentProperties.DeleteOfCommitted` | rero_invenio_files/records/components.py:171-194 | deleting a file whose record holds only it and what a commit derived from it empties the record |
| `ComponentProperties.CommittedEntriesDerived` | rero_invenio_files/records/components.py:122-133 | what a commit adds is marked derived and sits at a key other than the file's |
| `ComponentProperties.DeleteReachesSharedThumbnail` | rero_invenio_files/records/components.py:185-189 | a file whose derived key is another file's thumbnail deletes that thumbnail |
| `ComponentProperties.DeleteReachesAnotherFilesThumbnail` | rero_invenio_files/records/components.py:185-189 | deleting "a-b" deletes "a-b.jpg", the thumbnail of "a.b" |
| `Links.FileMimetype` | rero_invenio_files/records/services.py:46 | an entry has a mimetype exactly when its file has been uploaded |
| `Links.TemplateVars.ThumbFileLinkVars` | rero_invenio_files/records/services.py:56-65 | the template variables gain "thumb" in place, or stay as they were when naming raises |
| `Links.ThumbVarsOnlySetsThumb` | rero_invenio_files/records/services.py:57-65 | "thumb" becomes the ".jpg" derived key and no other variable changes; raises exactly for the empty key |
| `Links.LinkSet` | rero_invenio_files/records/services.py:91-97 | self, content and commit always; preview and thumbnail together, exactly when should_render holds; raises only for an empty key that should render |
| `Links.BaseLinkTargets` | rero_invenio_files/records/services.py:92-95 | self, content, commit and preview address the entry's own key |
| `Links.ThumbnailLinkTarget` | rero_invenio_files/records/services.py:96 | the thumbnail link addresses the content of the ".jpg" derived key |
| `Links.FileLinksNeverFail` | rero_invenio_files/records/services.py:40-65 | the links of an entry never raise: an empty key has no previewable mimetype |
| `Links.FileLinkSet` | rero_invenio_files/records/services.py:40-50 | a thumbnail link exactly for an entry that is not derived, has a file, and is a PDF, JPEG or PNG |
| `Links.ThumbnailLinkOnlyForThumbnailTypes` | rero_invenio_files/records/services.py:48 | a thumbnail link is only shown for a type the commit hook draws thumbnails for |
| `Links.GifHasNoThumbnailLink` | rero_invenio_files/records/services.py:48 | a GIF the library resizes gets a completed thumbnail on commit, yet its entry has no preview and no thumbnail link |
| `Links.GifType` | rero_invenio_files/records/services.py:48 | "a.gif" is image/gif |
| `Links.LinksBeforeUpload` | tests/test_rero_invenio_files.py:78-84 | before its content is uploaded an entry has the base links only |
| `Links.PdfLinksAfterUpload` | tests/test_rero_invenio_files.py:118-124 | an uploaded PDF that is not derived has all five links, the thumbnail at its ".jpg" derived key |
| `Links.PdfType` | tests/test_rero_invenio_files.py:118-124 | "test.pdf" is application/pdf |

## Left out

- The drawing and text-extraction libraries (PyMuPDF, Wand) are functions given as parameters. The model leaves out the 200-pixel scale factor, computed in floating point, and the JPEG quality.
- The mimetype table holds 15 common extensions of the standard table; the rest map to application/octet-stream.
- The mimetype is guessed from the key, as the storage layer does. Content sniffing is not modelled.
- Identity, the unit of work and the record id are not modelled: permissions, transactions and the rollback of a unit of work are not part of this model.
- The other components registered on the service (`FilesComponent` and the base ones) are not part of this model. Nor are the previewer, the extension, the views, the configuration, the API and model classes, the permissions, or the PDF generator.
- Links are modelled as the endpoint and key they address. The URI templates, their expansion and percent-encoding are not modelled.
- Concurrency and logging are left out.
- Components.Payload: its ensures states only what a non-empty payload implies. What each renderer yields, when the library works and when it raises, is stated by `Renderers.CreateThumbnailFromFile` and `Renderers.CreateFulltextFromFile`. What a branch then has to store is stated by `ComponentProperties.PdfPayloads` for a PDF and by `ComponentProperties.ImagePayload` for another image. `ComponentProperties.EmptyFulltextGetsNoEntry` states that an empty text stores nothing.
