# Virtual folders over a MinIO bucket

The file browser keeps documents in one MinIO bucket, which is a flat map
from keys to blobs and has no directories. Folders are a convention over
keys:

- a folder is a key prefix ending in "/";
- an empty folder is kept visible by a zero-byte `.keep` marker inside it.

This project models that folder layer in Dafny and proves its properties.
The model covers two groups of code.

The Next.js API routes:

- `listFiles`: lists one level;
- `searcher-files`: recursive search by extension;
- `create-folder`: writes the marker;
- `delete-folder`: enumerates the folder, then bulk-removes it;
- `move`: copies, then removes;
- `move-folder`: checks that the folder is not moved into itself, then copies and removes each key;
- `upload-file`: stores the uploaded file.

The client components that build the keys and paths those routes receive:

- the folder browser `FileList`;
- the `CreateFolderForm` dialog;
- the `GlosarioVisualizer` viewer.

Modules:

- `Store`: the bucket, as a class whose `objects` field is a `map<Key, StoredObject>`. It has one method per MinIO call the routes make: list, put, copy, remove and bulk remove.
  - Each route takes `refused: set<nat>`, the indices (in issue order) of the store calls that fail.
  - A route aborts at its first failure, as its single `try` does.
  - A listing comes back in an unspecified order, so every property holds for every order.
- `Text`: the JavaScript string operations the code relies on. These are `startsWith`, `substring`, `split`/`join`, `trim`, the whitespace-run replacement and ASCII `toLowerCase`. It also has exact models of the two extension-replacing regular expressions.
- One module per route. Each route is a method over the bucket. Its loops build the same values the source builds, and their invariants tie them to a specification function of the listing (`Entries`, `Matches`, `Names`, `MoveAll`).
- `FileList`, `CreateFolderForm` and `GlosarioVisualizer`:
  - their pure helpers are functions;
  - their React state is a class whose methods are the state updates.

Several proved facts describe the code as written rather than as intended:

- Moving folder `a/b` into its ancestor `a` overwrites `a/b/x` with the data of `a/b/b/x`.
- The search matches `a/bc/...` for the path `a/b`.
- The client and server guards against moving a folder into itself disagree.
  - The client sends "docs" → "docs2/docs".
  - The server refuses that move, because its check is a plain `startsWith`.
  - Every move the client itself ignores would also be refused by the server.
- The client ignores a file dropped onto any of its ancestor folders, not only its parent.
- Deleting a folder answers 200 with the full count even when MinIO reports that some keys could not be removed; those keys stay.
- When a listing or search request fails, the browser keeps the rows of the previously browsed directory for that half. Those stale rows then feed the duplicate-name check and the drop targets.

## Model

| member | source | states |
|---|---|---|
| `Store.Stamp` | frontend/src/app/api/listFiles/route.ts:46 | A stamp is never empty and is the store's own stamp when it has one (otherwise "Desconocido"). |
| `Store.DirPrefix` | frontend/src/app/api/listFiles/route.ts:24 | The empty path stays empty. Any other path ends in "/" and extends the input by at most that "/". A path already ending in "/" is unchanged. |
| `Store.DirPrefixIdempotent` | frontend/src/app/api/create-folder/route.ts:27-28 | Normalising a prefix twice gives the same prefix as normalising it once. |
| `Store.ListingNames` | frontend/src/app/api/delete-folder/route.ts:31-35 | The names a listing yields are exactly the stored keys under the prefix, each once. |
| `Store.IsListedName` | frontend/src/app/api/listFiles/route.ts:39-43 | Definition: the key ends in ".pdf", ".txt" or ".docx", compared case-sensitively. `ListFilesRoute.DirectKeyListed` and `SearcherFilesRoute.SearchFindsListedKeys` prove that it decides what is shown. |
| `Store.Bucket.constructor` | frontend/src/app/api/listFiles/route.ts:26 | A bucket starts with the given objects. |
| `Store.Bucket.ListObjects` | frontend/src/app/api/listFiles/route.ts:26 | A recursive listing yields every key under the prefix once, with its stamp, in some order, and fails only when refused. |
| `Store.Bucket.PutObject` | frontend/src/app/api/create-folder/route.ts:32 | A write sets exactly one key and changes nothing else. A failed write changes nothing. |
| `Store.Bucket.CopyObject` | frontend/src/app/api/move/route.ts:26-30 | A copy sets the destination to the source's bytes with a new stamp. It fails when refused, when the source is missing, or when the destination is the source itself (a copy onto itself that changes no metadata). A failed copy changes nothing. |
| `Store.Bucket.RemoveObject` | frontend/src/app/api/move/route.ts:32 | A removal deletes exactly one key. Removing a missing key succeeds. |
| `Store.Bucket.RemoveObjects` | frontend/src/app/api/delete-folder/route.ts:45 | A call that resolves deletes the given keys except those it reports as per-object errors, which stay. A call that throws removes some of the given keys. Neither ever touches another key. |
| `Text.Substring` | frontend/src/app/api/move-folder/route.ts:40 | `s.substring(n)`: what follows the first n characters, or "" past the end. |
| `Text.Split` | frontend/src/components/FileList/FileList.tsx:169 | The pieces hold no separator, and joining them gives back the string. |
| `Text.SplitAtLastSeparator` | frontend/src/components/FileList/FileList.tsx:169-171 | The last piece is separator-free. It is the whole string without a separator; otherwise the dirname, the separator and the last piece rebuild the string. |
| `Text.LastSegment` | frontend/src/components/FileList/FileList.tsx:171 | Definition: `s.split(sep).pop()`, the last piece. Its meaning is proved in `SplitAtLastSeparator`. |
| `Text.Dirname` | frontend/src/components/FileList/FileList.tsx:170 | Definition: `parts.slice(0, -1).join(sep)`, everything before the last separator. Its meaning is proved in `SplitAtLastSeparator`. |
| `Text.LastNonEmpty` | frontend/src/components/FileList/FileList.tsx:161 | The result is the last non-empty piece: it is a piece of the input, and every piece after it is empty. It is absent exactly when every piece is empty. |
| `Text.Trim` | frontend/src/components/CreateFolderForm/CreateFolderForm.tsx:33 | The result is a slice `s[i..j]` of the input with only whitespace before `i` and after `j`. It neither starts nor ends with whitespace, and it is empty exactly when the input is all whitespace. |
| `Text.UnderscoreWhitespaceRuns` | frontend/src/components/CreateFolderForm/CreateFolderForm.tsx:38 | The result holds no whitespace. A string without whitespace is unchanged, and only "" maps to "". |
| `Text.UnderscoreKeepsHead` | frontend/src/components/CreateFolderForm/CreateFolderForm.tsx:38 | A non-whitespace character at the front is kept as it is. |
| `Text.UnderscoreCollapsesRun` | frontend/src/components/CreateFolderForm/CreateFolderForm.tsx:38 | A maximal whitespace run of any length becomes exactly one "_" between the replaced text before it and the replaced text after it. |
| `Text.TrimKeepsUnpadded` | frontend/src/components/CreateFolderForm/CreateFolderForm.tsx:33 | A non-empty string with no whitespace at either end trims to itself. |
| `Text.TrimRemovesPadding` | frontend/src/components/CreateFolderForm/CreateFolderForm.tsx:33 | Whitespace before and after an unpadded string is exactly what trimming removes: `Trim(before + m + after) == m`. |
| `Text.ToLower` | frontend/src/components/FileList/FileList.tsx:244 | Lowercasing keeps the length and folds every character. |
| `Text.ReplaceChar` | frontend/src/components/FileList/FileList.tsx:363 | Every occurrence of one character is replaced and nothing else changes. |
| `Text.NoDotNoExtension` | frontend/src/components/GlosarioVisualizer/GlosarioVisualizer.tsx:66 | A path whose last segment has no dot matches neither extension pattern. |
| `Text.ReplaceExtensionInLastSegment` | frontend/src/components/GlosarioVisualizer/GlosarioVisualizer.tsx:89 | Replacing the final extension keeps the directory part. It replaces the extension of the last segment only. |
| `Text.ReplaceStemExtensionShape` | frontend/src/components/FileList/FileList.tsx:172-175 | For `dir + stem + "." + ext` with a dot-free stem and extension, the stem pattern yields `dir + stem + with`. |
| `Text.HasExtension` | frontend/src/components/GlosarioVisualizer/GlosarioVisualizer.tsx:66 | Definition: `/\.[^/.]+$/` matches. The last "." has at least one character after it, and none of those is "/". |
| `Text.ReplaceExtension` | frontend/src/components/GlosarioVisualizer/GlosarioVisualizer.tsx:66 | Definition: with a match, everything from the last "." on gives way to the replacement; otherwise the string is kept. Its meaning is proved in `ReplaceExtensionInLastSegment` and `NoDotNoExtension`. |
| `Text.HasStemAndExtension` | frontend/src/components/FileList/FileList.tsx:172-175 | Definition: `/(.*\/)?([^/.]+)\.[^/.]+$/` matches. There is an extension, and the character before its dot is neither "/" nor ".". |
| `Text.ReplaceStemExtension` | frontend/src/components/FileList/FileList.tsx:172-175 | Definition: with a match, groups 1 and 2 give back the text before the final ".ext". Its meaning is proved in `ReplaceStemExtensionShape`. |
| `ListFilesRoute.Get` | frontend/src/app/api/listFiles/route.ts:18-66 | The path is normalised and listed. A failed listing gives 500 and no entries. Otherwise the response is `Entries` of the listing: the folders, then the files. |
| `ListFilesRoute.FolderNames` | frontend/src/app/api/listFiles/route.ts:27-36 | Reference definition of the folder set in stream order. A key inside a child folder adds that folder the first time it is seen. `FolderNamesExactly` and `FolderNamesDistinct` prove its meaning. |
| `ListFilesRoute.FileEntries` | frontend/src/app/api/listFiles/route.ts:37-49 | Reference definition of the files array. Each key directly at this level with a listed extension adds a file entry, in stream order. `FileEntriesExactly` proves its meaning. |
| `ListFilesRoute.Entries` | frontend/src/app/api/listFiles/route.ts:54-60 | Reference definition of the response: the folder entries, then the file entries. `ListingPartitionsKeys` and `FoldersBeforeFiles` prove its meaning. |
| `ListFilesRoute.ChildFolderIsFirstPiece` | frontend/src/app/api/listFiles/route.ts:35 | The folder recorded for a key is the first "/"-piece of the rest after the path. |
| `ListFilesRoute.InChildFolder` | frontend/src/app/api/listFiles/route.ts:31-33 | Definition: the key starts with the path and the rest holds a "/". `ListingPartitionsKeys` proves that these keys give exactly the folder entries. |
| `ListFilesRoute.AtThisLevel` | frontend/src/app/api/listFiles/route.ts:31-33 | Definition: the key starts with the path and the rest holds no "/". `DirectKeyListed` proves that these keys give exactly the file entries. |
| `ListFilesRoute.ChildFolder` | frontend/src/app/api/listFiles/route.ts:35 | Definition: the rest up to its first "/". `ChildFolderIsFirstPiece` proves it is `rest.split("/")[0]`. |
| `ListFilesRoute.ChildFolderIsFirstSegment` | frontend/src/app/api/listFiles/route.ts:33-36 | That folder name holds no "/", and the key lies under `path + name + "/"`. |
| `ListFilesRoute.ChildFolderOf` | frontend/src/app/api/listFiles/route.ts:33-36 | A key `path + c + "/" + more` records folder `c`. |
| `ListFilesRoute.FolderEntries` | frontend/src/app/api/listFiles/route.ts:54-57 | Each folder name becomes the entry `Folder(path + name)`, in order. |
| `ListFilesRoute.FolderNamesDistinct` | frontend/src/app/api/listFiles/route.ts:27-36 | The folder set never holds a name twice. |
| `ListFilesRoute.FolderNamesExactly` | frontend/src/app/api/listFiles/route.ts:30-36 | A name is in the folder set if and only if some listed key lies inside that child folder. |
| `ListFilesRoute.FileEntriesAreFiles` | frontend/src/app/api/listFiles/route.ts:44-48 | The files array holds only file entries. |
| `ListFilesRoute.FileEntriesExactly` | frontend/src/app/api/listFiles/route.ts:37-49 | An entry is a file entry if and only if some listed key is directly at this level and has a listed extension, with that key's stamp. |
| `ListFilesRoute.FileEntriesKeepOrder` | frontend/src/app/api/listFiles/route.ts:30-49 | File entries follow stream order: the entries of a concatenated stream are the concatenated entries. |
| `ListFilesRoute.FolderEntryFromKey` | frontend/src/app/api/listFiles/route.ts:33-36 | Every folder entry comes from a listed key inside a child folder. |
| `ListFilesRoute.FileEntryFromKey` | frontend/src/app/api/listFiles/route.ts:37-49 | Every file entry comes from a listed key at this level. |
| `ListFilesRoute.EntryUnderPath` | frontend/src/app/api/listFiles/route.ts:31 | Every entry lies under the path. A file has a listed extension and no "/" after the path. A folder name has no "/" after the path. |
| `ListFilesRoute.ChildFolderListed` | frontend/src/app/api/listFiles/route.ts:33-36 | Every stored key in a child folder makes that folder appear. |
| `ListFilesRoute.DirectKeyListed` | frontend/src/app/api/listFiles/route.ts:37-49 | A stored key at this level appears as a file if and only if it ends in .pdf, .txt or .docx. |
| `ListFilesRoute.ListingPartitionsKeys` | frontend/src/app/api/listFiles/route.ts:30-57 | Against the store, folders come from keys inside child folders and files are exactly the listed-extension keys at this level. |
| `ListFilesRoute.FoldersAppearOnce` | frontend/src/app/api/listFiles/route.ts:27-57 | A folder entry occurs once in the response however many keys share it. |
| `ListFilesRoute.FoldersBeforeFiles` | frontend/src/app/api/listFiles/route.ts:60 | No folder entry follows a file entry. |
| `ListFilesRoute.MarkerKeepsFolderVisible` | frontend/src/app/api/listFiles/route.ts:33-36 | A child folder holding only `c/.keep` is listed, and a `.keep` at this level is never a file. |
| `SearcherFilesRoute.Get` | frontend/src/app/api/searcher-files/route.ts:18-55 | The path is listed recursively as given. A failure gives 500. Otherwise the results are `Matches` of the listing, and the store is unchanged. |
| `SearcherFilesRoute.Matches` | frontend/src/app/api/searcher-files/route.ts:35-46 | A result never outnumbers the listing. Each key with a listed extension adds one result, in stream order; `MatchesExactly` proves both directions. |
| `SearcherFilesRoute.MatchesExactly` | frontend/src/app/api/searcher-files/route.ts:35-46 | A result is present if and only if some listed key ends in .pdf, .txt or .docx, with that key's name and stamp. |
| `SearcherFilesRoute.MatchesKeepOrder` | frontend/src/app/api/searcher-files/route.ts:35-46 | Results keep stream order. |
| `SearcherFilesRoute.SearchFindsListedKeys` | frontend/src/app/api/searcher-files/route.ts:24-46 | Against the store, the results at any depth under the path are exactly the stored keys with a listed extension. |
| `SearcherFilesRoute.MatchesDistinct` | frontend/src/app/api/searcher-files/route.ts:41-44 | Distinct listed keys give distinct results. |
| `SearcherFilesRoute.SearchCrossesFolderBoundary` | frontend/src/app/api/searcher-files/route.ts:21-24 | Because the path is not normalised, searching "a/b" finds keys under "a/bc/". |
| `CreateFolderRoute.MarkerKey` | frontend/src/app/api/create-folder/route.ts:27-29 | The marker key is the normalised prefix followed by `.keep`. It extends the prefix and ends in "/.keep". |
| `CreateFolderRoute.Post` | frontend/src/app/api/create-folder/route.ts:17-45 | A missing prefix gives 400 with no store call. Otherwise exactly one empty marker is written, giving 201, and nothing else changes. A failed write gives 500. |
| `CreateFolderRoute.CreateTwiceIsCreateOnce` | frontend/src/app/api/create-folder/route.ts:29-32 | Creating a folder twice leaves one marker: the same store as creating it once. |
| `CreateFolderRoute.TrailingSlashSameMarker` | frontend/src/app/api/create-folder/route.ts:27-29 | "docs" and "docs/" write the same marker. |
| `CreateFolderRoute.CreatedFolderIsListed` | frontend/src/app/api/create-folder/route.ts:29-32 | After creation, listing the parent shows the new folder, and never the marker as a file. |
| `CreateFolderRoute.MarkerNotAFile` | frontend/src/app/api/create-folder/route.ts:29 | The marker of a child folder is one level down, so listing the parent never shows it as a file. |
| `DeleteFolderRoute.Delete` | frontend/src/app/api/delete-folder/route.ts:17-58 | A missing prefix gives 400. An empty folder leaves the store unchanged. Otherwise the reply counts every key under the normalised prefix, and those keys are removed except the ones MinIO reports as per-object errors, which stay. A removal that throws gives 500 and never removes a key outside the prefix. |
| `DeleteFolderRoute.DeleteScope` | frontend/src/app/api/delete-folder/route.ts:27-28 | A key is deleted with folder `f` exactly when it continues `f` with a "/". |
| `DeleteFolderRoute.SiblingFolderSurvives` | frontend/src/app/api/delete-folder/route.ts:27-32 | Deleting "docs" keeps every key of "docs2". |
| `DeleteFolderRoute.CountIsKeysUnder` | frontend/src/app/api/delete-folder/route.ts:45-48 | The reported count is the number of keys the folder held, and the store shrinks by exactly that many. |
| `DeleteFolderRoute.ReportedCountIgnoresObjectErrors` | frontend/src/app/api/delete-folder/route.ts:45-50 | When MinIO reports a per-object error, the failed key is still stored, and the store shrinks by fewer keys than the count in the 200 reply. |
| `MoveRoute.AfterMove` | frontend/src/app/api/move/route.ts:26-32 | After a move the source is gone. A distinct destination holds the source's bytes. Every other key is unchanged. |
| `MoveRoute.Post` | frontend/src/app/api/move/route.ts:16-41 | A missing field gives 400 with no store call. The reply is 200 exactly when the source exists, differs from the destination and both calls succeed, and then the store is `AfterMove`. A failed copy changes nothing, so a move onto itself answers 500 and keeps the file. A failed removal leaves both keys. |
| `MoveRoute.MoveKeyCount` | frontend/src/app/api/move/route.ts:26-30 | A move into a free key keeps the key count. A move onto a taken key, which is overwritten, lowers it by one. |
| `MoveRoute.MoveBack` | frontend/src/app/api/move/route.ts:26-32 | Moving there and back restores the original bytes at the original key. |
| `MoveFolderRoute.Rekey` | frontend/src/app/api/move-folder/route.ts:40-41 | A key under `source + "/"` is re-keyed to `destination + "/" + rest`. |
| `MoveFolderRoute.IntoItself` | frontend/src/app/api/move-folder/route.ts:26 | Definition of the guard: the destination starts with the source as a plain string. `ClientAndServerGuardsDisagree` and `AncestorMoveOverwrites` show what it lets through. |
| `MoveFolderRoute.MoveAll` | frontend/src/app/api/move-folder/route.ts:39-48 | Reference definition of the copy-then-remove loop, stopping at the first failed step. `MoveAllSucceeds`, `StopsAtFirstFailure` and `AbortPersists` prove its meaning. |
| `MoveFolderRoute.RekeyInjective` | frontend/src/app/api/move-folder/route.ts:40-41 | Distinct keys under the source get distinct new keys. |
| `MoveFolderRoute.RekeyMovesKey` | frontend/src/app/api/move-folder/route.ts:26-41 | Once the into-itself guard has passed, no key under the source folder gets itself as its new name, so the store never refuses a copy of the folder as a copy onto itself. |
| `MoveFolderRoute.MoveStep` | frontend/src/app/api/move-folder/route.ts:42-47 | One key is copied, and then removed only after the copy succeeds. A failed copy changes nothing. |
| `MoveFolderRoute.Post` | frontend/src/app/api/move-folder/route.ts:16-57 | A missing field, or a destination that starts with the source, gives 400 with no mutation. Otherwise the store ends as `MoveAll` over the listing, and the route reports success exactly when every step succeeded. |
| `MoveFolderRoute.AbortPersists` | frontend/src/app/api/move-folder/route.ts:39-56 | Once a step fails, the later keys are not touched. |
| `MoveFolderRoute.StopsAtFirstFailure` | frontend/src/app/api/move-folder/route.ts:39-56 | A failed move is the completed moves of the earlier keys followed by one failed step. Keys already moved stay moved. |
| `MoveFolderRoute.MoveAllSucceeds` | frontend/src/app/api/move-folder/route.ts:39-49 | With distinct keys, no collisions and no failures, every key is gone, each new key holds the old bytes, other keys are kept, and nothing else appears. |
| `MoveFolderRoute.SeparateFoldersNoCollision` | frontend/src/app/api/move-folder/route.ts:40-41 | When neither folder lies inside the other, no new key lands on a key still to be moved. |
| `MoveFolderRoute.EmptySourceSucceeds` | frontend/src/app/api/move-folder/route.ts:33-49 | An empty source folder reports success and leaves the store unchanged. |
| `MoveFolderRoute.AncestorMoveOverwrites` | frontend/src/app/api/move-folder/route.ts:26-48 | Moving "a/b" into "a" passes the guard and loses the data of "a/b/x". |
| `UploadFileRoute.BucketName` | frontend/src/app/api/upload-file/route.ts:14 | The bucket name is the configured one, or "mermaid". |
| `UploadFileRoute.UploadKey` | frontend/src/app/api/upload-file/route.ts:26-41 | The key is the prefix (default "") followed by the file name. |
| `UploadFileRoute.FileUrl` | frontend/src/app/api/upload-file/route.ts:44 | The URL starts with "http://" and ends with "/bucket/name". |
| `UploadFileRoute.Interpolated` | frontend/src/app/api/upload-file/route.ts:44 | Definition: a template slot shows the setting, or "undefined" when it is unset. |
| `UploadFileRoute.Post` | frontend/src/app/api/upload-file/route.ts:21-57 | A missing file gives 400 with no write. Otherwise the bytes overwrite the upload key and the URL is returned. A failed write gives 500. |
| `UploadFileRoute.UrlOmitsPrefix` | frontend/src/app/api/upload-file/route.ts:41-44 | The URL carries no prefix, so uploads of one name into two folders get the same URL under different keys. |
| `UploadFileRoute.UploadedFileIsListed` | frontend/src/app/api/upload-file/route.ts:41 | An uploaded file with a listed extension appears when its folder is listed. |
| `CreateFolderForm.Sanitize` | frontend/src/components/CreateFolderForm/CreateFolderForm.tsx:38 | The sanitised name has no whitespace. It is empty exactly when the typed name trims to nothing. |
| `CreateFolderForm.SanitizeIdempotent` | frontend/src/components/CreateFolderForm/CreateFolderForm.tsx:38 | Sanitising a sanitised name changes nothing. |
| `CreateFolderForm.SanitizeCollapsesRun` | frontend/src/components/CreateFolderForm/CreateFolderForm.tsx:38 | Between two words, any whitespace run becomes one "_": `Sanitize(a + w + b) == Sanitize(a) + "_" + Sanitize(b)`. |
| `CreateFolderForm.SanitizeDropsPadding` | frontend/src/components/CreateFolderForm/CreateFolderForm.tsx:33-38 | Whitespace typed before or after a name is dropped, not turned into "_": `Sanitize(before + m + after) == Sanitize(m)`. |
| `CreateFolderForm.SpacesBecomeOneUnderscore` | frontend/src/components/CreateFolderForm/CreateFolderForm.tsx:38 | "a  b" is submitted as "a_b". |
| `CreateFolderForm.Validate` | frontend/src/components/CreateFolderForm/CreateFolderForm.tsx:33-44 | Empty is refused first, then duplicates. Otherwise the sanitised name, non-empty and without whitespace, is accepted. |
| `CreateFolderForm.AcceptedNameIsThenDuplicate` | frontend/src/components/CreateFolderForm/CreateFolderForm.tsx:38-44 | Once a name is accepted and the folder exists, the name is refused as a duplicate, whether typed as before or as sanitised. |
| `CreateFolderForm.SubmitDisabled` | frontend/src/components/CreateFolderForm/CreateFolderForm.tsx:238 | Definition: the button is disabled while submitting or while the name trims to nothing. |
| `CreateFolderForm.SubmitButtonMatchesEmptyCheck` | frontend/src/components/CreateFolderForm/CreateFolderForm.tsx:238 | While idle, the button is disabled exactly when submitting would be refused as empty. |
| `CreateFolderForm.FormState.constructor` | frontend/src/components/CreateFolderForm/CreateFolderForm.tsx:19-21 | The form starts empty, idle and without an error. |
| `CreateFolderForm.FormState.SetFolderName` | frontend/src/components/CreateFolderForm/CreateFolderForm.tsx:209 | Typing sets the name only. |
| `CreateFolderForm.FormState.HandleSubmit` | frontend/src/components/CreateFolderForm/CreateFolderForm.tsx:29-59 | A refusal sets its error and nothing else. An acceptance submits exactly the sanitised name. On success the name is cleared and close is asked; on failure the failure error is set. Submitting ends cleared either way. |
| `GlosarioVisualizer.FileExtension` | frontend/src/components/GlosarioVisualizer/GlosarioVisualizer.tsx:21 | The extension holds no dot. It is the whole lowercased name when the name has no dot. |
| `GlosarioVisualizer.ExtensionAfterLastDot` | frontend/src/components/GlosarioVisualizer/GlosarioVisualizer.tsx:21 | The extension is the lowercased text after the last dot. |
| `GlosarioVisualizer.ViewerFor` | frontend/src/components/GlosarioVisualizer/GlosarioVisualizer.tsx:145-216 | Definition of the rendered branch: "pdf" gives the PDF and glossary panes, "txt" the text viewer, "docx" the document viewer, and anything else the unsupported message. |
| `GlosarioVisualizer.GlossaryPath` | frontend/src/components/GlosarioVisualizer/GlosarioVisualizer.tsx:66 | Definition: the key with its final extension replaced by "_glosarioIA.txt". `CompanionsKeepDirectory` and `PdfCompanions` prove its meaning. |
| `GlosarioVisualizer.DownloadName` | frontend/src/components/GlosarioVisualizer/GlosarioVisualizer.tsx:89 | Definition: the key with its final extension replaced by ".txt". `CompanionsKeepDirectory` and `PdfCompanions` prove its meaning. |
| `GlosarioVisualizer.PresignedRequests` | frontend/src/components/GlosarioVisualizer/GlosarioVisualizer.tsx:30-80 | URLs are requested exactly when a viewer (not the unsupported branch) is shown. The file comes first, and the glossary is requested only for a PDF. |
| `GlosarioVisualizer.CompanionsKeepDirectory` | frontend/src/components/GlosarioVisualizer/GlosarioVisualizer.tsx:64-89 | The glossary path and the download name keep the directory and replace only the last segment's extension. |
| `GlosarioVisualizer.NoExtensionUnchanged` | frontend/src/components/GlosarioVisualizer/GlosarioVisualizer.tsx:66 | A key whose last segment has no dot is its own glossary path and download name. |
| `GlosarioVisualizer.PdfCompanions` | frontend/src/components/GlosarioVisualizer/GlosarioVisualizer.tsx:64-67 | For a `.pdf` key, the glossary is the key with ".pdf" replaced by "_glosarioIA.txt", and the download name by ".txt". |
| `GlosarioVisualizer.ListedFileHasViewer` | frontend/src/components/GlosarioVisualizer/GlosarioVisualizer.tsx:145-216 | Every listed or found file opens in the viewer of its extension, never the unsupported branch. |
| `GlosarioVisualizer.ViewerState.constructor` | frontend/src/components/GlosarioVisualizer/GlosarioVisualizer.tsx:24-25 | The viewer starts with no text and not downloading. |
| `GlosarioVisualizer.ViewerState.GlossaryLoaded` | frontend/src/components/GlosarioVisualizer/GlosarioVisualizer.tsx:76-77 | Arrived text replaces the shown text. |
| `GlosarioVisualizer.ViewerState.DownloadGlossary` | frontend/src/components/GlosarioVisualizer/GlosarioVisualizer.tsx:84-92 | The shown text is offered under the download name, and the spinner starts. |
| `GlosarioVisualizer.ViewerState.DownloadFinished` | frontend/src/components/GlosarioVisualizer/GlosarioVisualizer.tsx:94 | The timer stops the spinner. |
| `FileList.Items` | frontend/src/components/FileList/FileList.tsx:155-188 | One row per listing entry, in order. |
| `FileList.SearchItems` | frontend/src/components/FileList/FileList.tsx:190-209 | One file row per search result, in order. |
| `FileList.FolderName` | frontend/src/components/FileList/FileList.tsx:161 | The displayed name of a folder holds no "/". |
| `FileList.FolderItem` | frontend/src/components/FileList/FileList.tsx:158-167 | Definition of a folder row: its path and key are the entry name, and it has no stamp and is unselected. `FolderItemName` proves its shown name. |
| `FileList.FileItem` | frontend/src/components/FileList/FileList.tsx:168-185 | Definition of a file row: the key split at its last "/", its stamp and its glossary key. `FileItemSplitsKey` and `GlossaryJsonShape` prove its meaning. |
| `FileList.FolderItemName` | frontend/src/components/FileList/FileList.tsx:161 | A listed child folder `path + c` is shown under the name `c`. |
| `FileList.FileItemSplitsKey` | frontend/src/components/FileList/FileList.tsx:169-171 | A file row's directory and name rebuild its key, and the name has no "/". |
| `FileList.GlossaryJsonShape` | frontend/src/components/FileList/FileList.tsx:172-175 | The glossary key of `dir + base.ext` is `dir + base_glosario.json`. |
| `FileList.GlossaryJsonWithoutExtension` | frontend/src/components/FileList/FileList.tsx:172-175 | A key whose last segment has no dot is its own glossary key. |
| `FileList.Filter` | frontend/src/components/FileList/FileList.tsx:249-250 | The kept rows are exactly those that pass the test, and there are never more of them than the input. |
| `FileList.FilterAppend` | frontend/src/components/FileList/FileList.tsx:249-250 | Filtering keeps order: the rows kept from `a + b` are the rows kept from `a`, then those kept from `b`. |
| `FileList.FilterOne` | frontend/src/components/FileList/FileList.tsx:249-250 | A single row is kept once when it passes and dropped otherwise. With `FilterAppend`, the result is the passing rows in their original order and multiplicity. |
| `FileList.FilterIdempotent` | frontend/src/components/FileList/FileList.tsx:95-97 | Removing the same rows twice removes them once. |
| `FileList.FoldersAndFilesPartition` | frontend/src/components/FileList/FileList.tsx:248-250 | Folder rows and file rows together are the shown rows, each exactly once. |
| `FileList.Folders` | frontend/src/components/FileList/FileList.tsx:249 | The folder rows are exactly the shown rows of folder kind. |
| `FileList.OnlyFiles` | frontend/src/components/FileList/FileList.tsx:250 | The file rows are exactly the shown rows of file kind. |
| `FileList.ExistingFolders` | frontend/src/components/FileList/FileList.tsx:423-425 | A name is refused if and only if a folder row of the listing has it. |
| `FileList.Filtered` | frontend/src/components/FileList/FileList.tsx:242-246 | An empty query shows the listing rows. Otherwise the shown rows are the search rows whose lowercased name contains the lowercased query. |
| `FileList.MatchesQuery` | frontend/src/components/FileList/FileList.tsx:243-244 | Definition of the search test: the lowercased name contains the lowercased query. |
| `FileList.FilteredKeepsOrder` | frontend/src/components/FileList/FileList.tsx:242-246 | While searching, the shown rows keep the order of the search results: two runs of results show the first run's rows, then the second's. A single result is shown exactly when it matches. |
| `FileList.SearchShowsNoFolders` | frontend/src/components/FileList/FileList.tsx:242-250 | While searching, no folder rows are shown, and every shown row is paged as a file. |
| `FileList.TotalPages` | frontend/src/components/FileList/FileList.tsx:340 | `ceil(n / 10)`: the pages hold n rows, and one page fewer would not. |
| `FileList.SliceIndex` | frontend/src/components/FileList/FileList.tsx:341-344 | A slice index is clamped to the length, and a negative one counts from the end. |
| `FileList.Slice` | frontend/src/components/FileList/FileList.tsx:341-344 | Definition: `Array.prototype.slice` through `SliceIndex`. Its meaning for pages is proved in `Page`. |
| `FileList.Page` | frontend/src/components/FileList/FileList.tsx:341-344 | Page p ≥ 1 shows rows [(p-1)·10, p·10) clipped to the list. Page 0 shows nothing, and no page shows more than 10 rows. |
| `FileList.PagesUpToPrefix` | frontend/src/components/FileList/FileList.tsx:341-344 | Pages 1 to k together are the first 10·k rows. |
| `FileList.PagesCoverItems` | frontend/src/components/FileList/FileList.tsx:340-344 | Pages 1 to totalPages together are all the file rows, in order. |
| `FileList.ItemOnItsPage` | frontend/src/components/FileList/FileList.tsx:340-344 | Row i is at position i % 10 of page i / 10 + 1, which is within range. |
| `FileList.PagesInRange` | frontend/src/components/FileList/FileList.tsx:340-344 | Pages 1 to totalPages are non-empty, and later pages are empty. |
| `FileList.UrlPath` | frontend/src/components/FileList/FileList.tsx:139 | The browsed path is the query parameter when given. Otherwise it is the list path, "/" and the subject, with "undefined" for a missing subject. It is never empty. |
| `FileList.ListingPath` | frontend/src/components/FileList/FileList.tsx:148 | The listing is asked for the browsed path plus "/". |
| `FileList.FolderPrefixFor` | frontend/src/components/FileList/FileList.tsx:429-433 | The new folder's prefix is the browsed path, with a "/" added when missing, followed by the name. |
| `FileList.FormatFolderName` | frontend/src/components/FileList/FileList.tsx:362-364 | The displayed name has no "_" and keeps the length. |
| `FileList.FormatFolderNameInvertible` | frontend/src/components/FileList/FileList.tsx:362-364 | A name without spaces can be recovered from its display. |
| `FileList.IntoFolder` | frontend/src/components/FileList/FileList.tsx:296-297 | The destination lies directly in the target folder and keeps the dragged item's last segment. |
| `FileList.TopLevelIntoFolder` | frontend/src/components/FileList/FileList.tsx:321-322 | A top-level folder moves to `target + "/" + name`. |
| `FileList.Drop` | frontend/src/components/FileList/FileList.tsx:270-290 | A file is moved unless it already lies under the target. Otherwise a folder is moved unless the target is itself or one of its sub-folders. Requests carry the destination inside the target. |
| `FileList.FileDropNeverSelfMove` | frontend/src/components/FileList/FileList.tsx:276 | No file move is sent with the destination equal to the source. |
| `FileList.FileDropOntoAncestorIgnored` | frontend/src/components/FileList/FileList.tsx:276 | A file dropped onto a folder two levels up is ignored, although the move would give it a new key. |
| `FileList.IgnoredFolderDropRefusedByServer` | frontend/src/components/FileList/FileList.tsx:282-286 | Every folder drop the client ignores would also be refused by the server's guard. |
| `FileList.ClientAndServerGuardsDisagree` | frontend/src/components/FileList/FileList.tsx:282-287 | "docs" dropped onto "docs2" is sent, and the server refuses it. |
| `FileList.ParentDropRefusedByServer` | frontend/src/components/FileList/FileList.tsx:280-288 | A folder dropped onto its own parent is sent with the destination equal to the source, which the server refuses. |
| `FileList.CreatedFolderIsThenDuplicate` | frontend/src/components/FileList/FileList.tsx:423-433 | After a folder is created and the directory is listed again, its row carries the accepted name, and the dialog refuses that name. |
| `FileList.Toggled` | frontend/src/components/FileList/FileList.tsx:224-230 | Only `selected` changes, and it flips exactly on the rows with the given name. |
| `FileList.ToggleTwiceRestores` | frontend/src/components/FileList/FileList.tsx:224-230 | Toggling a name twice restores the rows. |
| `FileList.FileListView.constructor` | frontend/src/components/FileList/FileList.tsx:115-120 | The browser starts with no rows, no query and page 1. |
| `FileList.FileListView.PaginatedFiles` | frontend/src/components/FileList/FileList.tsx:341-344 | The current page shows at most 10 rows, all of them file rows of what is shown. |
| `FileList.FileListView.Loaded` | frontend/src/components/FileList/FileList.tsx:155-209 | Each half of the rows becomes the rows of its response when that response is a listing. After a 500 reply that half keeps its previous rows. The query and page are kept. |
| `FileList.FileListView.ToggleSelection` | frontend/src/components/FileList/FileList.tsx:224-230 | The listing rows become `Toggled`, and nothing else changes. |
| `FileList.FileListView.RemoveDeletedFile` | frontend/src/components/FileList/FileList.tsx:95-97 | Exactly the rows with the deleted key go. |
| `FileList.FileListView.RemoveDeletedFolder` | frontend/src/components/FileList/FileList.tsx:670-672 | Exactly the rows with the deleted folder's path go. |
| `FileList.FileListView.GoToPreviousPage` | frontend/src/components/FileList/FileList.tsx:345-346 | The page drops by one but never below 1. |
| `FileList.FileListView.GoToNextPage` | frontend/src/components/FileList/FileList.tsx:347-348 | The page rises by one but never above totalPages, which is 0 when there are no file rows. |
| `FileList.FileListView.SetSearchQuery` | frontend/src/components/FileList/FileList.tsx:387-390 | A new query goes back to page 1. |

## Left out

- MinIO client construction, credentials, the endpoint and port defaults, and the network calls themselves. The store is the abstract map in `Store`.
- The `bucketname` query parameter of the listing and search routes. The bucket is passed to each route directly.
- Store calls are atomic. The model leaves out concurrent requests on overlapping prefixes, and partial writes inside one call.
- The listing's lexicographic order. Listings come in an unspecified order, and every property is proved for all orders.
- One `now` value stamps every write of a request. The clock is a parameter.
- JSON bodies with non-string fields, and bodies that fail to parse. Each field is a string or absent. Both cases end in the routes' catch-all 500.
- `FileList.ListingPath` and `FileList.UrlPath`: the model takes the path the route reads to be the path the client built. The client puts paths into query strings without percent-encoding them. A path holding "+", "&", "#" or "%" therefore reaches `listFiles` and `searcher-files` altered: "+" is read as a space, "&" and "#" cut the value short, and "%xx" is decoded. For example, a folder created as "C++" is browsed as "C  " and shows as empty. `FileList.CreatedFolderIsThenDuplicate` holds only for paths without these characters.
- `SearcherFilesRoute.Get`: the search path is a string. A request without `path` (JavaScript `null`) is not modelled.
- `Store.Bucket.RemoveObjects`: when the call throws, the model admits any subset of the requested keys as removed, since the batches already sent are not modelled.
- Strings are sequences of characters. JavaScript `length`, `substring` and `split` count UTF-16 code units, so the two differ for characters outside the Basic Multilingual Plane, and such characters are not modelled.
- `Text.ToLower`: folds the ASCII letters only; full Unicode case mapping is not modelled.
- `FileList.FolderName`: an undefined display name (a key with no non-empty segment) is rendered as "". No listed folder has such a key.
- The presigned-URL route, its signing and its TTL. The fetch chains and the `encodeURIComponent` Google viewer URL for .docx are also left out. `PresignedRequests` records which keys are asked for.
- The `isMounted` and `isOpen` rendering guards, styles, notifications, timers, `router` navigation, `toLocaleString` dates, and the processing spinner `processFile`/`handleProcess`, which post to an external service.
- Deleting a single file: the `/api/files` route is not part of this model. Only the client-side removal of the row is modelled.
- The backend services (PDF extraction, embeddings, vector upserts), the chat and authentication components, and the page layout.
