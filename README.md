# Canvas image extraction and inlining

A model, in Dafny, of the image handler of a book-editing backend
(`backend/imageHandler.js`). A canvas is a JSON document. Pictures arrive
inside it as inline data URLs (RFC 2397, section 3) in `src` fields.

- **Save** (`processCanvasData`) walks a copy of the canvas. Every `src`
  string that starts with `data:image/` is cut into its MIME subtype and its
  base64 payload (RFC 4648, section 4). The decoded bytes are stored under
  the content-addressed name `<sha256(payload text)>.<subtype>` (FIPS 180-4),
  but only when no file of that name exists. The string is then replaced by
  `/api/images/<userId>/<bookId>/<name>`.
- **Load** (`loadCanvasData`) walks a copy the same way. Every `src` string
  that starts with the scope's prefix `/api/images/<userId>/<bookId>/` is
  replaced by `data:image/<ext>;base64,<file bytes re-encoded>`. Here `<ext>`
  is the file name's extension, with `jpg` announced as `jpeg`. A file that
  cannot be read leaves the reference in place, and the walk goes on.

The files, module by module:

- `json.dfy` (`Json`): the canvas as a `Tree` value. An object is a sequence
  of `Member(key, value)` in enumeration order. `MapSrc` is a generic rewrite
  of `src` strings. It is the shared reference description of both walks, and
  its lemmas say which strings a rewrite leaves and when a second rewrite undoes
  the first.
- `text.dfy` (`Text`): JavaScript's `split` with a one-character separator,
  and Node's POSIX `path.basename` and `path.extname().slice(1)`.
- `images.dfy` (`Images`): the string derivations of both paths (lines
  35-41, 52, 77, 79-84): parsing a data URL, the stored name, the reference
  path, and the data URL built on load. SHA-256 and the base64 coder are the
  fields of a `Codec` value. Properties that need something of them say so in
  a precondition: a digest printed as 64 lower-case hex digits, and
  `encode(decode(p)) == p` for a canonical payload.
- `store.dfy` (`Storage`): the storage directory of one (user, book) scope as
  the class `ImageStore`, with a `files` map from name to bytes. Its methods
  stand for `fs.access`, `fs.writeFile` and `fs.readFile`.
- `extract.dfy` (`Extract`): the save path. `SaveTree` and its companions are
  folds that describe the walk. The methods `ProcessShapes`, `ProcessItems`,
  `ProcessFields`, `ProcessMember` and `ExtractImage` run the walk with `for`
  loops against the store. Each is proved to compute exactly what the folds
  describe, including the store afterwards.
- `extract_properties.dfy` (`ExtractProperties`): what the save path
  promises. The output is the input with each inline image replaced by its
  reference. A save fails exactly when some inline image is malformed. The
  store follows the write-once policy, files written before a failing image
  stay in it, and a second save writes nothing.
- `inline.dfy` (`Inliner`): the load path, in the same two layers. It also
  returns the list of references it could not resolve, in walk order: one
  entry per logged failure, holding the unresolved reference.
- `inline_properties.dfy` (`InlinerProperties`): what the load path promises.
  Only references into the scope change. A missing file leaves its reference
  and reports it.
- `roundtrip.dfy` (`RoundTrip`): the two paths together. Saving and then
  loading under the same scope gives the canvas back, under the conditions
  `LoadAfterSave` states. Two of them are shown necessary: a `jpg` image comes
  back as a different string announcing `jpeg`, and an image with a dotted
  subtype comes back as a different string with the subtype shortened. The
  other conditions are not shown necessary. Loading under another scope leaves
  the saved references alone, when neither scope's identifiers contain `/`
  (otherwise `a` with `b/c` and `a/b` with `c` share a prefix) and the input
  held no `src` already pointing into the loading scope.

The subtype is stored verbatim (`jpeg` stays `.jpeg`); only `jpg` is mapped,
to `jpeg`, on load.

## Model

| member | source | states |
|---|---|---|
| Text.Split | backend/imageHandler.js:35 | `split` with one separator yields at least one piece, and no piece contains the separator |
| Text.JoinSplit | backend/imageHandler.js:35 | the pieces of `split`, glued with the separator, give back the original string |
| Text.SplitJoin | backend/imageHandler.js:35-37 | on separator-free pieces, `split` undoes gluing, so the pieces are exactly recovered |
| Text.SplitWithoutSeparator | backend/imageHandler.js:35-37 | a string without the separator splits into itself alone |
| Text.SplitAtFirst | backend/imageHandler.js:35-37 | the text before the first separator is the first piece, and the rest splits on its own |
| Text.SplitAtLast | backend/imageHandler.js:79 | the text after the last separator is the last piece |
| Text.SplitFirstPiece | backend/imageHandler.js:35-36 | the first piece is a prefix of the string, and a separator follows it exactly when the string has one |
| Text.TrimTrailingSlashes | backend/imageHandler.js:79 | the result is a prefix of the path that does not end in `/`, and everything cut off is `/` |
| Text.Basename | backend/imageHandler.js:79 | `path.basename` contains no `/` and is the last `/`-piece of the path without trailing slashes |
| Text.ExtensionOf | backend/imageHandler.js:82 | `path.extname(name).slice(1)` contains no dot |
| Images.MimeType | backend/imageHandler.js:36 | the regular expression matches exactly when the value has a `;`; the match is the text between `data:` and the first `;`, and it starts with `image/` |
| Images.ParseInline | backend/imageHandler.js:35-41 | parsing succeeds exactly when the value has both a `;` and a `,`; a missing `;` is the MIME error; the payload has no comma and the subtype has no `/` |
| Images.ParseDataUrl | backend/imageHandler.js:35-37 | a data URL built as on line 84 parses back to its own subtype and payload |
| Images.DataUrlMimeType | backend/imageHandler.js:36-37 | the MIME type of a built data URL is `image/<subtype>`, and its subtype is the one it was built with |
| Images.DataUrlPayload | backend/imageHandler.js:35 | the payload of a built data URL is the one it was built with |
| Images.ExtensionOfImageFile | backend/imageHandler.js:41 | the extension that load reads from a stored name is the last dotted piece of the saved subtype, and is the whole subtype when it has no dot |
| Images.ReferenceNamesFile | backend/imageHandler.js:52 | a reference built on save lies in its scope, and its basename is the stored file name |
| Images.ScopesAreIsolated | backend/imageHandler.js:52 | with slash-free identifiers, a reference built for one scope never starts with another scope's prefix |
| Images.ImageFilesDistinct | backend/imageHandler.js:40-41 | two stored names coincide exactly when the digests and the subtypes coincide |
| Json.IsContainer | backend/imageHandler.js:20 | definition of the guard `obj && typeof obj === 'object'` (also lines 31, 66 and 75); no contract of its own, used by `Extract.ProcessCanvasData` and `Inliner.LoadCanvasData`; the walks match on `Arr` and `Obj` directly |
| Json.IsSrcString | backend/imageHandler.js:33 | definition of the guard `key === 'src' && typeof obj[key] === 'string'` (also line 77); no contract of its own, used by `SaveMember` and `InlineMember` |
| Images.IsInline | backend/imageHandler.js:33 | definition of the guard `startsWith('data:image/')`; no contract of its own, used by `SaveMember` and characterised by `ExtractProperties.SaveTreeOutcome` |
| Images.ReferencePrefix | backend/imageHandler.js:77 | definition of the scope prefix `/api/images/<userId>/<bookId>/`; no contract of its own, characterised by `Images.ScopesAreIsolated` |
| Images.IsReference | backend/imageHandler.js:77 | definition of the guard `startsWith` the scope prefix; no contract of its own, used by `InlineMember` and characterised by `InlinerProperties.InlineTreeOutcome` |
| Images.Readable | backend/imageHandler.js:79-81 | definition of a name `fs.readFile` can read: present and not `.` or `..`; no contract of its own, used by `Storage.ImageStore.Read` and `Inliner.ResolveReference` |
| Images.Subtype | backend/imageHandler.js:37 | `mimeType.split('/')[1]`, printed as `undefined` when absent; it contains no `/`. Its value on a built data URL is given by `Images.DataUrlMimeType` |
| Images.Payload | backend/imageHandler.js:35 | `split(',')[1]`: present exactly when the value has a comma, and comma-free. Its value on a built data URL is given by `Images.DataUrlPayload` |
| Images.ImageFile | backend/imageHandler.js:40-41 | definition of the stored name; no contract of its own, characterised by `Images.ImageFilesDistinct` and `Images.ExtensionOfImageFile` |
| Images.ReferenceTo | backend/imageHandler.js:52 | definition of the reference path; no contract of its own, characterised by `Images.ReferenceNamesFile` and `Images.ScopesAreIsolated` |
| Images.MimeSubtype | backend/imageHandler.js:83 | definition of the `jpg`-to-`jpeg` mapping; no contract of its own, characterised by `RoundTrip.JpgReloadsAsJpeg` |
| Images.DataUrl | backend/imageHandler.js:84 | definition of the built data URL; no contract of its own, characterised by `Images.ParseDataUrl` and `RoundTrip.DataUrlSubtypes` |
| Images.InlineFor | backend/imageHandler.js:82-84 | definition of the value a stored file loads as; no contract of its own, characterised by `RoundTrip.ReloadedImage` |
| Inliner.ResolveReference | backend/imageHandler.js:78-87 | definition of the `try` block for one reference; no contract of its own, characterised by `RoundTrip.ReloadedImage` and `InlinerProperties.LoadKeepsMissingReference` |
| Extract.SaveTree | backend/imageHandler.js:26-58 | definition of `processShapes` as a fold; no contract of its own, characterised by `ExtractProperties.SaveTreeOutcome` and `ExtractProperties.SaveTreeStore` |
| Extract.SaveItems | backend/imageHandler.js:27-30 | definition of the array loop; no contract of its own, characterised by `ExtractProperties.SaveItemsOutcome` and `ExtractProperties.SaveItemsStore` |
| Extract.SaveFields | backend/imageHandler.js:31-56 | definition of the key loop; no contract of its own, characterised by `ExtractProperties.SaveFieldsOutcome` and `ExtractProperties.SaveFieldsStore` |
| Extract.SaveMember | backend/imageHandler.js:33-55 | definition of one key's step; no contract of its own, characterised by `ExtractProperties.SaveMemberOutcome` and `ExtractProperties.SaveMemberStore` |
| Inliner.InlineTree | backend/imageHandler.js:70-93 | definition of `loadShapes` as a fold; no contract of its own, characterised by `InlinerProperties.InlineTreeOutcome` |
| Inliner.InlineItems | backend/imageHandler.js:71-74 | definition of the array loop; no contract of its own, characterised by `InlinerProperties.InlineItemsOutcome` |
| Inliner.InlineFields | backend/imageHandler.js:75-91 | definition of the key loop; no contract of its own, characterised by `InlinerProperties.InlineFieldsOutcome` |
| Inliner.InlineMember | backend/imageHandler.js:77-90 | definition of one key's step; no contract of its own, characterised by `InlinerProperties.InlineMemberOutcome` |
| RoundTrip.DataUrlSubtypes | backend/imageHandler.js:84 | two built data URLs with the same payload are equal only when their subtypes are |
| RoundTrip.DottedSubtypeDiffers | backend/imageHandler.js:82-84 | the data URL with the shortened subtype differs from the one with the dotted subtype |
| Storage.ImageStore.Exists | backend/imageHandler.js:46 | the access check succeeds exactly when the file is present |
| Storage.ImageStore.Write | backend/imageHandler.js:48 | a write sets that one file and leaves the others |
| Storage.ImageStore.Read | backend/imageHandler.js:80-81 | a read yields the file's contents exactly when the file is present and its name is not `.` or `..` |
| Extract.SaveImage | backend/imageHandler.js:33-52 | one image: it succeeds exactly when the data URL parses; on failure nothing is written; on success its file is present; the step obeys the write-once policy |
| Extract.ExtractImage | backend/imageHandler.js:35-52 | the statements of the image branch compute `SaveImage`: result, directory and names written |
| Extract.ProcessShapes | backend/imageHandler.js:26-58 | the recursive walk computes `SaveTree`: result, directory and names written |
| Extract.ProcessItems | backend/imageHandler.js:27-30 | the array loop computes `SaveItems`, stopping at the first failure |
| Extract.ProcessFields | backend/imageHandler.js:31-56 | the key loop computes `SaveFields`, stopping at the first failure |
| Extract.ProcessMember | backend/imageHandler.js:33-55 | one key: either the image branch or a descent into the value, as `SaveMember` says |
| Extract.ProcessCanvasData | backend/imageHandler.js:19-62 | a non-object input comes back as it is with the store untouched; otherwise the result and the store are those of `SaveTree` |
| Extract.SaveItemsStopsAtFailure | backend/imageHandler.js:28-29 | once an element fails, the array walk's outcome is fixed: later elements are not visited |
| Extract.SaveFieldsStopsAtFailure | backend/imageHandler.js:32-55 | once a key fails, the object walk's outcome is fixed: later keys are not visited |
| ExtractProperties.SaveTreeOutcome | backend/imageHandler.js:26-58 | a save succeeds exactly when every inline `src` image parses; its output is then the input with each inline `src` string replaced by its reference and everything else in place |
| ExtractProperties.SaveItemsOutcome | backend/imageHandler.js:27-30 | the same for the elements of an array, in order |
| ExtractProperties.SaveFieldsOutcome | backend/imageHandler.js:31-56 | the same for the members of an object, in order |
| ExtractProperties.SaveMemberOutcome | backend/imageHandler.js:33-55 | the same for one member: an inline `src` string becomes its reference, and any other value is descended into |
| ExtractProperties.SaveLeavesNoInlineImages | backend/imageHandler.js:33-52 | after a successful save no `src` string anywhere starts with `data:image/` |
| ExtractProperties.WriteOnceChain | backend/imageHandler.js:44-49 | two write-once steps in a row form one write-once step |
| ExtractProperties.SaveTreeStore | backend/imageHandler.js:42-49 | the whole save, failed or not, is write-once: no existing file changes, no name is written twice, only absent names are written, and they are names of the tree's images. That files written before a failing image stay is `SaveItemsKeepsPrefix` and `SaveFieldsKeepsPrefix` |
| ExtractProperties.SaveItemsStore | backend/imageHandler.js:27-30 | the same for an array |
| ExtractProperties.SaveFieldsStore | backend/imageHandler.js:31-56 | the same for an object |
| ExtractProperties.SaveItemsKeepsPrefix | backend/imageHandler.js:27-30 | writes are durable: the files the walk over the first `k` elements left are still in the store, unchanged, after the whole array, even when a later element fails, and their writes begin the whole walk's writes |
| ExtractProperties.SaveFieldsKeepsPrefix | backend/imageHandler.js:32-49 | the same durability for the members of an object, in enumeration order |
| ExtractProperties.SaveMemberStore | backend/imageHandler.js:33-55 | the same for one member |
| ExtractProperties.SaveImageAgrees | backend/imageHandler.js:44-49 | one image step keeps every stored file holding the decoded payload its name stands for |
| ExtractProperties.SaveTreeAgrees | backend/imageHandler.js:40-49 | the whole save keeps every stored file holding the decoded payload its name stands for, when names do not collide |
| ExtractProperties.SaveItemsAgrees | backend/imageHandler.js:27-30 | the same for an array |
| ExtractProperties.SaveFieldsAgrees | backend/imageHandler.js:31-56 | the same for an object |
| ExtractProperties.SaveMemberAgrees | backend/imageHandler.js:33-55 | the same for one member |
| ExtractProperties.SaveStoresEveryImage | backend/imageHandler.js:40-49 | after a successful save every inline image of the input has its file, holding its decoded payload, when files already present agree with their names (`Agrees`) and no two images of the input share a name (`CollisionFree`) |
| ExtractProperties.SaveTreeNoWrites | backend/imageHandler.js:44-47 | with every image's file already present, a save writes nothing |
| ExtractProperties.SaveItemsNoWrites | backend/imageHandler.js:27-30 | the same for an array |
| ExtractProperties.SaveFieldsNoWrites | backend/imageHandler.js:31-56 | the same for an object |
| ExtractProperties.SaveMemberNoWrites | backend/imageHandler.js:33-55 | the same for one member |
| ExtractProperties.SaveAgainWritesNothing | backend/imageHandler.js:44-49 | saving the same canvas a second time gives the same output and writes no file |
| Inliner.LoadImage | backend/imageHandler.js:78-87 | one reference: the data URL of its file when the file is there, else the reference itself, reported as a failure |
| Inliner.LoadShapes | backend/imageHandler.js:70-93 | the recursive walk computes `InlineTree` |
| Inliner.LoadItems | backend/imageHandler.js:71-74 | the array loop computes `InlineItems` |
| Inliner.LoadFields | backend/imageHandler.js:75-91 | the key loop computes `InlineFields` |
| Inliner.LoadMember | backend/imageHandler.js:77-90 | one key: either a reference is resolved or the value is descended into, as `InlineMember` says |
| Inliner.LoadCanvasData | backend/imageHandler.js:65-97 | a non-object input comes back as it is; otherwise the result is `InlineTree`; the store is not changed |
| InlinerProperties.InlineTreeOutcome | backend/imageHandler.js:70-93 | the loaded canvas is the input with every in-scope `src` string resolved and everything else in place; the reported failures are exactly the in-scope references whose file is missing |
| InlinerProperties.InlineItemsOutcome | backend/imageHandler.js:71-74 | the same for the elements of an array |
| InlinerProperties.InlineFieldsOutcome | backend/imageHandler.js:75-91 | the same for the members of an object |
| InlinerProperties.InlineMemberOutcome | backend/imageHandler.js:77-90 | the same for one member |
| InlinerProperties.LoadLeavesOtherValues | backend/imageHandler.js:77 | a canvas with no reference into the scope loads unchanged and with no failure |
| InlinerProperties.LoadKeepsMissingReference | backend/imageHandler.js:78-87 | a reference whose file is missing, or whose basename is `.` or `..`, stays in the loaded canvas and is reported |
| Json.MapItems | backend/imageHandler.js:27-30 | the rewrite of an array keeps its length and rewrites each element in its place |
| Json.MapFields | backend/imageHandler.js:31-33 | the rewrite of an object keeps its members in order and rewrites each in its place |
| Json.MapSrcStrings | backend/imageHandler.js:33 | the `src` strings after a rewrite are the selected ones rewritten and the others kept |
| Json.MapSrcUnselected | backend/imageHandler.js:53-55 | a rewrite that selects none of the tree's `src` strings returns the tree unchanged |
| Json.MapSrcUndone | backend/imageHandler.js:52 | a second rewrite undoes the first when it selects exactly the rewritten strings and maps each back |
| RoundTrip.ReloadedImage | backend/imageHandler.js:79-84 | a stored image loads back as a data URL whose subtype is the last dotted piece of the saved one (`jpg` as `jpeg`) and whose payload is the re-encoded file |
| RoundTrip.ImageRoundTrip | backend/imageHandler.js:33-52 | an image with a dot-free, non-`jpg` subtype and a canonical payload loads back exactly |
| RoundTrip.JpgReloadsAsJpeg | backend/imageHandler.js:83 | a `jpg` image comes back as a different string, announced as `jpeg` |
| RoundTrip.DottedSubtypeReloadsShortened | backend/imageHandler.js:82 | an image whose subtype has a dot comes back with only the subtype's last dotted piece, a string different from the saved one |
| RoundTrip.LoadAfterSave | backend/imageHandler.js:19-97 | save then load under one scope gives the canvas back with no failure, when the digest always prints as hex, every image is restorable, no input `src` already points into the scope, stored files agree with their names, and no two images of the input share a name |
| RoundTrip.LoadUnderOtherScope | backend/imageHandler.js:77 | a canvas saved under one scope and loaded under another comes back as saved with no failure, whatever the other directory holds, when both scopes' identifiers have no `/` and the input held no `src` pointing into the loading scope |

## Left out

- `ensureStorageDir` (lines 8-16) only creates directories. The store stands for the book directory once it exists.
- File-system failures other than a missing file are not modelled. A failed write would reject the save. A read error of another kind behaves like a missing file, since the load path treats both alike.
- `path.join` (lines 42 and 80) is not modelled. A name without `/` joins to one file of the directory. A crafted reference whose basename is `.` or `..` names a directory, which `fs.readFile` cannot read, so the model never resolves it (`Images.Readable`), whatever the directory map holds.
- SHA-256 and the base64 coder are parameters (`Codec`), not implementations. The round-trip lemmas require hex digests and canonical payloads as preconditions.
- The payload is decoded as base64 even when the data URL lacks `;base64`. The model does the same: it hands the decoder `split(',')[1]`, the text up to the next comma; anything after a second comma is dropped.
- `async`/`await` is left out, and so is the race between two saves that both find a name absent and both write it.
- `console.error` (line 86) is modelled as the list of unresolved references, not as output.
- The deep copy (lines 23 and 68) and the in-place updates (lines 52 and 84) become a rebuilt tree value. JSON values have no sharing, so no aliasing is lost.
- `JSON.stringify` quirks (`undefined`, `Date`, `toJSON`) and number precision are left out. Numbers are reals.
- Object members are taken in `for…in` enumeration order. Duplicate keys, which a JavaScript object cannot have, are allowed by the sequence and handled one by one.
- The HTTP route that serves `/api/images/...` and `module.exports` are left out.
- Scope identifiers are strings. `toString()` on other types is not modelled.
- Inliner.LoadImage: a read error other than a missing file or a `.` or `..` name is modelled as a missing file.
