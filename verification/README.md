# Document ingestion of increadable-server, in Dafny

This project models the core of the service's document ingestion. That core is `FileService.upload`, which turns an uploaded file into a stored document, together with the small pieces it relies on:

- **The id.** A document's id is content-addressed: the slug of the file name's stem, a `-`, then the MD5 hex digest of the bytes.
- **The dedup check.** A known id is answered from the repository. This succeeds only when the stored record has a preview file; otherwise the upload fails with `PREVIEW_NOT_FOUND`.
- **Mime-type resolution.** The type comes from the declared multipart type and the file extension.
- **Dispatch on the resolved type:**
  - EPUB, FB2 and Markdown books are converted to HTML by pandoc. The original and its HTML preview are then written to the object store, and an `ebook` record is persisted.
  - A PDF is written once and gets a `pdf` record.
  - Anything else is `MIMETYPE_NOT_SUPPORTED`.
- **`findById`**, and the entity's derived `previewFileUrl`.
- **The service error codes**, their HTTP statuses, and the `assert` helper.
- **The pure parts of the pandoc helper:** the temp-file suffixes and the shell command line.

Modules:

- `Wrappers`: `Option`, `Result` and `Outcome`.
- `JsString`: ECMAScript `String.prototype.trim`. Whitespace is the WhiteSpace and LineTerminator code points.
- `NodePath`: POSIX `path.extname` and `path.parse(p).name`.
- `ServiceErrors`: the exception codes, the `ServiceException` record, `toHttpStatus` and `assert`.
- `Pandoc`: the formats, `getExtension`, and the command built with `let cmd` and `+=`.
- `Documents`: the `MimeType` enum, `BookMimeType`, the `ebook`/`pdf` document type, `DocumentMetadata`, the document record and `previewFileUrl`.
- `DocumentService`:
  - pure helpers: ids, urls, content types, the small switches, mime resolution, metadata extraction and the dedup check;
  - class `FileService`, which holds the repository (`documents`), the object store (`objects`) and a log of accepted writes (`writes`) as fields that its methods update.

Foreign code is given to the class as function-valued constants. This covers MD5, slugify, the pandoc run, JSDOM parsing, and whether the store accepts a write.

The fallback on `document.service.ts` line 61 is modelled as it parses. The condition `mimeType?.trim() ?? "" === ""` is `mimeType?.trim() ?? true`, because `===` binds tighter than `??`. So the extension is looked at when no type was declared, and also when the declared type is not blank. A recognised extension therefore overrides any declared type. A blank declared type skips the lookup and is rejected by the dispatch. A "fall back only when the declared type is missing or blank" reading describes what the authors plausibly meant, but it is not what the code does. The model follows the code: `InspectsExtension` and `ResolveMimeType`, with the lemmas `ResolveKnownExtension` and `ResolveBlankDeclared`.

Each upload path leaves the repository, the store and the write log in a state that the `Upload` contract gives exactly:

- **Conversion first.** A book is converted before any write. A failed conversion writes nothing.
- **Write failures.** A failed write stops the upload. Writes before it remain, and no record is persisted.
- **Persist last.** The record is added only after every write was accepted.
- **No other change.** The repository changes only by one new record under the computed id, and that record's preview resolves.

## Model

| member | source | states |
|---|---|---|
| JsString.Trim | src/modules/document/document.service.ts:61 | `trim()` is a slice `s[i..j]` of the string with only whitespace before `i` and from `j` on; the result is empty exactly when the string is all whitespace, and otherwise starts and ends with non-whitespace, so the cut is the largest one |
| NodePath.Extname | src/modules/document/document.service.ts:62 | `path.extname` is empty or starts with '.' |
| NodePath.Stem | src/modules/document/document.service.ts:156 | `path.parse(p).name` followed by `path.extname(p)` is the last path segment |
| NodePath.StemAndExtname | src/modules/document/document.service.ts:62 | a name `stem.suffix` (stem non-empty, suffix without '.' or '/') splits back into exactly that stem and the extension `.suffix` |
| ServiceErrors.CodeValueRoundTrip | src/lib/errors/service.error.ts:3-7 | every code is recovered from its string value |
| ServiceErrors.ToHttpStatus | src/lib/errors/service.error.ts:27-35 | NOT_FOUND exactly for DOCUMENT_NOT_FOUND and PREVIEW_NOT_FOUND; BAD_REQUEST exactly for every other code |
| ServiceErrors.CodeOfMessage | src/lib/errors/service.error.ts:16 | a code read back from a message means the message is `"ServiceError " + code` |
| ServiceErrors.NewServiceException | src/lib/errors/service.error.ts:9-19 | the exception carries its code and options (options default to `{}`), its status is `toHttpStatus(code)`, its message is `"ServiceError " + code` and the code can be read back from the message |
| ServiceErrors.Assert | src/lib/errors/service.error.ts:21-25 | returns normally if and only if the condition holds; otherwise it fails with the exception built from that code and those options |
| Pandoc.GetExtension | src/lib/helpers/pandoc.helper.ts:53-64 | each format's suffix is a '.'-prefixed string from which the format is read back |
| Pandoc.GetExtensionInjective | src/lib/helpers/pandoc.helper.ts:53-64 | distinct formats get distinct suffixes |
| Pandoc.TempSuffixes | src/lib/helpers/pandoc.helper.ts:27-30 | the input temp file's suffix names the source format; the output's is ".html" and differs from the input's |
| Pandoc.BuildCommand | src/lib/helpers/pandoc.helper.ts:34-39 | the command is the base command, followed by ` --template <path>` exactly when a template path is given |
| Pandoc.BaseCommandPrefix | src/lib/helpers/pandoc.helper.ts:34-36 | the command starts `pandoc --from <from><fromOptions> --to <to><toOptions> `, options glued with no space, and goes on `<input> -o <output> --standalone --embed-resources` |
| Pandoc.CommandDeterminesTemplate | src/lib/helpers/pandoc.helper.ts:37-39 | two commands for the same files are equal only when their template paths (present or absent) are equal |
| Documents.ParseMimeType | src/modules/document/mime-type.enum.ts:1-9 | a string names the enum value whose string it equals, or none when it equals no value |
| Documents.MimeTypeRoundTrip | src/modules/document/mime-type.enum.ts:1-7 | every mime type is recovered from its string value |
| Documents.FirstPreview | src/modules/document/document.entity.ts:27-34 | the index `find` stops at: a preview file with no preview file before it; none exactly when no file is a preview file |
| Documents.Document.PreviewFileUrl | src/modules/document/document.entity.ts:26-35 | undefined exactly when no file has the type's preview mime type (HTML for ebook, PDF for pdf); otherwise the url of the first such file |
| Documents.NoFilesNoPreview | src/modules/document/document.entity.ts:20-35 | a record with the default empty file list has no preview |
| Documents.FirstPreviewConcat | src/modules/document/document.entity.ts:27-34 | the first preview of a concatenation is the first in the front part, else the first in the back part shifted by the front's length |
| Documents.PreviewIgnoresOtherFiles | src/modules/document/document.entity.ts:27-34 | prepending or appending non-preview files leaves `previewFileUrl` unchanged |
| DocumentService.DocumentIdInjective | src/modules/document/document.service.ts:50 | with checksums of equal length, equal ids mean equal slugs and equal checksums |
| DocumentService.ObjectUrl | src/modules/document/document.service.ts:88-89 | the url is the bucket's `https://<bucket>.s3.<region>.amazonaws.com/` prefix followed by the key, which can be read back from it |
| DocumentService.ObjectUrlInjective | src/modules/document/document.service.ts:88-89 | urls of the same bucket are equal only for equal keys |
| DocumentService.ContentType | src/modules/document/document.service.ts:150 | the content type is the declared type followed by `;charset=utf-8`, or `undefined;charset=utf-8` when none was declared |
| DocumentService.PreviewMimeType | src/modules/document/document.service.ts:166-173 | a file is a preview file in the entity's sense exactly when it has this mime type |
| DocumentService.ExtensionMimeType | src/modules/document/document.service.ts:62-76 | no recognised extension names HTML |
| DocumentService.ExtensionFromMimeType | src/modules/document/document.service.ts:218-231 | every suffix is '.'-prefixed; each non-HTML type's suffix resolves back to that type; the suffix is ".html" exactly for HTML |
| DocumentService.PandocOptionsFromMimeType | src/modules/document/document.service.ts:204-216 | the converter reads a book in the format whose temp suffix is the stored original's suffix; reader options are `+autolink_bare_uris+mark` exactly for Markdown and absent otherwise |
| DocumentService.InspectsExtension | src/modules/document/document.service.ts:61 | definitional: the condition `mimeType?.trim() ?? true`, true when no type was declared or the trimmed declared type is not empty; its consequences are stated by `ResolveKnownExtension` and `ResolveBlankDeclared` |
| DocumentService.ResolveMimeType | src/modules/document/document.service.ts:60-77 | definitional: the value of `mimeType` after the fallback block; stated by `ResolveKnownExtension`, `ResolveUnknownExtension`, `ResolveBlankDeclared`, and tied to the imperative block by `FileService.ResolveUploadMimeType` |
| DocumentService.ResolveKnownExtension | src/modules/document/document.service.ts:60-77 | when the declared type is absent or not blank, a recognised extension replaces it |
| DocumentService.ResolveUnknownExtension | src/modules/document/document.service.ts:60-77 | an unrecognised extension keeps the declared value, or its absence |
| DocumentService.ResolveBlankDeclared | src/modules/document/document.service.ts:61 | a blank declared type is kept as it is and names no type the dispatch accepts |
| DocumentService.ResolveEpubByName | src/modules/document/document.service.ts:60-82 | `book.epub` with no declared type resolves to EPUB, a book type |
| DocumentService.ResolveUnknownByName | src/modules/document/document.service.ts:60-77 | `file.xyz` with no declared type stays unresolved and is not supported |
| DocumentService.SupportedMimeType | src/modules/document/document.service.ts:79-142 | the switch accepts exactly the strings of EPUB, FB2, Markdown and PDF; everything else falls to the default |
| DocumentService.FirstMetaIndex | src/modules/document/document.service.ts:188 | the index of the first meta tag with that name; none exactly when no tag has it |
| DocumentService.FirstMeta | src/modules/document/document.service.ts:188-189 | the content of the first tag with that name and of no other tag: defined exactly when such a first tag exists and has content, and then no earlier tag has that name |
| DocumentService.MetaContents | src/modules/document/document.service.ts:190-192 | never more contents than tags; its full meaning is stated by `MetaContentsIndices` |
| DocumentService.MatchingIndices | src/modules/document/document.service.ts:190 | definitional: the positions of the tags with that name, in document order; never more positions than tags |
| DocumentService.MatchingIndicesMatch | src/modules/document/document.service.ts:190 | every listed position is in range and holds a tag with that name |
| DocumentService.MatchingIndicesIncreasing | src/modules/document/document.service.ts:190 | the positions are strictly increasing, so each tag is listed once and in document order |
| DocumentService.MatchingIndicesComplete | src/modules/document/document.service.ts:190 | every tag with that name is listed |
| DocumentService.MetaContentsOfMatchingIndices | src/modules/document/document.service.ts:190-192 | the collected authors are the contents of the listed tags, one for one, in the same order |
| DocumentService.MetaContentsIndices | src/modules/document/document.service.ts:190-192 | `querySelectorAll(...).map(getAttribute("content"))`: there is a strictly increasing list of exactly the positions of the tags with that name, and the result holds each such tag's content once, in that order |
| DocumentService.MetaContentsConcat | src/modules/document/document.service.ts:190-192 | authors are collected in document order: the contents of a concatenation are the concatenation of the contents |
| DocumentService.FirstMetaIsFirstContent | src/modules/document/document.service.ts:188-193 | the single-tag lookup gives the first element of the all-tags list, or nothing when that list is empty |
| DocumentService.ExtractMetadata | src/modules/document/document.service.ts:188-199 | definitional: title, subtitle and date from the first matching tag, authors always set to every author content; `FileService.ConvertToHtml` proves its conditional field writes produce this record |
| DocumentService.ExtractMetadataExample | src/modules/document/document.service.ts:188-199 | a head with one title and two authors gives that title, those authors in order, and no subtitle or date |
| DocumentService.FirstWithMime | src/modules/document/document.service.ts:55 | the index of the first file with that mime type; none exactly when no file has it |
| DocumentService.DedupCheckFindsPreview | src/modules/document/document.service.ts:54-56 | the dedup check and `previewFileUrl` stop at the same file, so the check passes exactly when `previewFileUrl` is defined |
| DocumentService.ConsistentDedupPasses | src/modules/document/document.service.ts:52-57 | in a consistent repository the dedup check of a known id never fails |
| DocumentService.FileService.constructor | src/modules/document/document.service.ts:26-40 | the service starts with the given configuration (bucket, region and template path taken as present), repository and store, and an empty write log |
| DocumentService.FileService.SanitizeName | src/modules/document/document.service.ts:155-164 | definitional: `slugify` applied to `path.parse(name).name`; that the extension plays no part is stated by `SameStemSameBytesSameId` |
| DocumentService.FileService.SameStemSameBytesSameId | src/modules/document/document.service.ts:49-50 | the id is `slugify(stem) + "-" + md5(bytes)`, so the same stem and bytes give the same id whatever the extension |
| DocumentService.FileService.EbookRecord | src/modules/document/document.service.ts:96-111 | definitional: the ebook record built by `assign`; its files, keys and preview are stated by `EbookRecordKeys` and `EbookRecordPreview` |
| DocumentService.FileService.PdfRecord | src/modules/document/document.service.ts:123-135 | definitional: the pdf record built by `assign`; its preview is stated by `PdfRecordPreview` |
| DocumentService.FileService.EbookRecordPreview | src/modules/document/document.service.ts:88-111 | an ebook record previews the url of `id + ".html"`, which differs from its original's url |
| DocumentService.FileService.EbookRecordKeys | src/modules/document/document.service.ts:83-111 | an ebook record has exactly the original (its mime type, url of `id + ext`) and then the HTML preview (url of `id + ".html"`), and `originalFileUrl` is the original's url |
| DocumentService.FileService.PdfRecordPreview | src/modules/document/document.service.ts:118-134 | a pdf record's preview url is its `originalFileUrl`, the url of `id + ".pdf"` |
| DocumentService.FileService.FindById | src/modules/document/document.service.ts:42-46 | the stored document when the id is known; otherwise DOCUMENT_NOT_FOUND with `{ documentId }` and status NOT_FOUND, code 404 |
| DocumentService.FileService.PutObject | src/modules/document/document.service.ts:146-153 | an accepted write stores the bytes and content type under the key and is appended to the log; a refused one changes nothing |
| DocumentService.FileService.ConvertToHtml | src/modules/document/document.service.ts:175-202 | fails exactly when the conversion fails; otherwise title, subtitle and date are the first matching tag's content (set only when present) and authors is always set, to every author content in order |
| DocumentService.FileService.ResolveUploadMimeType | src/modules/document/document.service.ts:60-77 | the `let mimeType` after the fallback block is the declared type, replaced by a recognised extension's type when the extension is looked at |
| DocumentService.FileService.UploadBook | src/modules/document/document.service.ts:80-116 | conversion before any write; puts at `id + ext` with the declared type, then at `id + ".html"` as HTML; each failure stops there; the ebook record is persisted only after both writes |
| DocumentService.FileService.UploadPdf | src/modules/document/document.service.ts:117-140 | one put at `id + ".pdf"` with the declared type, then the pdf record with empty metadata; a failed write persists nothing |
| DocumentService.FileService.Upload | src/modules/document/document.service.ts:48-143 | a known id: no write, and the existing record or PREVIEW_NOT_FOUND with `{ documentId, mimeType }`; an unsupported type: no write and MIMETYPE_NOT_SUPPORTED with `{ mimeType }`; book and pdf effects as above; the repository only gains the new record, whose preview resolves; consistency is preserved |
| DocumentService.FileService.UploadTwice | src/modules/document/document.service.ts:48-58 | from any repository, once an upload succeeded, the same upload again returns the same document and writes nothing |

## Left out

- Configuration is taken as present. The template path is a value given to the constructor, but the code reads `PANDOC_TEMPLATE` with `getOrThrow` on every conversion, not at construction (`document.service.ts` line 183, against lines 31-39). So a service without that setting accepts PDFs but fails every book upload after the dedup check and before any write. The model has no such failure: `ConvertToHtml` and `UploadBook` never fail for a missing template.
- DocumentIdInjective: stated for checksums of equal length. The model does not say that `md5` always yields 32 characters, so the lemma is not applied to `DocumentIdOf`.
- The S3 client and the network. `putObject` is a write to the `objects` map. Whether a write is accepted is the constant `storeAccepts`; a refused write is modelled as a failure with no effect. Retries and partial writes are not modelled.
- MikroORM. `findOne`, `assign` and `persistAndFlush` act on the `documents` map, and persisting always succeeds. Migrations are not modelled; the document type is `ebook | pdf`.
- Concurrency. The race between the dedup lookup and the persist is not modelled: the model has one sequential caller.
- The PDF branch's assignment of `previewFileUrl` (line 133) is not modelled. It targets a getter that is not persisted, so the model keeps only the getter.
- Foreign libraries are uninterpreted functions of the service, so their own behaviour is not modelled:
  - `slugify` and its options;
  - MD5, as described in RFC 1321;
  - JSDOM parsing: the body's inner HTML, already UTF-8 encoded, and the head as a list of meta tags.
- The pandoc subprocess, the temp files, the `fs` reads and writes, and `exec` are one uninterpreted function from the converter input to the output bytes. Its failure is `ConversionFailed` with nothing written. In the code a rejected `exec` is thrown inside the async callback and never settles the promise; the model does not capture that hang.
- `ConvertToHtml`: each author entry is an optional string. The `!` on `getAttribute` is only a type assertion, so a `null` content stays in the list as `None`.
- HTTP and bootstrap are not modelled: the controller, DTOs, the error filter, `main.ts` and the NestJS wiring.
- `NodePath`: only the POSIX behaviour of `path` is modelled; the Windows variant, with its `\` separators and drive letters, is not.
- `JsString.Trim`: strings are sequences of code points, and UTF-16 surrogate pairs are not modelled. `trim` never removes a surrogate, so this does not change the result.
