/**
 * The document ingestion service: content-addressed ids, mime-type
 * resolution, conversion of book formats to HTML, the object-store writes
 * and the repository record, with the dedup check in front.
 *
 * The repository is a map from id to document and the object store a map
 * from key to stored object, both fields of `FileService`; `writes` logs
 * every accepted store write in order.  The foreign pieces (MD5, slugify,
 * the pandoc run, JSDOM parsing, and whether the store accepts a write) are
 * function-valued constants of the service.
 */
module DocumentService {
  import opened Wrappers
  import opened JsString
  import opened NodePath
  import opened ServiceErrors
  import Pandoc
  import opened Documents

  type Buffer = Pandoc.Buffer

  /** The multipart upload: `originalname`, the declared `mimetype` (may be absent) and the bytes. */
  datatype UploadedFile = UploadedFile(originalname: string, mimetype: Option<string>, buffer: Buffer)

  /** A `<meta name=... content=...>` tag of the converted document's head. */
  datatype MetaTag = MetaTag(name: string, content: Option<string>)

  /** What JSDOM yields: the body's inner HTML (UTF-8 encoded) and the head's meta tags in document order. */
  datatype HtmlDocument = HtmlDocument(body: Buffer, head: seq<MetaTag>)

  /** The result of `convertToHtml`. */
  datatype Converted = Converted(buffer: Buffer, metadata: DocumentMetadata)

  /** An object as the store keeps it. */
  datatype StoredObject = StoredObject(body: Buffer, contentType: string)

  /** One `putObject` call. */
  datatype PutObjectRequest = PutObjectRequest(bucket: string, key: string, body: Buffer, contentType: string)

  /** Why an upload fails: a service exception, a failed conversion, or a store write that failed. */
  datatype UploadError = Service(exception: ServiceException) | ConversionFailed | StorageFailed(key: string)

  /** The object store after one accepted write. */
  function Store(objects: map<string, StoredObject>, req: PutObjectRequest): map<string, StoredObject> {
    objects[req.key := StoredObject(req.body, req.contentType)]
  }

  // ---------------------------------------------------------------------
  // Ids, keys, urls and content types

  /** `${slug}-${checksum}`. */
  function DocumentId(slug: string, checksum: string): string {
    slug + "-" + checksum
  }

  /**
   * A fact about the id format alone: checksums of one length make the id
   * injective, so equal ids mean equal slugs and equal checksums.  It
   * applies to the service's ids once its `md5` yields digests of one length
   * (a hex MD5 digest always has 32 characters); `md5` is uninterpreted
   * here, so that length is not part of the model.
   */
  lemma DocumentIdInjective(slug1: string, checksum1: string, slug2: string, checksum2: string)
    requires |checksum1| == |checksum2|
    requires DocumentId(slug1, checksum1) == DocumentId(slug2, checksum2)
    ensures slug1 == slug2 && checksum1 == checksum2
  {
    var id := DocumentId(slug1, checksum1);
    assert |slug1| == |slug2|;
    assert slug1 == id[..|slug1|] == slug2;
    assert checksum1 == id[|slug1| + 1..] == checksum2;
  }

  /** The part of an object url before the key. */
  function UrlPrefix(bucket: string, region: string): string {
    "https://" + bucket + ".s3." + region + ".amazonaws.com/"
  }

  /** The public url of `key` in the bucket; the key can be read back from it. */
  function ObjectUrl(bucket: string, region: string, key: string): (url: string)
    ensures KeyOfUrl(bucket, region, url) == Some(key)
  {
    var prefix := UrlPrefix(bucket, region);
    assert (prefix + key)[..|prefix|] == prefix;
    assert (prefix + key)[|prefix|..] == key;
    prefix + key
  }

  /** Reads the key back from an object url of the bucket. */
  function KeyOfUrl(bucket: string, region: string, url: string): (key: Option<string>)
    ensures key.Some? ==> url == UrlPrefix(bucket, region) + key.value
  {
    var prefix := UrlPrefix(bucket, region);
    if |prefix| <= |url| && url[..|prefix|] == prefix then Some(url[|prefix|..]) else None
  }

  /** Urls of one bucket name the same object only when the keys agree. */
  lemma ObjectUrlInjective(bucket: string, region: string, key1: string, key2: string)
    requires ObjectUrl(bucket, region, key1) == ObjectUrl(bucket, region, key2)
    ensures key1 == key2
  {
    assert Some(key1) == KeyOfUrl(bucket, region, ObjectUrl(bucket, region, key2)) == Some(key2);
  }

  /** The text a template literal makes of an optional string. */
  function Interpolate(s: Option<string>): string {
    match s
    case Some(v) => v
    case None => "undefined"
  }

  /** `${mimeType};charset=utf-8`: the declared type, or "undefined" when none was declared. */
  function ContentType(mimeType: Option<string>): (r: string)
    ensures mimeType.Some? ==> r == mimeType.value + ";charset=utf-8"
    ensures mimeType.None? ==> r == "undefined;charset=utf-8"
  {
    Interpolate(mimeType) + ";charset=utf-8"
  }

  // ---------------------------------------------------------------------
  // Small total maps

  /**
   * `previewMimeType`: HTML for an ebook, PDF for a PDF; a file is a preview
   * file in the entity's sense exactly when it has this mime type.
   */
  function PreviewMimeType(docType: DocumentType): (m: MimeType)
    ensures forall f :: IsPreviewFile(docType, f) <==> f.mimeType == m
  {
    match docType
    case Ebook => Html
    case PdfDocument => Pdf
  }

  /** The switch over `path.extname(originalname)`: the mime type each recognised extension names. */
  function ExtensionMimeType(ext: string): (r: Option<MimeType>)
    ensures r.Some? ==> r.value != Html
  {
    if ext == ".md" || ext == ".markdown" then Some(Markdown)
    else if ext == ".epub" then Some(Epub)
    else if ext == ".fb2" then Some(Fb2)
    else if ext == ".pdf" then Some(Pdf)
    else None
  }

  /**
   * `extensionFromMimeType`: the suffix of the stored original.  Every
   * suffix but HTML's resolves back to its mime type, so HTML's ".html" is
   * never the suffix of a stored original of another type.
   */
  function ExtensionFromMimeType(m: MimeType): (ext: string)
    ensures |ext| > 1 && ext[0] == '.'
    ensures m != Html ==> ExtensionMimeType(ext) == Some(m)
    ensures m == Html <==> ext == ".html"
  {
    match m
    case Epub => ".epub"
    case Fb2 => ".fb2"
    case Markdown => ".md"
    case Html => ".html"
    case Pdf => ".pdf"
  }

  /** The `from` part of the converter input. */
  datatype PandocOptions = PandocOptions(from: Pandoc.PandocFrom, fromOptions: Option<string>)

  /**
   * `pandocOptionsFromMimeType`: the converter reads a book in its own
   * format (so its temp input file gets the same suffix as the stored
   * original), and only markdown carries extra reader extensions.
   */
  function PandocOptionsFromMimeType(m: BookMimeType): (r: PandocOptions)
    ensures Pandoc.GetExtension(r.from) == ExtensionFromMimeType(m)
    ensures m == Markdown <==> r.fromOptions == Some("+autolink_bare_uris+mark")
    ensures m != Markdown <==> r.fromOptions == None
  {
    match m
    case Epub => PandocOptions(Pandoc.Epub, None)
    case Fb2 => PandocOptions(Pandoc.Fb2, None)
    case Markdown => PandocOptions(Pandoc.Markdown, Some("+autolink_bare_uris+mark"))
  }

  // ---------------------------------------------------------------------
  // Mime-type resolution

  /**
   * The truth value of `mimeType?.trim() ?? "" === ""`, which parses as
   * `mimeType?.trim() ?? true`: the extension is looked at when no type was
   * declared, or when the declared type is not blank.
   */
  predicate InspectsExtension(declared: Option<string>) {
    match declared
    case None => true
    case Some(s) => Trim(s) != ""
  }

  /** The `mimeType` variable after the fallback block: a recognised extension replaces it, otherwise it stays as declared. */
  function ResolveMimeType(declared: Option<string>, originalname: string): Option<string> {
    if InspectsExtension(declared) then
      match ExtensionMimeType(Extname(originalname))
      case Some(m) => Some(m.Value())
      case None => declared
    else declared
  }

  /** Where the extension is looked at, a recognised one wins over whatever was declared. */
  lemma ResolveKnownExtension(declared: Option<string>, originalname: string, m: MimeType)
    requires declared.None? || !IsBlank(declared.value)
    requires ExtensionMimeType(Extname(originalname)) == Some(m)
    ensures ResolveMimeType(declared, originalname) == Some(m.Value())
  {
  }

  /** An unrecognised extension leaves the declared type (or its absence) as it was. */
  lemma ResolveUnknownExtension(declared: Option<string>, originalname: string)
    requires ExtensionMimeType(Extname(originalname)).None?
    ensures ResolveMimeType(declared, originalname) == declared
  {
  }

  /** A blank declared type is kept as it is, and names no mime type the dispatch accepts. */
  lemma ResolveBlankDeclared(declared: string, originalname: string)
    requires IsBlank(declared)
    ensures ResolveMimeType(Some(declared), originalname) == Some(declared)
    ensures SupportedMimeType(Some(declared)).None?
  {
    assert Trim(declared) == "";
    forall m: MimeType ensures m.Value() != declared {
      assert !IsWhiteSpace(m.Value()[0]);
    }
  }

  /** "book.epub" with no declared type resolves to EPUB. */
  lemma ResolveEpubByName()
    ensures ResolveMimeType(None, "book.epub") == Some(Epub.Value())
    ensures SupportedMimeType(ResolveMimeType(None, "book.epub")) == Some(Epub)
  {
    assert "book.epub" == "book" + "." + "epub";
    StemAndExtname("book", "epub");
  }

  /** "file.xyz" with no declared type resolves to nothing, which the dispatch rejects. */
  lemma ResolveUnknownByName()
    ensures ResolveMimeType(None, "file.xyz") == None
    ensures SupportedMimeType(ResolveMimeType(None, "file.xyz")) == None
  {
    assert "file.xyz" == "file" + "." + "xyz";
    StemAndExtname("file", "xyz");
  }

  /**
   * The `switch (mimeType)` of the upload: a book type or PDF is handled,
   * anything else (HTML, an unknown string, undefined) falls to the default.
   */
  function SupportedMimeType(resolved: Option<string>): (r: Option<MimeType>)
    ensures r.Some? ==> resolved == Some(r.value.Value()) && (r.value.IsBook() || r.value == Pdf)
    ensures r.None? ==> forall m: MimeType :: (m.IsBook() || m == Pdf) ==> resolved != Some(m.Value())
  {
    match resolved
    case None => None
    case Some(s) =>
      match ParseMimeType(s)
      case Some(m) => if m.IsBook() || m == Pdf then Some(m) else None
      case None => None
  }

  // ---------------------------------------------------------------------
  // Metadata from the converted document's head

  /** The index of the first meta tag with the given name. */
  function FirstMetaIndex(head: seq<MetaTag>, name: string): (r: Option<nat>)
    ensures r.Some? ==> r.value < |head| && head[r.value].name == name
    ensures r.Some? ==> forall j :: 0 <= j < r.value ==> head[j].name != name
    ensures r.None? <==> forall j :: 0 <= j < |head| ==> head[j].name != name
  {
    if |head| == 0 then None
    else if head[0].name == name then Some(0)
    else match FirstMetaIndex(head[1..], name)
      case Some(i) => Some(i + 1)
      case None => None
  }

  /**
   * `querySelector("meta[name=...]")?.getAttribute("content")`: the content
   * of the first tag with that name; None when there is no such tag or that
   * first tag has no content (a later tag is not consulted).
   */
  function FirstMeta(head: seq<MetaTag>, name: string): (r: Option<string>)
    ensures r.Some? <==> exists i :: 0 <= i < |head| && head[i].name == name && head[i].content.Some?
                                      && forall j :: 0 <= j < i ==> head[j].name != name
    ensures r.Some? ==> exists i :: 0 <= i < |head| && head[i].name == name && head[i].content == r
                                    && forall j :: 0 <= j < i ==> head[j].name != name
  {
    match FirstMetaIndex(head, name)
    case Some(i) => head[i].content
    case None => None
  }

  /** `querySelectorAll("meta[name=...]")` mapped to the content attribute, in document order. */
  function MetaContents(head: seq<MetaTag>, name: string): (r: seq<Option<string>>)
    ensures |r| <= |head|
  {
    if |head| == 0 then []
    else if head[0].name == name then [head[0].content] + MetaContents(head[1..], name)
    else MetaContents(head[1..], name)
  }

  /** The indices of the tags with that name, in document order. */
  ghost function MatchingIndices(head: seq<MetaTag>, name: string): (idx: seq<nat>)
    ensures |idx| <= |head|
  {
    if |head| == 0 then []
    else (if head[0].name == name then [0] else []) + Successors(MatchingIndices(head[1..], name))
  }

  /** The matching indices are in range and name tags with that name. */
  lemma {:induction false} MatchingIndicesMatch(head: seq<MetaTag>, name: string)
    ensures forall k :: 0 <= k < |MatchingIndices(head, name)| ==>
              MatchingIndices(head, name)[k] < |head| && head[MatchingIndices(head, name)[k]].name == name
  {
    if |head| > 0 {
      MatchingIndicesMatch(head[1..], name);
      var idx, rest := MatchingIndices(head, name), MatchingIndices(head[1..], name);
      var first: seq<nat> := if head[0].name == name then [0] else [];
      var succ := Successors(rest);
      assert idx == first + succ;
      var d := |first|;
      forall k | d <= k < |idx| ensures idx[k] < |head| && head[idx[k]].name == name {
        assert idx[k] == succ[k - d];
        assert rest[k - d] < |head| - 1 && head[1..][rest[k - d]].name == name;
        assert head[idx[k]] == head[1..][rest[k - d]];
      }
    }
  }

  /** The matching indices are strictly increasing: document order. */
  lemma {:induction false} MatchingIndicesIncreasing(head: seq<MetaTag>, name: string)
    ensures forall k, l :: 0 <= k < l < |MatchingIndices(head, name)| ==>
              MatchingIndices(head, name)[k] < MatchingIndices(head, name)[l]
  {
    if |head| > 0 {
      MatchingIndicesIncreasing(head[1..], name);
      var idx, rest := MatchingIndices(head, name), MatchingIndices(head[1..], name);
      var first: seq<nat> := if head[0].name == name then [0] else [];
      var succ := Successors(rest);
      assert idx == first + succ;
      var d := |first|;
      forall k, l | 0 <= k < l < |idx| ensures idx[k] < idx[l] {
        assert idx[l] == succ[l - d];
        if k >= d {
          assert idx[k] == succ[k - d];
          assert rest[k - d] < rest[l - d];
        }
      }
    }
  }

  /** Every tag with that name is among the matching indices. */
  lemma {:induction false} MatchingIndicesComplete(head: seq<MetaTag>, name: string)
    ensures forall i :: 0 <= i < |head| && head[i].name == name ==> i in MatchingIndices(head, name)
  {
    if |head| > 0 {
      MatchingIndicesComplete(head[1..], name);
      var idx, rest := MatchingIndices(head, name), MatchingIndices(head[1..], name);
      var d := if head[0].name == name then 1 else 0;
      forall i | 0 <= i < |head| && head[i].name == name ensures i in idx {
        if i > 0 {
          assert head[1..][i - 1] == head[i];
          var k :| 0 <= k < |rest| && rest[k] == i - 1;
          assert idx[k + d] == i;
        } else {
          assert idx[0] == 0;
        }
      }
    }
  }

  /** The collected contents are those of the matching tags, one each, in the same order. */
  lemma {:induction false} MetaContentsOfMatchingIndices(head: seq<MetaTag>, name: string)
    ensures |MetaContents(head, name)| == |MatchingIndices(head, name)|
    ensures forall k :: 0 <= k < |MatchingIndices(head, name)| ==>
              MatchingIndices(head, name)[k] < |head|
              && MetaContents(head, name)[k] == head[MatchingIndices(head, name)[k]].content
  {
    if |head| > 0 {
      MetaContentsOfMatchingIndices(head[1..], name);
      var idx, rest := MatchingIndices(head, name), MatchingIndices(head[1..], name);
      var first: seq<nat> := if head[0].name == name then [0] else [];
      var succ := Successors(rest);
      assert idx == first + succ;
      var d := |first|;
      var contents, tail := MetaContents(head, name), MetaContents(head[1..], name);
      assert contents == (if d == 1 then [head[0].content] else []) + tail;
      forall k | d <= k < |idx| ensures idx[k] < |head| && contents[k] == head[idx[k]].content {
        assert idx[k] == succ[k - d];
        assert contents[k] == tail[k - d];
        assert head[idx[k]] == head[1..][rest[k - d]];
      }
    }
  }

  /**
   * What `querySelectorAll` collects: there is an increasing list `idx` of
   * exactly the indices of the tags with that name, and the result holds
   * the content of each of those tags, once, in that order.
   */
  lemma MetaContentsIndices(head: seq<MetaTag>, name: string) returns (idx: seq<nat>)
    ensures |idx| == |MetaContents(head, name)|
    ensures forall k :: 0 <= k < |idx| ==> idx[k] < |head| && head[idx[k]].name == name
                                           && MetaContents(head, name)[k] == head[idx[k]].content
    ensures forall k, l :: 0 <= k < l < |idx| ==> idx[k] < idx[l]
    ensures forall i :: 0 <= i < |head| && head[i].name == name ==> i in idx
  {
    idx := MatchingIndices(head, name);
    MatchingIndicesMatch(head, name);
    MatchingIndicesIncreasing(head, name);
    MatchingIndicesComplete(head, name);
    MetaContentsOfMatchingIndices(head, name);
  }

  /** Every index moved one place on. */
  function Successors(s: seq<nat>): (r: seq<nat>)
    ensures |r| == |s| && forall k :: 0 <= k < |s| ==> r[k] == s[k] + 1
  {
    seq(|s|, k requires 0 <= k < |s| => s[k] + 1)
  }

  /** Collecting contents respects document order: the contents of a concatenation are the concatenation of the contents. */
  lemma {:induction false} MetaContentsConcat(a: seq<MetaTag>, b: seq<MetaTag>, name: string)
    ensures MetaContents(a + b, name) == MetaContents(a, name) + MetaContents(b, name)
  {
    if a == [] {
      assert a + b == b;
    } else {
      assert (a + b)[0] == a[0];
      assert (a + b)[1..] == a[1..] + b;
      MetaContentsConcat(a[1..], b, name);
    }
  }

  /** The first-tag lookup agrees with the head of the full list. */
  lemma {:induction false} FirstMetaIsFirstContent(head: seq<MetaTag>, name: string)
    ensures FirstMeta(head, name) == if MetaContents(head, name) == [] then None else MetaContents(head, name)[0]
  {
    if |head| > 0 && head[0].name != name {
      FirstMetaIsFirstContent(head[1..], name);
      assert FirstMetaIndex(head, name) == match FirstMetaIndex(head[1..], name)
        case Some(i) => Some(i + 1)
        case None => None;
    }
  }

  /** The declarative reading of the metadata block: optional title, subtitle and date, and a list of authors that is always set. */
  function ExtractMetadata(head: seq<MetaTag>): DocumentMetadata {
    DocumentMetadata(
      FirstMeta(head, "title"),
      FirstMeta(head, "subtitle"),
      Some(MetaContents(head, "author")),
      FirstMeta(head, "date"))
  }

  /** A head with a title, two authors and nothing else gives exactly that title and those authors. */
  lemma ExtractMetadataExample(x: string, a: string, b: string)
    ensures ExtractMetadata([MetaTag("title", Some(x)), MetaTag("author", Some(a)), MetaTag("author", Some(b))])
            == DocumentMetadata(Some(x), None, Some([Some(a), Some(b)]), None)
  {
    var head := [MetaTag("title", Some(x)), MetaTag("author", Some(a)), MetaTag("author", Some(b))];
    assert head[1..][1..][1..] == [];
    assert MetaContents(head[1..][1..], "author") == [Some(b)];
    assert MetaContents(head[1..], "author") == [Some(a), Some(b)];
  }

  // ---------------------------------------------------------------------
  // The dedup check and the consistency of the repository

  /** `files.find((file) => file.mimeType === mimeType)`, as an index. */
  function FirstWithMime(files: seq<DocumentFile>, mimeType: MimeType): (r: Option<nat>)
    ensures r.Some? ==> r.value < |files| && files[r.value].mimeType == mimeType
    ensures r.Some? ==> forall j :: 0 <= j < r.value ==> files[j].mimeType != mimeType
    ensures r.None? <==> forall j :: 0 <= j < |files| ==> files[j].mimeType != mimeType
  {
    if |files| == 0 then None
    else if files[0].mimeType == mimeType then Some(0)
    else match FirstWithMime(files[1..], mimeType)
      case Some(i) => Some(i + 1)
      case None => None
  }

  /**
   * The upload's dedup check and the entity's `previewFileUrl` stop at the
   * same file, so the check passes exactly when `previewFileUrl` is defined.
   */
  lemma {:induction false} DedupCheckFindsPreview(files: seq<DocumentFile>, docType: DocumentType)
    ensures FirstWithMime(files, PreviewMimeType(docType)) == FirstPreview(files, docType)
    ensures FirstWithMime(files, PreviewMimeType(docType)).Some?
            <==> Document("", docType, EmptyMetadata, files, "").PreviewFileUrl().Some?
  {
    if |files| > 0 {
      DedupCheckFindsPreview(files[1..], docType);
    }
  }

  /** Every record is stored under its own id and has a resolvable preview. */
  ghost predicate Consistent(documents: map<string, Document>) {
    forall id :: id in documents ==> documents[id].id == id && documents[id].PreviewFileUrl().Some?
  }

  /** The context `{ documentId, mimeType }` of a PREVIEW_NOT_FOUND. */
  function PreviewContext(documentId: string, mimeType: MimeType): ErrorOptions {
    map["documentId" := Some(documentId), "mimeType" := Some(mimeType.Value())]
  }

  /** With a consistent repository the dedup check never reports PREVIEW_NOT_FOUND. */
  lemma ConsistentDedupPasses(documents: map<string, Document>, id: string)
    requires Consistent(documents) && id in documents
    ensures FirstWithMime(documents[id].files, PreviewMimeType(documents[id].docType)).Some?
  {
    var d := documents[id];
    DedupCheckFindsPreview(d.files, d.docType);
    assert d.PreviewFileUrl() == Document("", d.docType, EmptyMetadata, d.files, "").PreviewFileUrl();
  }

  /** Adding a record stored under its own id with a resolvable preview keeps the repository consistent. */
  lemma ConsistentInsert(documents: map<string, Document>, id: string, d: Document)
    requires d.id == id && d.PreviewFileUrl().Some?
    ensures Consistent(documents) ==> Consistent(documents[id := d])
  {
  }

  // ---------------------------------------------------------------------
  // The service

  class FileService {
    const bucket: string
    const region: string
    const templatePath: string
    /** MD5 hex digest of the bytes. */
    const md5: Buffer -> string
    /** `slugify(_, { lower, strict, trim, replacement: "-" })`. */
    const slugify: string -> string
    /** The pandoc run (temp files, shell, read back); None when it fails. */
    const pandoc: Pandoc.PandocConvertInput -> Option<Buffer>
    /** JSDOM parsing of the converter output. */
    const jsdom: Buffer -> HtmlDocument
    /** Whether the object store accepts a write. */
    const storeAccepts: PutObjectRequest -> bool

    /** The document repository. */
    var documents: map<string, Document>
    /** The object store. */
    var objects: map<string, StoredObject>
    /** Every accepted store write, in order. */
    var writes: seq<PutObjectRequest>

    constructor(bucket: string, region: string, templatePath: string,
                md5: Buffer -> string, slugify: string -> string,
                pandoc: Pandoc.PandocConvertInput -> Option<Buffer>, jsdom: Buffer -> HtmlDocument,
                storeAccepts: PutObjectRequest -> bool,
                documents: map<string, Document>, objects: map<string, StoredObject>)
      ensures this.bucket == bucket && this.region == region && this.templatePath == templatePath
      ensures this.md5 == md5 && this.slugify == slugify && this.pandoc == pandoc && this.jsdom == jsdom
      ensures this.storeAccepts == storeAccepts
      ensures this.documents == documents && this.objects == objects && this.writes == []
    {
      this.bucket, this.region, this.templatePath := bucket, region, templatePath;
      this.md5, this.slugify, this.pandoc, this.jsdom := md5, slugify, pandoc, jsdom;
      this.storeAccepts := storeAccepts;
      this.documents, this.objects, this.writes := documents, objects, [];
    }

    /** `sanitizeName`: the slug of the name's stem; the extension plays no part. */
    function SanitizeName(fileName: string): string {
      slugify(Stem(fileName))
    }

    /** The id `upload` derives for a file. */
    function DocumentIdOf(file: UploadedFile): string {
      DocumentId(SanitizeName(file.originalname), md5(file.buffer))
    }

    /** The same stem and the same bytes give the same id, whatever the extensions. */
    lemma SameStemSameBytesSameId(file1: UploadedFile, file2: UploadedFile)
      requires Stem(file1.originalname) == Stem(file2.originalname) && file1.buffer == file2.buffer
      ensures DocumentIdOf(file1) == DocumentIdOf(file2)
      ensures DocumentIdOf(file1) == slugify(Stem(file1.originalname)) + "-" + md5(file1.buffer)
    {
    }

    /** The url of `key` in this service's bucket. */
    function Url(key: string): string {
      ObjectUrl(bucket, region, key)
    }

    /** The put of `body` under `key`, with the content type made from `mimeType`. */
    function Request(key: string, body: Buffer, mimeType: Option<string>): PutObjectRequest {
      PutObjectRequest(bucket, key, body, ContentType(mimeType))
    }

    /** The converter input for a book: its own reader options, HTML out, and the configured template. */
    function ConversionInput(buffer: Buffer, m: BookMimeType): Pandoc.PandocConvertInput {
      var options := PandocOptionsFromMimeType(m);
      Pandoc.PandocConvertInput(buffer, options.from, options.fromOptions, Pandoc.Html, None, Some(templatePath))
    }

    /** What `convertToHtml` yields: the body of the converted document and the metadata of its head. */
    function Conversion(buffer: Buffer, m: BookMimeType): Option<Converted> {
      match pandoc(ConversionInput(buffer, m))
      case None => None
      case Some(html) =>
        var document := jsdom(html);
        Some(Converted(document.body, ExtractMetadata(document.head)))
    }

    /** The EBOOK record: the original and the HTML preview, the original's url as `originalFileUrl`. */
    function EbookRecord(id: string, m: BookMimeType, metadata: DocumentMetadata): Document {
      var originalUrl := Url(id + ExtensionFromMimeType(m));
      Document(id, Ebook, metadata,
               [DocumentFile(m, originalUrl), DocumentFile(Html, Url(id + ".html"))],
               originalUrl)
    }

    /** The PDF record: one file, both original and preview, and no metadata. */
    function PdfRecord(id: string): Document {
      var fileUrl := Url(id + ".pdf");
      Document(id, PdfDocument, EmptyMetadata, [DocumentFile(Pdf, fileUrl)], fileUrl)
    }

    /** An EBOOK record previews its HTML file, whose url is that of the key `id + ".html"`, and it is a different object from the original. */
    lemma EbookRecordPreview(id: string, m: BookMimeType, metadata: DocumentMetadata)
      ensures EbookRecord(id, m, metadata).PreviewFileUrl() == Some(ObjectUrl(bucket, region, id + ".html"))
      ensures EbookRecord(id, m, metadata).originalFileUrl != ObjectUrl(bucket, region, id + ".html")
    {
      var d := EbookRecord(id, m, metadata);
      assert !IsPreviewFile(Ebook, d.files[0]);
      assert FirstPreview(d.files, Ebook) == Some(1);
      var original, preview := id + ExtensionFromMimeType(m), id + ".html";
      assert original[|id|..] == ExtensionFromMimeType(m) != ".html" == preview[|id|..];
      assert KeyOfUrl(bucket, region, Url(original)) != KeyOfUrl(bucket, region, Url(preview));
    }

    /** The two file urls of an EBOOK record are those of the keys the book branch writes, original first. */
    lemma EbookRecordKeys(id: string, m: BookMimeType, metadata: DocumentMetadata)
      ensures var d := EbookRecord(id, m, metadata);
              && |d.files| == 2 && d.docType == Ebook && d.id == id && d.metadata == metadata
              && d.files[0].mimeType == m && d.files[1].mimeType == Html
              && KeyOfUrl(bucket, region, d.files[0].url) == Some(id + ExtensionFromMimeType(m))
              && KeyOfUrl(bucket, region, d.files[1].url) == Some(id + ".html")
              && d.originalFileUrl == d.files[0].url
    {
    }

    /** A PDF record previews its only file: `previewFileUrl == originalFileUrl`. */
    lemma PdfRecordPreview(id: string)
      ensures PdfRecord(id).PreviewFileUrl() == Some(PdfRecord(id).originalFileUrl)
      ensures PdfRecord(id).originalFileUrl == ObjectUrl(bucket, region, id + ".pdf")
    {
      assert FirstPreview(PdfRecord(id).files, PdfDocument) == Some(0);
    }

    /** `findById`: the stored document, or DOCUMENT_NOT_FOUND carrying `{ documentId }`. */
    method FindById(documentId: string) returns (r: Result<Document, ServiceException>)
      ensures documentId in documents ==> r == Success(documents[documentId])
      ensures documentId !in documents ==>
                r == Failure(NewServiceException(DocumentNotFound, map["documentId" := Some(documentId)]))
      ensures r.Failure? ==> r.error.status == NotFound && r.error.status.Code() == 404
    {
      var found := documentId in documents;
      var check := Assert(found, DocumentNotFound, map["documentId" := Some(documentId)]);
      if check.Fail? {
        return Failure(check.error);
      }
      return Success(documents[documentId]);
    }

    /** `putObject`: on an accepted write the object is stored under `key` and the write logged; otherwise nothing changes. */
    method PutObject(key: string, body: Buffer, mimeType: Option<string>) returns (ok: bool)
      modifies this`objects, this`writes
      ensures ok == storeAccepts(Request(key, body, mimeType))
      ensures ok ==> objects == Store(old(objects), Request(key, body, mimeType))
                     && writes == old(writes) + [Request(key, body, mimeType)]
      ensures !ok ==> objects == old(objects) && writes == old(writes)
    {
      var request := PutObjectRequest(bucket, key, body, ContentType(mimeType));
      ok := storeAccepts(request);
      if ok {
        objects := objects[key := StoredObject(body, request.contentType)];
        writes := writes + [request];
      }
    }

    /**
     * `convertToHtml`: runs the converter with the book's options and the
     * template, then keeps the body and assembles the metadata field by
     * field (title, subtitle, date only when present; authors always).
     */
    method ConvertToHtml(buffer: Buffer, m: BookMimeType) returns (r: Result<Converted, UploadError>)
      ensures r.Success? <==> Conversion(buffer, m).Some?
      ensures r.Success? ==> r.value == Conversion(buffer, m).value
      ensures r.Failure? ==> r.error == ConversionFailed
      ensures r.Success? ==>
                var head := jsdom(pandoc(ConversionInput(buffer, m)).value).head;
                && r.value.metadata.title == FirstMeta(head, "title")
                && r.value.metadata.subtitle == FirstMeta(head, "subtitle")
                && r.value.metadata.authors == Some(MetaContents(head, "author"))
                && r.value.metadata.date == FirstMeta(head, "date")
    {
      var options := PandocOptionsFromMimeType(m);
      var converted := pandoc(Pandoc.PandocConvertInput(buffer, options.from, options.fromOptions,
                                                        Pandoc.Html, None, Some(templatePath)));
      if converted.None? {
        return Failure(ConversionFailed);
      }
      var document := jsdom(converted.value);
      var title := FirstMeta(document.head, "title");
      var subtitle := FirstMeta(document.head, "subtitle");
      var authors := MetaContents(document.head, "author");
      var date := FirstMeta(document.head, "date");

      var metadata := EmptyMetadata;
      if title.Some? { metadata := metadata.(title := title); }
      if subtitle.Some? { metadata := metadata.(subtitle := subtitle); }
      metadata := metadata.(authors := Some(authors));
      if date.Some? { metadata := metadata.(date := date); }

      return Success(Converted(document.body, metadata));
    }

    /**
     * The effect of the EPUB/MARKDOWN/FB2 case on the repository, the store,
     * the write log and the result: nothing happens when the conversion
     * fails; otherwise the original and then the preview are written, each
     * failure stopping there, and the record is added only when both writes
     * were accepted.
     */
    ghost predicate BookUploadEffect(file: UploadedFile, id: string, m: BookMimeType,
                                     documents0: map<string, Document>, objects0: map<string, StoredObject>,
                                     writes0: seq<PutObjectRequest>,
                                     documents1: map<string, Document>, objects1: map<string, StoredObject>,
                                     writes1: seq<PutObjectRequest>, r: Result<Document, UploadError>)
    {
      match Conversion(file.buffer, m)
      case None =>
        && documents1 == documents0 && objects1 == objects0 && writes1 == writes0
        && r == Failure(ConversionFailed)
      case Some(c) =>
        var original := Request(id + ExtensionFromMimeType(m), file.buffer, file.mimetype);
        var preview := Request(id + ".html", c.buffer, Some(Html.Value()));
        if !storeAccepts(original) then
          && documents1 == documents0 && objects1 == objects0 && writes1 == writes0
          && r == Failure(StorageFailed(original.key))
        else if !storeAccepts(preview) then
          && writes1 == writes0 + [original] && objects1 == Store(objects0, original)
          && documents1 == documents0
          && r == Failure(StorageFailed(preview.key))
        else
          && writes1 == writes0 + [original, preview]
          && objects1 == Store(Store(objects0, original), preview)
          && documents1 == documents0[id := EbookRecord(id, m, c.metadata)]
          && r == Success(EbookRecord(id, m, c.metadata))
    }

    /** The effect of the PDF case: one write at `id.pdf` with the declared content type, then the record. */
    ghost predicate PdfUploadEffect(file: UploadedFile, id: string,
                                    documents0: map<string, Document>, objects0: map<string, StoredObject>,
                                    writes0: seq<PutObjectRequest>,
                                    documents1: map<string, Document>, objects1: map<string, StoredObject>,
                                    writes1: seq<PutObjectRequest>, r: Result<Document, UploadError>)
    {
      var put := Request(id + ".pdf", file.buffer, file.mimetype);
      if storeAccepts(put) then
        && writes1 == writes0 + [put] && objects1 == Store(objects0, put)
        && documents1 == documents0[id := PdfRecord(id)]
        && r == Success(PdfRecord(id))
      else
        && documents1 == documents0 && objects1 == objects0 && writes1 == writes0
        && r == Failure(StorageFailed(put.key))
    }

    /**
     * `upload`.  A known id is answered from the repository (or rejected
     * with PREVIEW_NOT_FOUND) with no write.  Otherwise the mime type is
     * resolved and dispatched: a book is converted first, then its original
     * and its HTML preview are stored; a PDF is stored once; anything else is
     * MIMETYPE_NOT_SUPPORTED.  The record is persisted only after every
     * write was accepted, and a failure stops at the step that failed.
     */
    method Upload(file: UploadedFile) returns (r: Result<Document, UploadError>)
      modifies this`documents, this`objects, this`writes
      // A known id: no write, no persist.
      ensures DocumentIdOf(file) in old(documents) ==>
                var id := DocumentIdOf(file);
                var existing := old(documents)[id];
                && documents == old(documents) && objects == old(objects) && writes == old(writes)
                && (r.Success? <==> existing.PreviewFileUrl().Some?)
                && (r.Success? ==> r.value == existing)
                && (r.Failure? ==> r.error == Service(NewServiceException(PreviewNotFound,
                                                       PreviewContext(id, PreviewMimeType(existing.docType)))))
      // An unsupported type: no write, no persist.
      ensures DocumentIdOf(file) !in old(documents)
              && SupportedMimeType(ResolveMimeType(file.mimetype, file.originalname)).None? ==>
                && documents == old(documents) && objects == old(objects) && writes == old(writes)
                && r == Failure(Service(NewServiceException(MimetypeNotSupported,
                         map["mimeType" := ResolveMimeType(file.mimetype, file.originalname)])))
      // PDF.
      ensures DocumentIdOf(file) !in old(documents)
              && SupportedMimeType(ResolveMimeType(file.mimetype, file.originalname)) == Some(Pdf) ==>
                PdfUploadEffect(file, DocumentIdOf(file), old(documents), old(objects), old(writes),
                                documents, objects, writes, r)
      // A book.
      ensures DocumentIdOf(file) !in old(documents)
              && SupportedMimeType(ResolveMimeType(file.mimetype, file.originalname)).Some?
              && SupportedMimeType(ResolveMimeType(file.mimetype, file.originalname)).value.IsBook() ==>
                BookUploadEffect(file, DocumentIdOf(file),
                                 SupportedMimeType(ResolveMimeType(file.mimetype, file.originalname)).value,
                                 old(documents), old(objects), old(writes), documents, objects, writes, r)
      // The repository changes only by a new record whose preview resolves, after at least one write.
      ensures documents != old(documents) ==>
                && DocumentIdOf(file) !in old(documents) && r.Success?
                && documents == old(documents)[DocumentIdOf(file) := r.value]
                && r.value.id == DocumentIdOf(file)
                && r.value.PreviewFileUrl().Some?
                && |writes| > |old(writes)|
      ensures Consistent(old(documents)) ==> Consistent(documents)
    {
      var checksum := md5(file.buffer);
      var documentId := DocumentId(SanitizeName(file.originalname), checksum);

      if documentId in documents {
        var existingDocument := documents[documentId];
        var previewMimeType := PreviewMimeType(existingDocument.docType);
        var previewFile := FirstWithMime(existingDocument.files, previewMimeType);
        DedupCheckFindsPreview(existingDocument.files, existingDocument.docType);
        var check := Assert(previewFile.Some?, PreviewNotFound, PreviewContext(documentId, previewMimeType));
        if check.Fail? {
          return Failure(Service(check.error));
        }
        return Success(existingDocument);
      }

      var mimeType := ResolveUploadMimeType(file);

      var supported := SupportedMimeType(mimeType);
      if supported.Some? && supported.value.IsBook() {
        r := UploadBook(file, documentId, supported.value);
      } else if supported == Some(Pdf) {
        r := UploadPdf(file, documentId);
      } else {
        r := Failure(Service(NewServiceException(MimetypeNotSupported, map["mimeType" := mimeType])));
      }
      if r.Success? {
        ConsistentInsert(old(documents), documentId, r.value);
      }
    }

    /**
     * The fallback block of `upload`: the `let mimeType` starts as declared
     * and is overwritten by the type a recognised extension names, when the
     * extension is looked at.
     */
    method ResolveUploadMimeType(file: UploadedFile) returns (mimeType: Option<string>)
      ensures mimeType == ResolveMimeType(file.mimetype, file.originalname)
    {
      mimeType := file.mimetype;
      if InspectsExtension(mimeType) {
        var ext := Extname(file.originalname);
        if ext == ".md" || ext == ".markdown" {
          mimeType := Some(Markdown.Value());
        } else if ext == ".epub" {
          mimeType := Some(Epub.Value());
        } else if ext == ".fb2" {
          mimeType := Some(Fb2.Value());
        } else if ext == ".pdf" {
          mimeType := Some(Pdf.Value());
        }
      }
    }

    /** The EPUB/MARKDOWN/FB2 case of the upload's switch. */
    method UploadBook(file: UploadedFile, documentId: string, m: BookMimeType) returns (r: Result<Document, UploadError>)
      modifies this`documents, this`objects, this`writes
      ensures BookUploadEffect(file, documentId, m, old(documents), old(objects), old(writes),
                               documents, objects, writes, r)
      ensures r.Success? ==> && documents == old(documents)[documentId := r.value]
                             && r.value.id == documentId && r.value.PreviewFileUrl().Some?
                             && |writes| == |old(writes)| + 2
      ensures r.Failure? ==> documents == old(documents)
    {
      var ext := ExtensionFromMimeType(m);
      var originalName := documentId + ext;
      var previewName := documentId + ".html";

      var converted := ConvertToHtml(file.buffer, m);
      if converted.Failure? {
        return Failure(converted.error);
      }

      ghost var c := Conversion(file.buffer, m).value;
      assert converted.value == c;
      ghost var original := Request(originalName, file.buffer, file.mimetype);
      ghost var preview := Request(previewName, c.buffer, Some(Html.Value()));

      var ok := PutObject(originalName, file.buffer, file.mimetype);
      if !ok {
        return Failure(StorageFailed(originalName));
      }
      ok := PutObject(previewName, converted.value.buffer, Some(Html.Value()));
      if !ok {
        return Failure(StorageFailed(previewName));
      }
      assert writes == old(writes) + [original, preview];

      var document := EbookRecord(documentId, m, converted.value.metadata);
      EbookRecordPreview(documentId, m, converted.value.metadata);
      documents := documents[documentId := document];
      return Success(document);
    }

    /** The PDF case of the upload's switch. */
    method UploadPdf(file: UploadedFile, documentId: string) returns (r: Result<Document, UploadError>)
      modifies this`documents, this`objects, this`writes
      ensures PdfUploadEffect(file, documentId, old(documents), old(objects), old(writes),
                              documents, objects, writes, r)
      ensures r.Success? ==> && documents == old(documents)[documentId := r.value]
                             && r.value.id == documentId && r.value.PreviewFileUrl().Some?
                             && |writes| == |old(writes)| + 1
      ensures r.Failure? ==> documents == old(documents)
    {
      var fileName := documentId + ".pdf";

      var ok := PutObject(fileName, file.buffer, file.mimetype);
      if !ok {
        return Failure(StorageFailed(fileName));
      }

      var document := PdfRecord(documentId);
      PdfRecordPreview(documentId);
      documents := documents[documentId := document];
      return Success(document);
    }

    /**
     * Uploading the same file twice: once the first upload succeeded, the
     * second returns the same document and writes nothing.
     */
    method UploadTwice(file: UploadedFile) returns (first: Result<Document, UploadError>,
                                                     second: Result<Document, UploadError>,
                                                     secondWrites: nat)
      modifies this`documents, this`objects, this`writes
      ensures first.Success? ==> second == first && secondWrites == 0
    {
      first := Upload(file);
      var before := |writes|;
      second := Upload(file);
      secondWrites := |writes| - before;
    }
  }
}
