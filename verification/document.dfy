/**
 * The persisted document record, its file list and metadata, the mime-type
 * enum, and the derived `previewFileUrl` getter.
 */
module Documents {
  import opened Wrappers

  /** The mime types the service knows, with their string values. */
  datatype MimeType = Epub | Fb2 | Markdown | Pdf | Html {
    function Value(): string {
      match this
      case Epub => "application/epub+zip"
      case Fb2 => "text/fb2+xml"
      case Markdown => "text/markdown"
      case Pdf => "application/pdf"
      case Html => "text/html"
    }

    /** Membership in `BookMimeType`: the formats that are converted to HTML. */
    predicate IsBook() {
      Epub? || Fb2? || Markdown?
    }
  }

  /** `BookMimeType = EPUB | FB2 | MARKDOWN`. */
  type BookMimeType = m: MimeType | m.IsBook() witness Epub

  /**
   * Compares a mime-type string with each enum value, as a `switch` over
   * `MimeType` does: it names the one value equal to `s`, or none.
   */
  function ParseMimeType(s: string): (r: Option<MimeType>)
    ensures r.Some? ==> r.value.Value() == s
    ensures r.None? ==> forall m: MimeType :: m.Value() != s
  {
    if s == Epub.Value() then Some(Epub)
    else if s == Fb2.Value() then Some(Fb2)
    else if s == Markdown.Value() then Some(Markdown)
    else if s == Pdf.Value() then Some(Pdf)
    else if s == Html.Value() then Some(Html)
    else None
  }

  lemma MimeTypeRoundTrip(m: MimeType)
    ensures ParseMimeType(m.Value()) == Some(m)
  {
    match m
    case Epub =>
    case Fb2 =>
    case Markdown =>
    case Pdf =>
    case Html =>
  }

  /** The document kinds the database accepts: 'ebook' and 'pdf'. */
  datatype DocumentType = Ebook | PdfDocument

  /** One stored artifact of a document. */
  datatype DocumentFile = DocumentFile(mimeType: MimeType, url: string)

  /**
   * Bibliographic fields; every field is optional.  An author entry is
   * None where the meta tag had no `content` attribute.
   */
  datatype DocumentMetadata = DocumentMetadata(
    title: Option<string>,
    subtitle: Option<string>,
    authors: Option<seq<Option<string>>>,
    date: Option<string>)

  /** `{}`. */
  const EmptyMetadata: DocumentMetadata := DocumentMetadata(None, None, None, None)

  /** The predicate `previewFileUrl` hands to `find`: HTML files for an ebook, PDF files for a PDF. */
  predicate IsPreviewFile(docType: DocumentType, f: DocumentFile) {
    match docType
    case Ebook => f.mimeType == Html
    case PdfDocument => f.mimeType == Pdf
  }

  /** The index `files.find(IsPreviewFile)` stops at: the first preview file. */
  function FirstPreview(files: seq<DocumentFile>, docType: DocumentType): (r: Option<nat>)
    ensures r.Some? ==> r.value < |files| && IsPreviewFile(docType, files[r.value])
    ensures r.Some? ==> forall j :: 0 <= j < r.value ==> !IsPreviewFile(docType, files[j])
    ensures r.None? <==> forall j :: 0 <= j < |files| ==> !IsPreviewFile(docType, files[j])
  {
    if |files| == 0 then None
    else if IsPreviewFile(docType, files[0]) then Some(0)
    else match FirstPreview(files[1..], docType)
      case Some(i) => Some(i + 1)
      case None => None
  }

  /** The persisted record; `files` defaults to the empty list. */
  datatype Document = Document(
    id: string,
    docType: DocumentType,
    metadata: DocumentMetadata,
    files: seq<DocumentFile>,
    originalFileUrl: string)
  {
    /**
     * The getter `previewFileUrl`: the url of the first preview file, and
     * undefined exactly when no file is a preview file.
     */
    function PreviewFileUrl(): (r: Option<string>)
      ensures r.None? <==> forall i :: 0 <= i < |files| ==> !IsPreviewFile(docType, files[i])
      ensures r.Some? ==> exists i :: 0 <= i < |files| && IsPreviewFile(docType, files[i]) && files[i].url == r.value
                                      && forall j :: 0 <= j < i ==> !IsPreviewFile(docType, files[j])
    {
      match FirstPreview(files, docType)
      case Some(i) => Some(files[i].url)
      case None => None
    }
  }

  /** A document as `new DocumentEntity()` leaves its list: no files, hence no preview. */
  lemma NoFilesNoPreview(d: Document)
    requires d.files == []
    ensures d.PreviewFileUrl() == None
  {
  }

  /** Searching a concatenation: the first hit in the front part, else the first in the back part, shifted. */
  lemma {:induction false} FirstPreviewConcat(a: seq<DocumentFile>, b: seq<DocumentFile>, docType: DocumentType)
    ensures FirstPreview(a + b, docType) ==
              match FirstPreview(a, docType)
              case Some(i) => Some(i)
              case None =>
                match FirstPreview(b, docType)
                case Some(j) => Some(|a| + j)
                case None => None
  {
    if a == [] {
      assert a + b == b;
    } else {
      assert (a + b)[0] == a[0];
      assert (a + b)[1..] == a[1..] + b;
      FirstPreviewConcat(a[1..], b, docType);
    }
  }

  /**
   * Files that are not preview files never change `previewFileUrl`, whether
   * they come before or after the existing ones.
   */
  lemma PreviewIgnoresOtherFiles(d: Document, before: seq<DocumentFile>, after: seq<DocumentFile>)
    requires forall i :: 0 <= i < |before| ==> !IsPreviewFile(d.docType, before[i])
    requires forall i :: 0 <= i < |after| ==> !IsPreviewFile(d.docType, after[i])
    ensures d.(files := before + d.files + after).PreviewFileUrl() == d.PreviewFileUrl()
  {
    var t := d.docType;
    var all := before + d.files + after;
    FirstPreviewConcat(before + d.files, after, t);
    FirstPreviewConcat(before, d.files, t);
    match FirstPreview(d.files, t)
    case Some(i) =>
      assert all[|before| + i] == d.files[i];
    case None =>
  }
}
