/** The upload rules shared by the three upload endpoints (annexures,
    question addenda and paper addenda): the multer file filter and size
    limit, the `pdf` / `document` / `image` classification of a MIME type,
    the thumbnail rule, and the guarded upload of an addendum. */
module Uploads {
  import opened Common
  import opened Strings

  /** The MIME types the file filter lets through. */
  const AllowedTypes: seq<string> := [PdfType, JpegType, PngType, GifType, WordType, WordXmlType]

  const PdfType: string := "application/pdf"
  const JpegType: string := "image/jpeg"
  const PngType: string := "image/png"
  const GifType: string := "image/gif"
  const WordType: string := "application/msword"
  /** The Office Open XML word-processing type, written in three parts to
      keep the proofs about its characters small. */
  const WordXmlType: string := WordXml1 + WordXml2 + WordXml3
  const WordXml1: string := "application/vnd.openxml"
  const WordXml2: string := "formats-officedocument."
  const WordXml3: string := "wordprocessingml.document"

  /** multer's `fileSize` limit, 10 MB. */
  const MaxFileSize: nat := 10 * 1024 * 1024

  const FilterMessage: string := "Only PDF, images, and Word documents are allowed"

  /** A file as the client sent it; `filename` is the unique name the disk
      storage gives it (a fresh uuid plus the original extension). */
  datatype IncomingFile = IncomingFile(mimetype: string, size: nat, filename: string)

  /** What the multer middleware hands to the handler. */
  datatype Received =
    | FilterRejected           // 400 with the filter's message
    | TooLarge                 // 400 'Multer error: File too large'
    | NoFile                   // `req.file` undefined
    | Accepted(file: IncomingFile)

  /** The multer stage: the file filter runs first, then the size limit. */
  function Receive(file: Option<IncomingFile>): (r: Received)
    ensures r.Accepted? <==> file.Some? && file.value.mimetype in AllowedTypes && file.value.size <= MaxFileSize
    ensures r.Accepted? ==> r.file == file.value
    ensures r == FilterRejected <==> file.Some? && file.value.mimetype !in AllowedTypes
    ensures r == NoFile <==> file.None?
  {
    if file.None? then NoFile
    else if file.value.mimetype !in AllowedTypes then FilterRejected
    else if file.value.size > MaxFileSize then TooLarge
    else Accepted(file.value)
  }

  datatype FileKind = Pdf | Document | Image

  /** The `file_type` column value. */
  function KindName(k: FileKind): string {
    match k
    case Pdf => "pdf"
    case Document => "document"
    case Image => "image"
  }

  /** `mimetype.split('/')[0]` */
  function MajorType(mimetype: string): string {
    Split(mimetype, '/')[0]
  }

  /** The three-way classifier: an "application/..." type is a pdf when the type
      mentions "pdf" anywhere and a document otherwise; every other major
      type is an image. */
  function FileType(mimetype: string): FileKind {
    if MajorType(mimetype) == "application" then
      if Includes(mimetype, "pdf") then Pdf else Document
    else Image
  }

  /** The major type is "application" exactly for "application" itself and
      for every type of the form "application/...". */
  predicate IsApplication(mimetype: string) {
    mimetype == "application" || StartsWith(mimetype, "application/")
  }

  /** `fileType` stated without the split: pdf iff application and "pdf"
      occurs, document iff application without "pdf", image otherwise. */
  lemma FileTypeCharacterised(mimetype: string)
    ensures FileType(mimetype) == Pdf <==> IsApplication(mimetype) && Includes(mimetype, "pdf")
    ensures FileType(mimetype) == Document <==> IsApplication(mimetype) && !Includes(mimetype, "pdf")
    ensures FileType(mimetype) == Image <==> !IsApplication(mimetype)
  {
    MajorIsApplication(mimetype);
  }

  lemma MajorIsApplication(mimetype: string)
    ensures MajorType(mimetype) == "application" <==> IsApplication(mimetype)
  {
    SlashFreeMajor("application", "application/");
    MajorIs(mimetype, "application", "application/");
  }

  lemma SlashFreeMajor(p: string, q: string)
    requires p == "application" && q == "application/"
    ensures '/' !in p && q == p + ['/']
  {
  }

  lemma MajorIs(mimetype: string, p: string, q: string)
    requires '/' !in p && q == p + ['/']
    ensures MajorType(mimetype) == p <==> mimetype == p || StartsWith(mimetype, q)
  {
    SplitHeadIs(mimetype, '/', p);
  }

  /** `thumbnail_url`: the public URL for images, null otherwise. */
  function Thumbnail(kind: FileKind, publicUrl: string): Option<string> {
    if kind == Image then Some(publicUrl) else None
  }

  lemma PdfTypeIsPdf(mimetype: string)
    requires mimetype == PdfType
    ensures FileType(mimetype) == Pdf
  {
    PdfTypeSplit(mimetype);
    PdfShape(mimetype, "application/", "pdf");
    ApplicationPdfIsPdf(mimetype);
  }

  lemma PdfTypeSplit(mimetype: string)
    requires mimetype == PdfType
    ensures mimetype == "application/" + "pdf"
  {
  }

  /** Any application type that mentions "pdf" counts as a PDF. */
  lemma ApplicationPdfIsPdf(mimetype: string)
    requires StartsWith(mimetype, "application/") && Includes(mimetype, "pdf")
    ensures FileType(mimetype) == Pdf
  {
    FileTypeCharacterised(mimetype);
  }

  lemma PdfShape(mimetype: string, a: string, p: string)
    requires mimetype == a + p && p != []
    ensures StartsWith(mimetype, a) && Includes(mimetype, p)
  {
    assert StartsWith(p, p);
    IncludesSuffix(a, p, p);
    assert mimetype[..|a|] == a;
  }

  lemma ImageTypesAreImages(mimetype: string)
    requires mimetype == JpegType || mimetype == PngType || mimetype == GifType
    ensures FileType(mimetype) == Image
  {
    FileTypeCharacterised(mimetype);
    assert mimetype[0] == 'i';
  }

  lemma WordTypesAreDocuments(mimetype: string)
    requires mimetype == WordType || mimetype == WordXmlType
    ensures FileType(mimetype) == Document
  {
    FileTypeCharacterised(mimetype);
    assert mimetype[..12] == "application/";
    NoPdfInWordTypes();
  }

  /** Neither Word type mentions "pdf": no 'p' in them is followed by 'd'. */
  lemma NoPdfInWordTypes()
    ensures !Includes(WordType, "pdf") && !Includes(WordXmlType, "pdf")
  {
    NoPdInWordParts();
    NoPairNotIncludes(WordType, "pdf");
    NoPairConcat(WordXml1, WordXml2, 'p', 'd');
    NoPairConcat(WordXml1 + WordXml2, WordXml3, 'p', 'd');
    NoPairNotIncludes(WordXmlType, "pdf");
  }

  lemma NoPdInWordParts()
    ensures NoPair(WordType, 'p', 'd')
    ensures NoPair(WordXml1, 'p', 'd') && NoPair(WordXml2, 'p', 'd') && NoPair(WordXml3, 'p', 'd')
  {
  }

  /** On an accepted file the thumbnail is set exactly for the picture
      types: "image/..." types get one, the PDF and Word types do not. */
  lemma ThumbnailForAcceptedTypes(mimetype: string, publicUrl: string)
    requires mimetype in AllowedTypes
    ensures Thumbnail(FileType(mimetype), publicUrl) == (if StartsWith(mimetype, "image/") then Some(publicUrl) else None)
  {
    if mimetype == PdfType || mimetype == WordType || mimetype == WordXmlType {
      NoThumbnailForApplications(mimetype, publicUrl);
    } else {
      ThumbnailForImages(mimetype, publicUrl);
    }
  }

  lemma NoThumbnailForApplications(mimetype: string, publicUrl: string)
    requires mimetype == PdfType || mimetype == WordType || mimetype == WordXmlType
    ensures !StartsWith(mimetype, "image/") && Thumbnail(FileType(mimetype), publicUrl) == None
  {
    if mimetype == PdfType {
      NoThumbnailForPdf(mimetype, publicUrl);
    } else {
      NoThumbnailForWord(mimetype, publicUrl);
    }
  }

  lemma NoThumbnailForPdf(mimetype: string, publicUrl: string)
    requires mimetype == PdfType
    ensures !StartsWith(mimetype, "image/") && Thumbnail(FileType(mimetype), publicUrl) == None
  {
    PdfTypeIsPdf(mimetype);
    PdfStartsWithA(mimetype);
    NotImagePrefixed(mimetype);
    NoThumbnailUnlessImage(FileType(mimetype), publicUrl);
  }

  lemma PdfStartsWithA(mimetype: string)
    requires mimetype == PdfType
    ensures |mimetype| > 0 && mimetype[0] == 'a'
  {
  }

  lemma WordStartsWithA(mimetype: string)
    requires mimetype == WordType || mimetype == WordXmlType
    ensures |mimetype| > 0 && mimetype[0] == 'a'
  {
  }

  lemma NotImagePrefixed(mimetype: string)
    requires |mimetype| > 0 && mimetype[0] == 'a'
    ensures !StartsWith(mimetype, "image/")
  {
  }

  lemma NoThumbnailUnlessImage(kind: FileKind, publicUrl: string)
    requires kind != Image
    ensures Thumbnail(kind, publicUrl) == None
  {
  }

  lemma NoThumbnailForWord(mimetype: string, publicUrl: string)
    requires mimetype == WordType || mimetype == WordXmlType
    ensures !StartsWith(mimetype, "image/") && Thumbnail(FileType(mimetype), publicUrl) == None
  {
    WordTypesAreDocuments(mimetype);
    WordStartsWithA(mimetype);
    NotImagePrefixed(mimetype);
    NoThumbnailUnlessImage(FileType(mimetype), publicUrl);
  }

  lemma ThumbnailForImages(mimetype: string, publicUrl: string)
    requires mimetype == JpegType || mimetype == PngType || mimetype == GifType
    ensures StartsWith(mimetype, "image/") && Thumbnail(FileType(mimetype), publicUrl) == Some(publicUrl)
  {
    ImageTypesAreImages(mimetype);
    assert mimetype[..6] == "image/";
  }

  // ---- the upload handlers ----

  /** The row an upload inserts: `name` holds the title (addenda) or the name (annexures),
      the file kind, the public URL, the thumbnail and the uploader. */
  datatype UploadRecord = UploadRecord(name: string, fileType: FileKind, fileUrl: string,
                                       thumbnailUrl: Option<string>, createdBy: int)

  /** How an upload request ends: the status code, the object written to
      storage if any, and the row inserted if any. */
  datatype UploadOutcome = UploadOutcome(status: int, stored: Option<string>, record: Option<UploadRecord>)

  /** The steps every upload shares once its checks have passed: the storage
      write (a failure is a 500), then the row insert (a failure is a 500
      that leaves the stored object behind). */
  function StoreAndRecord(file: IncomingFile, name: string, caller: Caller,
                          storageOk: bool, publicUrl: string, insertOk: bool): (o: UploadOutcome)
    ensures o.stored == (if storageOk then Some(file.filename) else None)
    ensures o.record.Some? <==> storageOk && insertOk
    ensures o.status == (if storageOk && insertOk then 201 else 500)
    ensures o.record.Some? ==> o.record.value.name == name && o.record.value.fileUrl == publicUrl
                               && o.record.value.createdBy == caller.id
    ensures o.record.Some? ==> o.record.value.fileType == FileType(file.mimetype)
                               && (o.record.value.thumbnailUrl.Some? <==> o.record.value.fileType == Image)
                               && (o.record.value.thumbnailUrl.Some? ==> o.record.value.thumbnailUrl.value == publicUrl)
  {
    if !storageOk then UploadOutcome(500, None, None)
    else
      var kind := FileType(file.mimetype);
      var row := UploadRecord(name, kind, publicUrl, Thumbnail(kind, publicUrl), caller.id);
      if insertOk then UploadOutcome(201, Some(file.filename), Some(row))
      else UploadOutcome(500, Some(file.filename), None)
  }

  /** The addendum upload of a question or of a question paper: after the
      multer stage, a missing file is a 400, then the owning row is fetched
      (`owner` is `None` when it is missing: 404) and only its creator or an
      admin may go on (403), then a falsy title is a 400; only then is
      anything written. */
  function AddendumUpload(received: Received, owner: Option<Option<int>>, caller: Caller, title: Option<string>,
                          storageOk: bool, publicUrl: string, insertOk: bool): (o: UploadOutcome)
    ensures !received.Accepted? ==> o == UploadOutcome(400, None, None)
    ensures received.Accepted? && owner.None? ==> o == UploadOutcome(404, None, None)
    ensures received.Accepted? && owner.Some? && !CanModify(owner.value, caller) ==> o == UploadOutcome(403, None, None)
    ensures received.Accepted? && owner.Some? && CanModify(owner.value, caller) && !TextTruthy(title) ==>
              o == UploadOutcome(400, None, None)
    ensures received.Accepted? && OwnerGuard(owner, caller) == Permitted && TextTruthy(title) ==>
              o == StoreAndRecord(received.file, title.value, caller, storageOk, publicUrl, insertOk)
    ensures o.stored.Some? ==> received.Accepted? && OwnerGuard(owner, caller) == Permitted && TextTruthy(title)
    ensures o.record.Some? ==> o.record.value.name == title.value && o.record.value.createdBy == caller.id
                               && o.record.value.fileType == FileType(received.file.mimetype)
  {
    if !received.Accepted? then UploadOutcome(400, None, None)
    else match OwnerGuard(owner, caller)
      case NotFound => UploadOutcome(404, None, None)
      case Forbidden => UploadOutcome(403, None, None)
      case Permitted =>
        if !TextTruthy(title) then UploadOutcome(400, None, None)
        else StoreAndRecord(received.file, title.value, caller, storageOk, publicUrl, insertOk)
  }

  /** A stored upload row has a thumbnail exactly when the file's type is
      one of the "image/..." types of the allow-list. */
  lemma UploadedThumbnail(file: Option<IncomingFile>, name: string, caller: Caller,
                          storageOk: bool, publicUrl: string, insertOk: bool)
    requires Receive(file).Accepted?
    ensures var o := StoreAndRecord(Receive(file).file, name, caller, storageOk, publicUrl, insertOk);
      o.record.Some? ==> o.record.value.thumbnailUrl
                         == (if StartsWith(file.value.mimetype, "image/") then Some(publicUrl) else None)
  {
    ThumbnailForAcceptedTypes(file.value.mimetype, publicUrl);
  }
}
