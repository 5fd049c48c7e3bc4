/**
 * The upload validator of FileUploadService: an allow-list of image MIME
 * types, a 2 MiB size cap, and a check that the file's leading bytes carry
 * the magic number of the type it claims to be.
 */
module FileUpload {
  import opened Common

  newtype Byte = b: int | 0 <= b < 256

  const AllowedMimeTypes: seq<string> := ["image/jpeg", "image/png", "image/gif"]
  const MaxSize: nat := 2 * 1024 * 1024

  const JpegSignature: seq<Byte> := [0xFF, 0xD8, 0xFF]
  const PngSignature: seq<Byte> := [0x89, 0x50, 0x4E, 0x47, 0x0D, 0x0A, 0x1A, 0x0A]
  const GifSignature: seq<Byte> := [0x47, 0x49, 0x46, 0x38]

  /** Number of leading bytes the disk path keeps (the longest signature). */
  const DiskPrefix: nat := 8

  /**
   * What Multer hands the service. `buffer` is present with memory storage;
   * with disk storage the content is read back from `path`.
   */
  datatype UploadedFile = UploadedFile(mimetype: string, size: nat, path: string, buffer: Option<seq<Byte>>)

  datatype UploadResult = UploadResult(message: string, filePath: string)

  /** The buffer starts with the signature. */
  predicate HasSignature(buffer: seq<Byte>, signature: seq<Byte>) {
    |buffer| >= |signature| && buffer[..|signature|] == signature
  }

  /** checkSignature: a length test, then a byte-by-byte scan that stops at the first mismatch. */
  method CheckSignature(buffer: seq<Byte>, signature: seq<Byte>) returns (ok: bool)
    ensures ok <==> HasSignature(buffer, signature)
  {
    if |buffer| < |signature| {
      return false;
    }
    var i := 0;
    while i < |signature|
      invariant 0 <= i <= |signature|
      invariant buffer[..i] == signature[..i]
    {
      if buffer[i] != signature[i] {
        return false;
      }
      i := i + 1;
    }
    assert buffer[..|signature|] == signature[..|signature|];
    return true;
  }

  /** detectFileType: JPEG, then PNG, then GIF; null when none matches. */
  function DetectFileType(buffer: seq<Byte>): (r: Option<string>)
    ensures r == Some("jpeg") <==> HasSignature(buffer, JpegSignature)
    ensures r == Some("png") <==> HasSignature(buffer, PngSignature)
    ensures r == Some("gif") <==> HasSignature(buffer, GifSignature)
    ensures r.None? <==>
      !HasSignature(buffer, JpegSignature) && !HasSignature(buffer, PngSignature) && !HasSignature(buffer, GifSignature)
  {
    if HasSignature(buffer, JpegSignature) then
      assert buffer[0] == 0xFF;
      Some("jpeg")
    else if HasSignature(buffer, PngSignature) then
      assert buffer[0] == 0x89;
      Some("png")
    else if HasSignature(buffer, GifSignature) then
      assert buffer[0] == 0x47;
      Some("gif")
    else None
  }

  /** The three signatures begin with different bytes, so at most one of them matches. */
  lemma SignaturesExclusive(buffer: seq<Byte>)
    ensures !(HasSignature(buffer, JpegSignature) && HasSignature(buffer, PngSignature))
    ensures !(HasSignature(buffer, JpegSignature) && HasSignature(buffer, GifSignature))
    ensures !(HasSignature(buffer, PngSignature) && HasSignature(buffer, GifSignature))
  {
    if |buffer| > 0 {
      assert HasSignature(buffer, JpegSignature) ==> buffer[0] == 0xFF;
      assert HasSignature(buffer, PngSignature) ==> buffer[0] == 0x89;
      assert HasSignature(buffer, GifSignature) ==> buffer[0] == 0x47;
    }
  }

  /** The first `DiskPrefix` bytes of a buffer: Buffer.slice(0, 8). */
  function Head(buffer: seq<Byte>): (r: seq<Byte>)
    ensures |r| == (if |buffer| < DiskPrefix then |buffer| else DiskPrefix) && r == buffer[..|r|]
  {
    if |buffer| <= DiskPrefix then buffer else buffer[..DiskPrefix]
  }

  /** A signature no longer than the kept prefix matches the prefix iff it matches the whole buffer. */
  lemma {:induction false} SignatureSeesHead(buffer: seq<Byte>, signature: seq<Byte>)
    requires |signature| <= DiskPrefix
    ensures HasSignature(Head(buffer), signature) <==> HasSignature(buffer, signature)
  {
    var h := Head(buffer);
    if |buffer| > DiskPrefix {
      assert h[..|signature|] == buffer[..|signature|];
    }
  }

  /** Keeping only the first 8 bytes, as the disk path does, never changes the detected type. */
  lemma {:induction false} DetectionSeesHead(buffer: seq<Byte>)
    ensures DetectFileType(Head(buffer)) == DetectFileType(buffer)
  {
    SignatureSeesHead(buffer, JpegSignature);
    SignatureSeesHead(buffer, PngSignature);
    SignatureSeesHead(buffer, GifSignature);
  }

  /** getExpectedType: the three image MIME types map to their short names; anything else is returned as it is. */
  function GetExpectedType(mimetype: string): (r: string)
    ensures mimetype == "image/jpeg" ==> r == "jpeg"
    ensures mimetype == "image/png" ==> r == "png"
    ensures mimetype == "image/gif" ==> r == "gif"
    ensures mimetype !in AllowedMimeTypes ==> r == mimetype
  {
    if mimetype == "image/jpeg" then "jpeg"
    else if mimetype == "image/png" then "png"
    else if mimetype == "image/gif" then "gif"
    else mimetype
  }

  const ReadFailed := "Ошибка при проверке содержимого файла"
  const Undetected := "Не удалось определить тип файла по содержимому"

  /** The mismatch message names both types. */
  function Mismatch(expected: string, detected: string): string {
    "Тип файла не соответствует содержимому. Ожидается: " + expected + ", обнаружено: " + detected
  }

  /**
   * The bytes validateFileContent inspects: the in-memory buffer, or the
   * first 8 bytes of the file read back from disk. `disk` is what
   * fs.readFile yields for the file's path; None when the read throws.
   */
  function ContentBytes(file: UploadedFile, disk: Option<seq<Byte>>): Option<seq<Byte>> {
    if file.buffer.Some? then file.buffer
    else if disk.Some? then Some(Head(disk.value))
    else None
  }

  /**
   * validateFileContent: no detected type and a detected type different
   * from the declared one are BadRequests; a failing read is rewrapped as a
   * BadRequest too.
   */
  function ValidateFileContent(file: UploadedFile, disk: Option<seq<Byte>>): (r: Outcome)
    ensures r.Fail? ==> r.error.BadRequest?
    ensures r == Pass <==>
      ContentBytes(file, disk).Some? && DetectFileType(ContentBytes(file, disk).value) == Some(GetExpectedType(file.mimetype))
    ensures ContentBytes(file, disk).None? ==> r == Fail(BadRequest(ReadFailed))
    ensures ContentBytes(file, disk).Some? && DetectFileType(ContentBytes(file, disk).value).None? ==>
      r == Fail(BadRequest(Undetected))
    ensures (ContentBytes(file, disk).Some? && DetectFileType(ContentBytes(file, disk).value).Some?
             && DetectFileType(ContentBytes(file, disk).value).value != GetExpectedType(file.mimetype)) ==>
      r == Fail(BadRequest(Mismatch(GetExpectedType(file.mimetype), DetectFileType(ContentBytes(file, disk).value).value)))
  {
    match ContentBytes(file, disk)
    case None => Fail(BadRequest(ReadFailed))
    case Some(bytes) =>
      match DetectFileType(bytes)
      case None => Fail(BadRequest(Undetected))
      case Some(detected) =>
        var expected := GetExpectedType(file.mimetype);
        if detected != expected then Fail(BadRequest(Mismatch(expected, detected))) else Pass
  }

  /** With disk storage, the verdict is the one the whole file would get. */
  lemma DiskVerdictSeesWholeFile(file: UploadedFile, content: seq<Byte>)
    requires file.buffer.None?
    ensures ValidateFileContent(file, Some(content)) ==
      ValidateFileContent(file.(buffer := Some(content)), None)
  {
    DetectionSeesHead(content);
  }

  const NoFile := "Нет файла для загрузки"
  const BadFormat := "Недопустимый формат файла. Разрешено: jpeg, png, gif"
  const TooLarge := "Размер файла больше допустимого 2 МБ"
  const Uploaded := "Файл успешно загружен"

  /**
   * handleFileUpload: rejects a missing file, then a MIME type outside the
   * allow-list, then a size over 2 MiB, then bad content; otherwise
   * answers with the file's own path.
   */
  function HandleFileUpload(file: Option<UploadedFile>, disk: Option<seq<Byte>>): (r: Result<UploadResult>)
    ensures r.Err? ==> r.error.BadRequest?
    ensures file.None? ==> r == Err(BadRequest(NoFile))
    ensures file.Some? && file.value.mimetype !in AllowedMimeTypes ==> r == Err(BadRequest(BadFormat))
    ensures file.Some? && file.value.mimetype in AllowedMimeTypes && file.value.size > MaxSize ==>
      r == Err(BadRequest(TooLarge))
    ensures r.Ok? <==>
      file.Some? && file.value.mimetype in AllowedMimeTypes && file.value.size <= MaxSize
      && ValidateFileContent(file.value, disk) == Pass
    ensures r.Ok? ==> r.value == UploadResult(Uploaded, file.value.path)
  {
    if file.None? then Err(BadRequest(NoFile))
    else if file.value.mimetype !in AllowedMimeTypes then Err(BadRequest(BadFormat))
    else if file.value.size > MaxSize then Err(BadRequest(TooLarge))
    else match ValidateFileContent(file.value, disk)
      case Fail(e) => Err(e)
      case Pass => Ok(UploadResult(Uploaded, file.value.path))
  }

  /** An accepted upload is an allowed image whose bytes carry the signature of its declared type. */
  lemma AcceptedIsGenuine(file: UploadedFile, disk: Option<seq<Byte>>)
    requires HandleFileUpload(Some(file), disk).Ok?
    ensures file.size <= MaxSize
    ensures ContentBytes(file, disk).Some?
    ensures file.mimetype == "image/jpeg" ==> HasSignature(ContentBytes(file, disk).value, JpegSignature)
    ensures file.mimetype == "image/png" ==> HasSignature(ContentBytes(file, disk).value, PngSignature)
    ensures file.mimetype == "image/gif" ==> HasSignature(ContentBytes(file, disk).value, GifSignature)
  {
  }

  /** A file of exactly 2 MiB passes the size check. */
  lemma ExactlyMaxSizePasses(file: UploadedFile, disk: Option<seq<Byte>>)
    requires file.mimetype in AllowedMimeTypes && file.size == MaxSize
    ensures HandleFileUpload(Some(file), disk) == (match ValidateFileContent(file, disk)
      case Pass => Ok(UploadResult(Uploaded, file.path))
      case Fail(e) => Err(e))
  {
  }
}
