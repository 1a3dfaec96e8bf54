/** Turning a chosen file into the payload sent to the question generator
    (utils/fileParser.ts). Plain text and Word documents are sent as text
    (`text/plain`, base64 of the UTF-8 bytes); PDFs are sent as they are
    (base64 of the file). The choice depends on the MIME type alone.

    Reading a file is asynchronous browser work done by other code: what each
    reader delivers, or the error it fails with, is an input here. */
module FileParser {
  import opened Outcomes
  import opened Bytes
  import opened Model
  import opened Strings
  import Base64
  import Utf8
  import FileUpload

  /** What the three readers deliver for the file: `file.text()`, the text
      Word extraction gives, and the `data:` URL `readAsDataURL` gives. Only
      the one matching the MIME type is consulted. */
  datatype Reads = Reads(
    text: Result<string>,
    docxText: Result<string>,
    dataUrl: Result<string>)

  /** `{ mimeType, data }`; `data` is `undefined` when a `data:` URL has no
      comma. */
  datatype Payload = Payload(mimeType: string, data: Option<string>)

  const Unsupported: string := "Unsupported file type"

  /** `btoa(unescape(encodeURIComponent(text)))`: `encodeURIComponent`
      writes the UTF-8 bytes as `%XX` escapes, `unescape` turns each into one
      character of that code, and `btoa` encodes those characters as bytes. */
  function TextData(text: string): string {
    Base64.Encode(Utf8.Encode(text))
  }

  /** The text payload decodes back to the text: base64, then UTF-8. */
  lemma TextDataDecodes(text: string)
    ensures Base64.Decode(TextData(text)) == Some(Utf8.Encode(text))
    ensures Utf8.Decode(Utf8.Encode(text)) == Some(text)
  {
    Base64.DecodeEncode(Utf8.Encode(text));
    Utf8.DecodeEncode(text);
  }

  /** `result.split(',')[1]`: the text between the first comma and the next
      one (or the end); `undefined` without a comma. */
  function DataUrlPayload(url: string): (r: Option<string>)
    ensures r.Some? <==> ',' in url
    ensures r.Some? ==> ',' !in r.value
  {
    var parts := Split(url, ',');
    if |parts| >= 2 then Some(parts[1])
    else
      assert ',' !in url by { JoinSplit(url, ','); }
      None
  }

  /** For a `data:` URL of base64 content (section 3 of RFC 2397) whose media
      type has no comma, the payload is exactly the encoded content. */
  lemma DataUrlPayloadOfEncoding(mediaType: string, content: seq<byte>)
    requires ',' !in mediaType
    ensures DataUrlPayload("data:" + mediaType + ";base64," + Base64.Encode(content))
      == Some(Base64.Encode(content))
  {
    var head := "data:" + mediaType + ";base64";
    var enc := Base64.Encode(content);
    assert ',' !in head;
    Base64.EncodeHasNoComma(content);
    assert "data:" + mediaType + ";base64," + enc == head + [','] + enc;
    SplitAfterFirst(head, enc, ',');
  }

  /** `readFileContent`: the MIME type is compared with text, Word and PDF in
      that order; any other type fails. */
  function ReadFileContent(mime: string, input: Reads): (r: Result<Payload>)
    ensures r.Ok? ==> r.value.mimeType == TxtMime || r.value.mimeType == PdfMime
    ensures FileTypeOf(mime).None? ==> r == Err(Unsupported)
    ensures FileTypeOf(mime).Some? ==> (r.Ok? <==> ReaderFor(FileTypeOf(mime).value, input).Ok?)
  {
    if mime == TxtMime then
      match input.text
      case Ok(t) => Ok(Payload(TxtMime, Some(TextData(t))))
      case Err(e) => Err(e)
    else if mime == DocxMime then
      match input.docxText
      case Ok(t) => Ok(Payload(TxtMime, Some(TextData(t))))
      case Err(e) => Err(e)
    else if mime == PdfMime then
      match input.dataUrl
      case Ok(u) => Ok(Payload(PdfMime, DataUrlPayload(u)))
      case Err(e) => Err(e)
    else Err(Unsupported)
  }

  /** Which reader a MIME type consults. */
  function ReaderFor(ft: FileType, input: Reads): Result<string> {
    match ft
    case Txt => input.text
    case Docx => input.docxText
    case Pdf => input.dataUrl
  }

  /** A known type consults its own reader only: a failure of that reader is
      passed on unchanged, and the other readers never matter. */
  lemma OnlyMatchingReaderMatters(ft: FileType, r1: Reads, r2: Reads)
    requires ReaderFor(ft, r1) == ReaderFor(ft, r2)
    ensures ReadFileContent(MimeOf(ft), r1) == ReadFileContent(MimeOf(ft), r2)
    ensures ReaderFor(ft, r1).Err? ==> ReadFileContent(MimeOf(ft), r1) == Err(ReaderFor(ft, r1).error)
  {
  }

  /** Plain text and Word documents both become a text payload that decodes
      back to the text that was read. */
  lemma TextPayloadDecodes(ft: FileType, input: Reads, text: string)
    requires ft == Txt || ft == Docx
    requires ReaderFor(ft, input) == Ok(text)
    ensures var r := ReadFileContent(MimeOf(ft), input);
      r.Ok? && r.value.mimeType == TxtMime && r.value.data.Some?
      && Base64.Decode(r.value.data.value).Some?
      && Utf8.Decode(Base64.Decode(r.value.data.value).value) == Some(text)
  {
    TextDataDecodes(text);
  }

  /** A PDF read as a base64 `data:` URL is sent as the file's own base64,
      which decodes to the file's bytes. */
  lemma PdfPayloadIsFileEncoding(input: Reads, content: seq<byte>)
    requires input.dataUrl == Ok("data:" + PdfMime + ";base64," + Base64.Encode(content))
    ensures var r := ReadFileContent(PdfMime, input);
      r == Ok(Payload(PdfMime, Some(Base64.Encode(content))))
      && Base64.Decode(r.value.data.value) == Some(content)
  {
    DataUrlPayloadOfEncoding(PdfMime, content);
    Base64.DecodeEncode(content);
  }

  /** The upload box lets a file through by its `.docx` name whatever its
      type, but the parser looks only at the type: such a file with any other
      type fails as unsupported. */
  lemma DocxNameAloneIsUnsupported(name: string, mime: string, input: Reads)
    requires EndsWith(name, ".docx") && FileTypeOf(mime).None?
    ensures FileUpload.Accepts(File(name, mime))
    ensures ReadFileContent(mime, input) == Err(Unsupported)
  {
  }
}
