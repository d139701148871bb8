/** The chunked submitter `process_document`: it cuts a PDF into chunks of
    at most `chunk_size` pages, sends each chunk to the Document AI OCR
    service and appends the returned text to an output file, in chunk
    order. The PDF library, the OCR service and the output file are
    modelled by the three small classes below. */
module DocAi {
  import opened PageRanges

  type Bytes = seq<bv8>

  /** What the OCR service answers: the document's text, or an error
      raised by the client library. */
  datatype Response = Text(text: string) | ServiceError(message: string)

  /** One call of `document_ai(processor_name, chunk_pdf_bytes, transport)`. */
  datatype Request = Request(processorName: string, content: Bytes, transport: string)

  /** The exceptions `process_document` lets escape. */
  datatype Exception = ZeroDivisionError | ExternalServiceError(message: string)

  /** How a call of `process_document` ends: it returns a value or raises. */
  datatype Outcome = Returned(value: string) | Raised(error: Exception)

  /** A PDF writer being filled page by page (`PyPDF2.PdfWriter`). */
  class PdfWriter<P> {
    var pages: seq<P>

    constructor ()
      ensures pages == []
    {
      pages := [];
    }

    /** `add_page`: the page goes after those already added. */
    method AddPage(page: P)
      modifies this
      ensures pages == old(pages) + [page]
    {
      pages := pages + [page];
    }
  }

  /** The OCR service. Its answer to a request is the fixed function
      `respond`; `log` records every request sent, in order. */
  class DocumentAi {
    const respond: Request -> Response
    var log: seq<Request>

    constructor (respond: Request -> Response)
      ensures this.respond == respond && log == []
    {
      this.respond := respond;
      log := [];
    }

    /** `document_ai(processor_name, chunk_pdf_bytes, transport)`. */
    method Process(processorName: string, content: Bytes, transport: string) returns (r: Response)
      modifies this
      ensures r == respond(Request(processorName, content, transport))
      ensures log == old(log) + [Request(processorName, content, transport)]
    {
      r := respond(Request(processorName, content, transport));
      log := log + [Request(processorName, content, transport)];
    }
  }

  /** The output text file, opened in append mode. */
  class TextFile {
    var contents: string

    constructor (contents: string)
      ensures this.contents == contents
    {
      this.contents := contents;
    }

    /** `text_file.write(s)` on a file opened with mode 'a'. */
    method Write(s: string)
      modifies this
      ensures contents == old(contents) + s
    {
      contents := contents + s;
    }
  }

  /** The request sent for each chunk, in chunk order. */
  function Requests<P>(chunks: seq<seq<P>>, processorName: string, transport: string,
                       serialize: seq<P> -> Bytes): seq<Request>
  {
    seq(|chunks|, j requires 0 <= j < |chunks| => Request(processorName, serialize(chunks[j]), transport))
  }

  /** The service's answer to each request. */
  function Responses(requests: seq<Request>, respond: Request -> Response): seq<Response>
  {
    seq(|requests|, j requires 0 <= j < |requests| => respond(requests[j]))
  }

  /** Index of the first failed response, or the number of responses if
      none failed. */
  function FirstFailure(rs: seq<Response>): (k: nat)
    ensures k <= |rs|
    ensures forall j :: 0 <= j < k ==> rs[j].Text?
    ensures k < |rs| ==> rs[k].ServiceError?
  {
    if rs == [] || rs[0].ServiceError? then 0 else 1 + FirstFailure(rs[1..])
  }

  /** The texts of the first `k` responses, joined in order without
      separators. */
  function TextsBefore(rs: seq<Response>, k: nat): string
    requires k <= |rs|
    requires forall j :: 0 <= j < k ==> rs[j].Text?
  {
    if k == 0 then "" else TextsBefore(rs, k - 1) + rs[k - 1].text
  }

  /** One more chunk: a successful response at index `i` moves the first
      failure past `i` and adds its text after the earlier ones; a failed
      one is the first failure. */
  lemma FirstFailureStep(rs: seq<Response>, i: nat)
    requires i < |rs| && i <= FirstFailure(rs)
    ensures rs[i].Text? ==> i + 1 <= FirstFailure(rs) && TextsBefore(rs, i + 1) == TextsBefore(rs, i) + rs[i].text
    ensures rs[i].ServiceError? ==> FirstFailure(rs) == i
  {
  }

  /** The output of chunks `0..k2` is the output of chunks `0..k1`
      followed by that of chunks `k1..k2`: chunk texts are appended in
      order and never rewritten. */
  lemma {:induction false} TextsBeforeSplit(rs: seq<Response>, k1: nat, k2: nat)
    requires k1 <= k2 <= |rs|
    requires forall j :: 0 <= j < k2 ==> rs[j].Text?
    ensures TextsBefore(rs, k2) == TextsBefore(rs, k1) + TextsBefore(rs[k1..], k2 - k1)
    decreases k2
  {
    if k1 < k2 {
      TextsBeforeSplit(rs, k1, k2 - 1);
      assert rs[k1..][k2 - 1 - k1] == rs[k2 - 1];
      AppendAssoc(TextsBefore(rs, k1), TextsBefore(rs[k1..], k2 - 1 - k1), rs[k2 - 1].text);
    }
  }

  /** The texts of the given responses, joined front to back. */
  function JoinTexts(rs: seq<Response>): string
    requires forall j :: 0 <= j < |rs| ==> rs[j].Text?
  {
    if rs == [] then "" else rs[0].text + JoinTexts(rs[1..])
  }

  lemma {:induction false} JoinTextsSnoc(rs: seq<Response>, x: Response)
    requires forall j :: 0 <= j < |rs| ==> rs[j].Text?
    requires x.Text?
    ensures JoinTexts(rs + [x]) == JoinTexts(rs) + x.text
    decreases |rs|
  {
    if rs != [] {
      assert (rs + [x])[1..] == rs[1..] + [x];
      JoinTextsSnoc(rs[1..], x);
      AppendAssoc(rs[0].text, JoinTexts(rs[1..]), x.text);
    }
  }

  /** What the output gains after `k` successful chunks is exactly the
      concatenation, in chunk order and without separators, of their
      texts. */
  lemma {:induction false} TextsBeforeIsJoin(rs: seq<Response>, k: nat)
    requires k <= |rs|
    requires forall j :: 0 <= j < k ==> rs[j].Text?
    ensures TextsBefore(rs, k) == JoinTexts(rs[..k])
  {
    if k > 0 {
      TextsBeforeIsJoin(rs, k - 1);
      assert rs[..k] == rs[..k - 1] + [rs[k - 1]];
      JoinTextsSnoc(rs[..k - 1], rs[k - 1]);
    }
  }

  lemma AppendNext<T>(a: seq<T>, s: seq<T>, i: nat)
    requires i < |s|
    ensures a + s[..i + 1] == (a + s[..i]) + [s[i]]
  {
    assert s[..i + 1] == s[..i] + [s[i]];
  }

  lemma AppendAssoc<T>(a: seq<T>, b: seq<T>, c: seq<T>)
    ensures a + (b + c) == (a + b) + c
  {
  }

  /** One chunk of `process_document`: the page range of chunk `i`, and a
      fresh writer that receives those pages in ascending order. */
  method WriteChunk<P>(pages: seq<P>, chunkSize: nat, i: nat) returns (writer: PdfWriter<P>)
    requires chunkSize >= 1
    requires i < NumChunks(|pages|, chunkSize)
    ensures fresh(writer)
    ensures writer.pages == ChunkPages(pages, chunkSize, i)
  {
    var numPages := |pages|;
    var startPage := i * chunkSize;
    var endPage := Min((i + 1) * chunkSize - 1, numPages - 1);
    ChunkBounds(numPages, chunkSize, i);
    writer := new PdfWriter<P>();
    var pageNum := startPage;
    while pageNum < endPage + 1
      invariant startPage <= pageNum <= endPage + 1
      invariant writer.pages == pages[startPage..pageNum]
      modifies writer
    {
      writer.AddPage(pages[pageNum]);
      pageNum := pageNum + 1;
    }
  }

  /** `process_document(pdf_file_path, processor_name, transport, chunk_size)`
      on a PDF whose pages are `pages`. `serialize` stands for
      `PdfWriter.write`; `service` answers the OCR calls; `out` is the
      output text file. `chunkSize` comes last so that it keeps the
      default of 15. */
  method ProcessDocument<P>(pages: seq<P>, processorName: string, transport: string,
                            serialize: seq<P> -> Bytes, service: DocumentAi, out: TextFile,
                            chunkSize: nat := 15) returns (r: Outcome)
    modifies service, out
    ensures chunkSize == 0 ==>
      r == Raised(ZeroDivisionError) && service.log == old(service.log) && out.contents == old(out.contents)
    ensures chunkSize >= 1 ==>
      var requests := Requests(Chunks(pages, chunkSize), processorName, transport, serialize);
      var responses := Responses(requests, service.respond);
      var k := FirstFailure(responses);
      && service.log == old(service.log) + requests[..if k < |requests| then k + 1 else k]
      && out.contents == old(out.contents) + TextsBefore(responses, k)
      && r == (if k == |responses| then Returned("Done")
               else Raised(ExternalServiceError(responses[k].message)))
  {
    if chunkSize == 0 {
      return Raised(ZeroDivisionError);
    }
    var numPages := |pages|;
    var numChunks := (numPages + chunkSize - 1) / chunkSize;
    ghost var chunks := Chunks(pages, chunkSize);
    ghost var requests := Requests(chunks, processorName, transport, serialize);
    ghost var responses := Responses(requests, service.respond);
    if numChunks > 0 { ChunkAt(pages, chunkSize, 0); } else { ChunksShape(pages, chunkSize); }

    ghost var log0, contents0 := service.log, out.contents;
    var i := 0;
    while i < numChunks
      invariant 0 <= i <= numChunks
      invariant i <= FirstFailure(responses)
      invariant service.log == log0 + requests[..i]
      invariant out.contents == contents0 + TextsBefore(responses, i)
    {
      var writer := WriteChunk(pages, chunkSize, i);
      ChunkAt(pages, chunkSize, i);

      var chunkPdfBytes := serialize(writer.pages);
      var ocrResponse := service.Process(processorName, chunkPdfBytes, transport);
      assert ocrResponse == responses[i];
      AppendNext(log0, requests, i);
      FirstFailureStep(responses, i);
      if ocrResponse.ServiceError? {
        return Raised(ExternalServiceError(ocrResponse.message));
      }
      out.Write(ocrResponse.text);
      AppendAssoc(contents0, TextsBefore(responses, i), ocrResponse.text);
      i := i + 1;
    }
    assert requests[..i] == requests;
    return Returned("Done");
  }

  /** An empty document is cut into no chunks, so the run sends no request,
      appends nothing and returns "Done". */
  lemma EmptyDocumentIsDone<P>(chunkSize: nat, processorName: string, transport: string,
                               serialize: seq<P> -> Bytes, respond: Request -> Response)
    requires chunkSize >= 1
    ensures var requests := Requests(Chunks([], chunkSize), processorName, transport, serialize);
      var responses := Responses(requests, respond);
      requests == [] && FirstFailure(responses) == |responses| && TextsBefore(responses, 0) == ""
  {
    ChunksShape<P>([], chunkSize);
    NoChunksIffEmpty(0, chunkSize);
  }
}
