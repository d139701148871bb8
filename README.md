# Chunked OCR submission of a PDF (`process_document`)

This project models `process_document` from `docAI/test_docai.py`. The
function takes a PDF of `num_pages` pages and cuts it into chunks of at most
`chunk_size` pages (15 by default; the model's `chunkSize` parameter keeps
that default). It copies each chunk's pages into a fresh PDF writer and
serialises the writer. It then sends the bytes to the Document
AI OCR service and appends the text that comes back to an output text file,
one chunk at a time and in order. It returns the string `"Done"`.

The model has two modules:

- `PageRanges` (`page_ranges.dfy`) holds the pure range arithmetic as
  functions: the chunk count `NumChunks`, the inclusive bounds `ChunkStart`
  and `ChunkEnd`, the pages of one chunk `ChunkPages`, and all chunks in
  order `Chunks`. Its lemmas prove that the chunks partition the document.
  The count is the ceiling of `num_pages / chunk_size`. Every chunk is
  non-empty, holds at most `chunk_size` pages and lies inside the document.
  Chunks are contiguous and ascending. Every page lies in exactly one chunk.
  Concatenating the chunks gives back the document unchanged.
- `DocAi` (`doc_ai.dfy`) holds the imperative loop `ProcessDocument` and
  three small classes for the things it changes in place: `PdfWriter` (the
  `PyPDF2.PdfWriter` filled with `add_page`), `DocumentAi` (the OCR
  service: a fixed answer function plus a log of the requests sent) and
  `TextFile` (the output file opened in append mode). The postcondition of
  `ProcessDocument` describes the whole run. The output gains the texts of
  the chunks before the first failed OCR call, in chunk order and without
  separators. The service receives exactly the requests up to and including
  the failed one, so later chunks are never attempted. The method returns
  `"Done"` when no call fails and raises the service's error otherwise.

The external pieces are parameters. The PDF's pages are an abstract
`seq<P>`. `PdfWriter.write` is a function `serialize` from a chunk's pages
to bytes. The OCR service's answer is a function `respond` from a request to
a response. The output file is a string that the method extends.

The code does not validate its inputs, and the model follows the code:

- An empty document is not rejected. The code computes zero chunks, sends
  nothing, appends nothing and returns `"Done"` (`EmptyDocumentIsDone`).
- A chunk size of 0 is not rejected as an invalid argument either. The
  division at line 58 raises `ZeroDivisionError` before anything is sent or
  written. The model returns `Raised(ZeroDivisionError)` with the log and
  the output unchanged.

## Model

| member | source | states |
|---|---|---|
| PageRanges.NumChunksIsCeiling | docAI/test_docai.py:58 | `NumChunks` chunks of `chunk_size` pages hold all pages, and one chunk fewer would not: the count is the ceiling of `num_pages / chunk_size` |
| PageRanges.NumChunksIsLeast | docAI/test_docai.py:58 | any number of chunks that can hold all pages is at least `NumChunks` |
| PageRanges.NoChunksIffEmpty | docAI/test_docai.py:57-60 | there are no chunks exactly when the document has no pages |
| PageRanges.ChunkBounds | docAI/test_docai.py:60-66 | for each chunk index below the count, `0 <= start_page <= end_page <= num_pages - 1`, so every page index read at line 66 is in range; each chunk holds between 1 and `chunk_size` pages |
| PageRanges.ChunksContiguous | docAI/test_docai.py:60-62 | each later chunk starts at the previous chunk's `end_page + 1` |
| PageRanges.ChunksSpanDocument | docAI/test_docai.py:60-62 | a non-empty document has at least one chunk, the first starts at page 0 and the last ends at page `num_pages - 1` |
| PageRanges.PageInExactlyOneChunk | docAI/test_docai.py:58-62 | every page lies in the range of chunk `page / chunk_size` and of no other chunk |
| PageRanges.ChunkAt | docAI/test_docai.py:61-67 | chunk `i` of the document is the slice of pages from `start_page` to `end_page` inclusive, inside the document |
| PageRanges.ChunksShape | docAI/test_docai.py:58-67 | there are `NumChunks` chunks; each is its page range and holds between 1 and `chunk_size` pages |
| PageRanges.ChunksFromShape | docAI/test_docai.py:60-67 | the chunks from index `i` on are the page ranges of chunks `i`, `i + 1`, … in ascending order |
| PageRanges.FlattenChunksFrom | docAI/test_docai.py:60-67 | concatenating the chunks from index `i` on gives the document from page `i * chunk_size` to its end |
| PageRanges.ChunksPartitionDocument | docAI/test_docai.py:60-67 | concatenating all chunks in order gives back exactly the document's pages, unchanged and in order |
| DocAi.PdfWriter.AddPage | docAI/test_docai.py:67 | an added page goes after the pages already in the writer |
| DocAi.DocumentAi.Process | docAI/test_docai.py:73 | the OCR call answers with the service's response to the request and records the request after the earlier ones |
| DocAi.TextFile.Write | docAI/test_docai.py:77-78 | writing to the file opened in append mode keeps its old contents and adds the text at the end |
| DocAi.WriteChunk | docAI/test_docai.py:61-67 | a fresh writer receives exactly the pages of chunk `i`, in ascending order and unchanged |
| DocAi.FirstFailure | docAI/test_docai.py:73-78 | the index of the first failed OCR response (or the number of responses): every response before it carries text, and the one at it, if any, is an error |
| DocAi.TextsBeforeSplit | docAI/test_docai.py:73-78 | the output after `k2` chunks is the output after `k1 <= k2` chunks followed by the texts of chunks `k1` to `k2 - 1`: earlier output is never rewritten |
| DocAi.TextsBeforeIsJoin | docAI/test_docai.py:77-78 | what the output gains after `k` successful chunks is the concatenation of their texts in chunk order, with no separators |
| DocAi.ProcessDocument | docAI/test_docai.py:54-79 | a chunk size of 0 raises `ZeroDivisionError` and changes nothing; otherwise the service receives the requests for the chunks up to and including the first failed one, in order, the output gains the texts of the chunks before it, and the result is `"Done"` if no call failed or the service's error if one did |
| DocAi.EmptyDocumentIsDone | docAI/test_docai.py:57-60 | an empty document gives no requests, no failure and no output, so the run returns `"Done"` |

## Left out

- `create_processor`, `delete_processor` and the body of `document_ai`
  are client-library calls (endpoint options, request building, a remote
  call). The OCR call is the `respond` function of `DocumentAi`.
- PyPDF2: reading the file into pages, and serialising a writer into bytes
  with `write` into a `BytesIO`. Pages are an abstract type and the bytes
  are the function `serialize` of the chunk's pages.
- File-system work: opening the PDF and building the output path. Errors
  from opening or writing the output file are not modelled, and neither
  are errors raised by PyPDF2.
- Negative chunk sizes: the chunk size is a `nat`. A negative `chunk_size`
  in the Python code gives odd ranges rather than an error; it is not a use
  the code intends.
- `multiturn_generate_content`: an interactive chat client driven by
  `input()` and `print` over the network.
- The pytest fixtures and `TestDocumentAI`: they need live cloud processors
  and only check that the result contains `"Done"`.
- The module-level configuration constants (project, location, URL, token).
- DocAi.DocumentAi.Process: the service is deterministic per request. Its
  answer is the fixed function `respond` of the request, so two chunks whose
  bytes are identical get the same answer, and a transient failure on only
  one of two identical requests cannot be expressed.
- DocAi.TextFile.Write: the file holds decoded text. The UTF-8 encoding of
  text mode, and the translation of `'\n'` into the platform's line
  separator on write, are not modelled.
- Chunk boundary computation is deterministic by construction: the range
  functions are mathematical functions, so no lemma states that computing
  them twice gives the same ranges.
