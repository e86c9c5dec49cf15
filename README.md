# Resumable upload engine, modelled in Dafny

This project models the server side of a resumable (chunked) upload engine: the
`Resumable` class of `resumable.js`. A client cuts a file into numbered chunks
and sends them one request at a time, in any order and possibly more than once.
The engine does five things:

- It validates each chunk request (`validateRequest`).
- It names each chunk's file in a temporary folder (`cleanIdentifier`, `getChunkFilename`).
- It stores each accepted chunk, overwriting an earlier copy, and then scans
  chunks 1..N to see whether the upload is complete (`post`).
- It answers status checks (`get`).
- It concatenates the chunks in number order into a destination (`write`) and
  deletes them (`clean`).

Layout, one module per part:

- `basics.dfy` (`Basics`): bytes, `Option`, and the concatenation of chunks.
- `decimal.dfy` (`Decimal`): the decimal text of a chunk number. It is proved
  injective, so different chunk numbers never share a file name.
- `naming.dfy` (`Naming`): `cleanIdentifier` exactly as written, the allow-list
  sanitiser that its comment describes, and chunk file names.
- `validation.dfy` (`Validation`): the verdicts, the chunk count, and the
  first-match-wins validator. It also holds the client's way of cutting a file
  (`SplitInto`), which is the reference for the size rules.
- `chunks.dfy` (`Chunks`): the temporary folder as a map from file name to
  contents. It defines the run of chunks 1, 2, ... up to the first missing
  number, and proves what completion, assembly and cleaning mean in terms of
  that run.
- `engine.dfy` (`Engine`): the classes `Resumable` and `WritableStream`.
  - `Resumable` has the folder as a `map` field (`chunkFiles`) and the files
    assembled under `./uploads/` as a second `map` field (`uploads`).
  - `WritableStream` is the sink: its `data` and an `ended` flag.
  - `Get`, `Post`, `Write` and `Clean` are methods. `Post`, `Write` and `Clean`
    keep the source's scans as loops. The recursion of `write` and `clean`
    becomes a `while` loop.

Identifier cleaning is a parameter of the engine (`IdentifierRule`).
`AsWritten` is the source's regular expression. `AllowList` is the corrected
sanitiser; see "## Findings". Every contract of the engine holds for both.

Notes on how the code reads:

- The final-chunk rule `totalSize % chunkSize + chunkSize` is exact. There are
  `floor(totalSize / chunkSize)` chunks and the last one takes the remainder,
  so that is precisely the last chunk's size. `SplitChunksAreValid` proves that
  every chunk of a correctly cut file is `VALID`, and `AssembleSplitRoundTrip`
  proves that reassembling those chunks gives back the file.
- Completion and cleaning both stop at the first missing chunk number.
  `clean` therefore removes chunks 1..k-1 only. Chunks past a gap stay on disk
  and `get` still finds them. `Chunks.CleanedFacts` states this.
- Assembly does not use the chunk count either: it reads on while chunk files
  are present. Chunks N+1, ... of the same cleaned identifier, left over from
  an earlier upload with another total or chunk size, are therefore appended
  to `./uploads/<filename>`. `Chunks.AssembleAppendsStaleChunks` states this;
  the round trip `Chunks.AssembleSplitRoundTrip` needs chunk N+1 missing.
- Chunk file names are distinct for distinct cleaned identifiers only as the
  model builds them, by concatenation. The source joins them with
  `path.join`, which normalises the path, and the source's cleaning keeps `.`
  and `/`; see "## Left out".

## Model

| member | source | states |
|---|---|---|
| `Decimal.NatToString` | resumable.js:29 | the chunk number appended to a file name is a non-empty string of decimal digits |
| `Decimal.NatToStringInjective` | resumable.js:29 | two chunk numbers with the same decimal text are equal |
| `Naming.CleanIdentifier` | resumable.js:23-25 | cleaning as written deletes the literal pattern text at line starts; the result is never longer than the identifier |
| `Naming.AsWrittenKeepsDisallowed` | resumable.js:22-24 | contrary to the comment, `../x` passes through cleaning unchanged, although `/` and `.` are not allowed characters |
| `Naming.AsWrittenNotIdempotent` | resumable.js:24 | cleaning `0-9A-Za-z_-0-9A-Za-z_-` gives `0-9A-Za-z_-`, and cleaning that again gives the empty string |
| `Naming.AsWrittenIgnoresCase` | resumable.js:24 | the `i` flag: the lower-case spelling `0-9a-za-z_-` is deleted too |
| `Naming.SanitizeIdentifier` | resumable.js:22 | the corrected sanitiser keeps only characters in `[0-9A-Za-z_-]` and never lengthens the identifier |
| `Naming.SanitizeIdempotent` | resumable.js:22 | sanitising twice equals sanitising once |
| `Naming.ChunkFilenameParts` | resumable.js:27-30 | `getChunkFilename`: the name lies in the temporary folder, starts with the cleaned identifier and a dot, and the digits after the dot read back as the chunk number |
| `Naming.ChunkFilenameInjective` | resumable.js:27-30 | two chunk file names built by concatenation in one folder are equal only for the same cleaned identifier and the same chunk number. Same number implies same file holds in the source too. Different cleaned identifiers imply different files holds in the source only under `AllowList`, whose output has no `.` or `/` for `path.join` to normalise |
| `Naming.SanitizeConcat` | resumable.js:22 | the corrected sanitiser works piecewise over a concatenation, so every allowed character survives, in order |
| `Naming.AsWrittenPostGetKeysDiffer` | resumable.js:90-100 | with the source's cleaning there is an identifier for which the file `post` writes (cleaned twice) is not the file `get` looks for (cleaned once) |
| `Naming.AllowListPostGetKeysAgree` | resumable.js:90-100 | with the corrected sanitiser, `post` and `get` name the same chunk file for every identifier |
| `Validation.NumberOfChunks` | resumable.js:40 | `max(floor(totalSize / chunkSize), 1)`, the count `validateRequest` and the completion scan of `post` (line 105) both use: at least one chunk |
| `Validation.NumberOfChunksBounds` | resumable.js:40 | one chunk when the file is shorter than two chunk sizes; otherwise N full chunks fit and N+1 do not |
| `Validation.ValidateRequest` | resumable.js:33-61 | rules in first-match order: `INVALID_REQUEST` iff a zero number or empty cleaned identifier/filename; then `INVALID_CHUNK` iff chunkNumber > N; then `INVALID_REQUEST_FILE_TOO_BIG` iff totalSize > maxFileSize. Without a file size the result is `VALID` iff those three pass. With one, `VALID` iff also the size equals the expected size of that position; each size verdict names its own violated rule |
| `Validation.ThousandBytesInThreeHundredByteChunks` | resumable.js:40-58 | 1000 bytes in 300-byte chunks: 3 chunks, chunk 4 invalid, chunk 3 must be 400 bytes (100 is refused), a single 300-byte chunk must be the whole file |
| `Validation.PostValidImpliesGetValid` | resumable.js:70-98 | every request that `post`'s validation accepts (identifier cleaned twice, size given) is accepted by `get`'s validation (cleaned once, no size) |
| `Validation.AsWrittenPostRejectsWhatGetAccepts` | resumable.js:90-98 | with the source's cleaning, `get` accepts identifier `0-9A-Za-z_-0-9A-Za-z_-` while `post` rejects it as `INVALID_REQUEST` |
| `Validation.SplitChunksAreValid` | resumable.js:49-58 | every chunk of a file cut as the client cuts it validates `VALID` with its real size, the final chunk included |
| `Chunks.RunFacts` | resumable.js:129-149 | the scan from chunk n yields the contents of chunks n, n+1, ... in order, all present, and stops at a missing one |
| `Chunks.AllPresentIffGapPast` | resumable.js:104-117 | chunks 1..N are all present iff the first missing chunk number is greater than N |
| `Chunks.CompletionMonotone` | resumable.js:99-117 | storing a chunk never makes a complete upload incomplete |
| `Chunks.StoresCommute` | resumable.js:99-101 | storing two different chunks of one upload gives the same folder in either order |
| `Chunks.AssembleSplitRoundTrip` | resumable.js:123-151 | when chunks 1..N hold a file's pieces and chunk N+1 is missing, the assembled bytes are the concatenation of the pieces; with `SplitInto`, the original file |
| `Chunks.AssembleAppendsStaleChunks` | resumable.js:129-149 | when chunks 1..N hold the file's pieces and a non-empty chunk N+1 of the same cleaned identifier is present, the assembled bytes are the pieces followed by the run from N+1, so strictly longer than the file |
| `Chunks.CleanedFacts` | resumable.js:154-173 | cleaning removes exactly chunks 1..k-1 (k the first missing number): chunk 1 is absent afterwards, chunks from k on and every other file keep their presence and contents |
| `Chunks.CleanKeepsOtherUploads` | resumable.js:159-167 | with names built by concatenation, cleaning one identifier never removes a chunk of an identifier that cleans differently; for the source this holds under `AllowList` only |
| `Engine.EndsStream` | resumable.js:124-125 | `options.end` defaults to true: the stream is ended unless `end` is given as false |
| `Engine.Resumable.constructor` | resumable.js:10-14 | the engine keeps the temporary folder and a 4 GiB ceiling; existing files in the folder stay |
| `Engine.Resumable.Get` | resumable.js:63-81 | `found` (with the chunk file name, filename and identifier) iff validation without a size is `VALID` and the chunk file exists; otherwise `not_found`; nothing changes |
| `Engine.Resumable.Post` | resumable.js:83-121 | no or empty file: `invalid_resumable_request`, nothing changes. Validation not `VALID`: that verdict, nothing changes. `VALID`: the chunk file is set to the upload (overwriting), no other file changes, and the answer is `done` iff chunks 1..N all exist, in which case `./uploads/<filename>` receives the assembled chunks |
| `Engine.Resumable.Write` | resumable.js:123-152 | appends chunks 1..k-1 in order to the stream (k the first missing number) and ends it iff `end` is absent or true; the folder is only read |
| `Engine.Resumable.Clean` | resumable.js:154-173 | the folder afterwards is the folder before without chunks 1..k-1 of this identifier |

## Left out

- `app.js`: Express routing, static hosting, multipart parsing, CORS headers,
  `listen` and the mapping of answers to HTTP status codes. This is transport
  only.
- Reading the request fields with `parseInt(...) || 0`. The model takes the
  parsed numbers as naturals. Negative numbers are not modelled. A missing
  identifier or filename on the upload path is not modelled either; the source
  would throw there.
- `Math.floor(totalSize / (chunkSize * 1.0))` is modelled as natural-number
  division. The two agree below 2^53. Larger values, and chunk numbers of 10^21
  or more (which JavaScript writes in exponent notation), are not modelled.
- `path.join` normalisation. A chunk file is named `<folder>/<cleaned id>.<n>`
  by plain concatenation. The model therefore does not show two effects of the
  source's cleaning letting `.` and `/` through under `AsWritten`:
  - An identifier with `..` segments places the chunk outside the temporary
    folder.
  - Distinct cleaned identifiers can name the same file. With folder `./tmp/`,
    `./b`, `b` and `a/../b` all give `tmp/b.1`, so two uploads share chunk
    files and `clean('./b')` deletes the chunks of `b`.
  `Naming.ChunkFilenameInjective` and `Chunks.CleanKeepsOtherUploads` hold for
  the source only under `AllowList`, whose output holds no `.` or `/`.
- `createTempDir` with its swallowed `mkdir` error, and `console.log`.
- The removal of the uploaded temporary file by `rename`, and a failing
  `rename`. In the model the move always succeeds and the uploaded bytes
  become the chunk file.
- Node stream mechanics: `pipe`, `'end'` events, `createReadStream`, and the
  `onDone` callback. In the model, assembly is finished when `write` returns.
  In the source, `post`'s `await this.write(...)` returns once piping has
  started.
- `Engine.Resumable.Write`: requires a stream that has not been ended. Its only
  caller passes a new stream, and Node refuses writes after `end`.
- `clean`'s fire-and-forget `unlink` and its `onError`/`onDone` callbacks. In
  the model a deletion always succeeds and takes effect at once.
- Concurrency. The model does not cover two `post` calls racing to complete the
  same upload, which assembles it twice. The source has no locking, and a
  sequential model cannot express the race.
- The `./uploads/` directory is a map keyed by `filename`. Path semantics of a
  filename that contains `/` are not modelled.

## Findings

| source | as written | input that shows it | evidently intended | confidence | as-written member | corrected member |
|---|---|---|---|---|---|---|
| resumable.js:22-25 | `/^0-9A-Za-z_-/img` has no brackets. It deletes only the literal text `0-9A-Za-z_-` at line starts, so disallowed characters survive and a second cleaning can delete more than the first. `post` cleans twice (line 90, then line 28) and `get` once. | identifier `0-9A-Za-z_-0-9A-Za-z_-x`: `post` stores chunk n as `<tmp>/x.n`, while `get` looks for `<tmp>/0-9A-Za-z_-x.n` | delete every character outside `[0-9A-Za-z_-]` (`/[^0-9A-Za-z_-]/g`); cleaning is then idempotent and both paths name the same file | high; not executed | `Naming.AsWrittenPostGetKeysDiffer` | `Naming.AllowListPostGetKeysAgree` |
