/** `validateRequest` of resumable.js: a first-match-wins decision over the
    declared numbers of one chunk request. */
module Validation {
  import opened Basics
  import opened Naming

  /** The status words the validator returns. */
  datatype Verdict =
    | Valid
    | InvalidRequest
    | InvalidChunk
    | InvalidRequestFileTooBig
    | ChunkSizeInvalid
    | FinalChunkSizeInvalid
    | FileSizeInvalid

  /** The ceiling the constructor sets: 4 GiB. */
  const MaxFileSize: nat := 4 * 1024 * 1024 * 1024

  /** `max(floor(totalSize / chunkSize), 1)`: the client merges the remainder
      into the last chunk, so every chunk but the last holds `chunkSize` bytes
      and the last holds between `chunkSize` and `2 * chunkSize - 1` bytes
      (or the whole file when it is shorter than two chunks). */
  function NumberOfChunks(totalSize: nat, chunkSize: nat): (n: nat)
    requires chunkSize > 0
    ensures n >= 1
  {
    var q := totalSize / chunkSize;
    if q > 1 then q else 1
  }

  /** The count of chunks as a client sees it: one chunk for a file shorter
      than two chunks, otherwise as many full chunks as fit. */
  lemma NumberOfChunksBounds(totalSize: nat, chunkSize: nat)
    requires chunkSize > 0
    ensures var n := NumberOfChunks(totalSize, chunkSize);
            && (n == 1 <==> totalSize < 2 * chunkSize)
            && (n > 1 ==> n * chunkSize <= totalSize < (n + 1) * chunkSize)
  {
    var q := totalSize / chunkSize;
    assert totalSize == q * chunkSize + totalSize % chunkSize;
    if q <= 1 {
      assert totalSize < 2 * chunkSize;
    } else {
      assert q * chunkSize >= 2 * chunkSize;
    }
  }

  /** Rule 1: no zero number and no empty name. */
  predicate WellFormed(rule: IdentifierRule, chunkNumber: nat, chunkSize: nat, totalSize: nat,
                       identifier: string, filename: string)
  {
    chunkNumber != 0 && chunkSize != 0 && totalSize != 0
    && CleanWith(rule, identifier) != [] && filename != []
  }

  /** Rules 1 to 3: a chunk that exists in an acceptable upload. */
  predicate Admissible(maxFileSize: nat, rule: IdentifierRule, chunkNumber: nat, chunkSize: nat,
                       totalSize: nat, identifier: string, filename: string)
  {
    WellFormed(rule, chunkNumber, chunkSize, totalSize, identifier, filename)
    && chunkNumber <= NumberOfChunks(totalSize, chunkSize)
    && !(maxFileSize > 0 && totalSize > maxFileSize)
  }

  /** The byte size chunk `chunkNumber` must have: a full chunk before the
      last, `totalSize % chunkSize + chunkSize` for the last of several, the
      whole file for a single chunk. */
  function ExpectedChunkSize(totalSize: nat, chunkSize: nat, chunkNumber: nat): (r: nat)
    requires chunkSize > 0
  {
    var n := NumberOfChunks(totalSize, chunkSize);
    if chunkNumber < n then chunkSize
    else if n > 1 then totalSize % chunkSize + chunkSize
    else totalSize
  }

  /** `validateRequest`. `fileSize` is the byte size of the uploaded chunk,
      known on the upload path and absent on the status path. A zero
      `maxFileSize` switches the ceiling off, as the source's `this.maxFileSize &&`
      would. */
  function ValidateRequest(maxFileSize: nat, rule: IdentifierRule, chunkNumber: nat, chunkSize: nat,
                           totalSize: nat, identifier: string, filename: string,
                           fileSize: Option<nat>): (v: Verdict)
    // the rules apply in a fixed order, and the first that fails decides
    ensures v == InvalidRequest <==> !WellFormed(rule, chunkNumber, chunkSize, totalSize, identifier, filename)
    ensures v == InvalidChunk <==>
              WellFormed(rule, chunkNumber, chunkSize, totalSize, identifier, filename)
              && chunkNumber > NumberOfChunks(totalSize, chunkSize)
    ensures v == InvalidRequestFileTooBig <==>
              WellFormed(rule, chunkNumber, chunkSize, totalSize, identifier, filename)
              && chunkNumber <= NumberOfChunks(totalSize, chunkSize)
              && maxFileSize > 0 && totalSize > maxFileSize
    // without a file size only the first three rules can reject
    ensures fileSize == None ==>
              (v == Valid <==> Admissible(maxFileSize, rule, chunkNumber, chunkSize, totalSize, identifier, filename))
    // with one, a chunk is valid exactly when it has the size its position requires
    ensures fileSize.Some? ==>
              (v == Valid <==>
                 Admissible(maxFileSize, rule, chunkNumber, chunkSize, totalSize, identifier, filename)
                 && fileSize.value == ExpectedChunkSize(totalSize, chunkSize, chunkNumber))
    // and each size rule has its own word
    ensures v == ChunkSizeInvalid ==>
              fileSize.Some? && chunkNumber < NumberOfChunks(totalSize, chunkSize) && fileSize.value != chunkSize
    ensures v == FinalChunkSizeInvalid ==>
              fileSize.Some? && 1 < chunkNumber == NumberOfChunks(totalSize, chunkSize)
              && fileSize.value != totalSize % chunkSize + chunkSize
    ensures v == FileSizeInvalid ==>
              fileSize.Some? && NumberOfChunks(totalSize, chunkSize) == 1 && fileSize.value != totalSize
  {
    var cleaned := CleanWith(rule, identifier);
    if chunkNumber == 0 || chunkSize == 0 || totalSize == 0 || |cleaned| == 0 || |filename| == 0 then
      InvalidRequest
    else
      var numberOfChunks := NumberOfChunks(totalSize, chunkSize);
      if chunkNumber > numberOfChunks then InvalidChunk
      else if maxFileSize > 0 && totalSize > maxFileSize then InvalidRequestFileTooBig
      else if fileSize.Some? then
        if chunkNumber < numberOfChunks && fileSize.value != chunkSize then ChunkSizeInvalid
        else if numberOfChunks > 1 && chunkNumber == numberOfChunks
                && fileSize.value != totalSize % chunkSize + chunkSize then FinalChunkSizeInvalid
        else if numberOfChunks == 1 && fileSize.value != totalSize then FileSizeInvalid
        else Valid
      else Valid
  }

  /** The worked example of a 1000-byte file in 300-byte chunks: three chunks,
      a fourth is refused, and the last one carries 400 bytes (not 100). */
  lemma ThousandBytesInThreeHundredByteChunks(rule: IdentifierRule, id: string, filename: string)
    requires CleanWith(rule, id) != [] && filename != []
    ensures NumberOfChunks(1000, 300) == 3
    ensures ValidateRequest(MaxFileSize, rule, 4, 300, 1000, id, filename, None) == InvalidChunk
    ensures ValidateRequest(MaxFileSize, rule, 2, 300, 1000, id, filename, Some(300)) == Valid
    ensures ValidateRequest(MaxFileSize, rule, 2, 300, 1000, id, filename, Some(299)) == ChunkSizeInvalid
    ensures ValidateRequest(MaxFileSize, rule, 3, 300, 1000, id, filename, Some(400)) == Valid
    ensures ValidateRequest(MaxFileSize, rule, 3, 300, 1000, id, filename, Some(100)) == FinalChunkSizeInvalid
    ensures ValidateRequest(MaxFileSize, rule, 1, 300, 300, id, filename, Some(200)) == FileSizeInvalid
  {
  }

  /** `post` validates the identifier it has already cleaned (so it is cleaned
      a second time) and passes the upload's size; `get` validates the raw
      identifier without a size. Whatever `post` accepts, `get` accepts too,
      for either cleaning rule, since cleaning never lengthens a string. */
  lemma PostValidImpliesGetValid(maxFileSize: nat, rule: IdentifierRule, chunkNumber: nat,
                                 chunkSize: nat, totalSize: nat, identifier: string,
                                 filename: string, fileSize: nat)
    requires ValidateRequest(maxFileSize, rule, chunkNumber, chunkSize, totalSize,
                             CleanWith(rule, identifier), filename, Some(fileSize)) == Valid
    ensures ValidateRequest(maxFileSize, rule, chunkNumber, chunkSize, totalSize,
                            identifier, filename, None) == Valid
  {
    assert |CleanWith(rule, CleanWith(rule, identifier))| <= |CleanWith(rule, identifier)|;
  }

  /** The converse fails with the source's cleaning: `get` accepts the
      identifier `0-9A-Za-z_-0-9A-Za-z_-`, but `post`, which cleans it twice,
      sees an empty identifier and answers `INVALID_REQUEST`. */
  lemma AsWrittenPostRejectsWhatGetAccepts(filename: string)
    requires filename != []
    ensures ValidateRequest(MaxFileSize, AsWritten, 1, 1, 1, Pattern + Pattern, filename, None) == Valid
    ensures ValidateRequest(MaxFileSize, AsWritten, 1, 1, 1, CleanWith(AsWritten, Pattern + Pattern),
                            filename, Some(1)) == InvalidRequest
  {
    AsWrittenNotIdempotent();
  }

  /** How a client cuts a file into `count` chunks of `chunkSize` bytes, the
      last one taking the rest. */
  function SplitInto(data: seq<byte>, chunkSize: nat, count: nat): (chunks: seq<seq<byte>>)
    requires chunkSize > 0 && count >= 1 && |data| >= (count - 1) * chunkSize
    ensures |chunks| == count
    decreases count
  {
    if count == 1 then [data]
    else
      assert |data[chunkSize..]| >= (count - 2) * chunkSize;
      [data[..chunkSize]] + SplitInto(data[chunkSize..], chunkSize, count - 1)
  }

  /** The chunks put back together are the file, and each has the length
      its position gives it. */
  lemma {:induction false} SplitIntoFacts(data: seq<byte>, chunkSize: nat, count: nat)
    requires chunkSize > 0 && count >= 1 && |data| >= (count - 1) * chunkSize
    ensures Concat(SplitInto(data, chunkSize, count)) == data
    ensures forall i :: 0 <= i < count - 1 ==> |SplitInto(data, chunkSize, count)[i]| == chunkSize
    ensures |SplitInto(data, chunkSize, count)[count - 1]| == |data| - (count - 1) * chunkSize
    decreases count
  {
    if count > 1 {
      assert |data[chunkSize..]| >= (count - 2) * chunkSize;
      SplitIntoFacts(data[chunkSize..], chunkSize, count - 1);
      var rest := SplitInto(data[chunkSize..], chunkSize, count - 1);
      assert SplitInto(data, chunkSize, count) == [data[..chunkSize]] + rest;
      assert ([data[..chunkSize]] + rest)[1..] == rest;
      assert data == data[..chunkSize] + data[chunkSize..];
    }
  }

  /** Arithmetic behind the split: the first `n - 1` full chunks fit in the
      file, and with several chunks the rest is `totalSize % chunkSize + chunkSize`. */
  lemma ChunksFit(totalSize: nat, chunkSize: nat)
    requires chunkSize > 0
    ensures var n := NumberOfChunks(totalSize, chunkSize);
            totalSize >= (n - 1) * chunkSize
            && (n > 1 ==> totalSize - (n - 1) * chunkSize == totalSize % chunkSize + chunkSize)
  {
    var n := NumberOfChunks(totalSize, chunkSize);
    var q := totalSize / chunkSize;
    assert totalSize == q * chunkSize + totalSize % chunkSize;
    if n > 1 {
      assert n == q;
      assert (n - 1) * chunkSize == n * chunkSize - chunkSize;
    }
  }

  /** Each chunk of the client's split has the size the validator expects
      at its position. */
  lemma SplitSizesExpected(data: seq<byte>, chunkSize: nat, k: nat)
    requires chunkSize > 0
    requires 1 <= k <= NumberOfChunks(|data|, chunkSize)
    ensures |data| >= (NumberOfChunks(|data|, chunkSize) - 1) * chunkSize
    ensures |SplitInto(data, chunkSize, NumberOfChunks(|data|, chunkSize))[k - 1]|
            == ExpectedChunkSize(|data|, chunkSize, k)
  {
    var n := NumberOfChunks(|data|, chunkSize);
    ChunksFit(|data|, chunkSize);
    SplitIntoFacts(data, chunkSize, n);
    if n == 1 {
      assert (n - 1) * chunkSize == 0;
    }
  }

  /** The client's split is what the validator expects: every chunk of a file
      within the ceiling is `Valid`, the last one included. So the final-chunk
      size `totalSize % chunkSize + chunkSize` is exactly the size of the last
      chunk, remainder merged in. */
  lemma SplitChunksAreValid(maxFileSize: nat, rule: IdentifierRule, data: seq<byte>, chunkSize: nat,
                            identifier: string, filename: string, k: nat)
    requires chunkSize > 0 && |data| > 0
    requires CleanWith(rule, identifier) != [] && filename != []
    requires maxFileSize == 0 || |data| <= maxFileSize
    requires 1 <= k <= NumberOfChunks(|data|, chunkSize)
    ensures var n := NumberOfChunks(|data|, chunkSize);
            |data| >= (n - 1) * chunkSize
            && ValidateRequest(maxFileSize, rule, k, chunkSize, |data|, identifier, filename,
                               Some(|SplitInto(data, chunkSize, n)[k - 1]|)) == Valid
  {
    SplitSizesExpected(data, chunkSize, k);
    assert Admissible(maxFileSize, rule, k, chunkSize, |data|, identifier, filename);
  }
}
