/** The `Resumable` class of resumable.js: the chunk store in the temporary
    folder, the upload and status-check paths, the assembler and the cleaner.
    Asynchronous file-system calls run here one after the other. */
module Engine {
  import opened Basics
  import opened Decimal
  import opened Naming
  import opened Validation
  import opened Chunks

  /** A writable stream: the bytes written to it so far, and whether it has
      been ended. */
  class WritableStream {
    var data: seq<byte>
    var ended: bool

    constructor ()
      ensures data == [] && !ended
    {
      data := [];
      ended := false;
    }
  }

  /** What `get` answers: `found` with the chunk's file name, the file name
      and the identifier as sent, or `not_found`. */
  datatype GetResult =
    | Found(chunkFilename: string, filename: string, identifier: string)
    | NotFound

  /** What `post` answers; `identifier` is the cleaned identifier. */
  datatype PostResult =
    | InvalidResumableRequest
    | Rejected(verdict: Verdict, filename: string, identifier: string)
    | PartlyDone(filename: string, identifier: string)
    | Done(filename: string, identifier: string)

  /** `options.end`, which is true when it is not given. */
  function EndsStream(end: Option<bool>): (r: bool)
    ensures r <==> end != Some(false)
  {
    match end
    case None => true
    case Some(b) => b
  }

  class Resumable {
    const temporaryFolder: string
    const maxFileSize: nat
    /** The cleaning applied to identifiers: `AsWritten` is the source's. */
    const rule: IdentifierRule
    /** The files in the temporary folder. */
    var chunkFiles: Store
    /** The files `post` assembles under `./uploads/`, by upload file name. */
    var uploads: map<string, seq<byte>>

    /** The temporary folder is created if missing; whatever it already
        holds stays there. */
    constructor (tempDir: string, identifierRule: IdentifierRule, existing: Store)
      ensures temporaryFolder == tempDir && maxFileSize == MaxFileSize && rule == identifierRule
      ensures chunkFiles == existing && uploads == map[]
    {
      temporaryFolder := tempDir;
      maxFileSize := MaxFileSize;
      rule := identifierRule;
      chunkFiles := existing;
      uploads := map[];
    }

    /** The validator's answer on the upload path: `post` hands it the
        identifier it has already cleaned, and the upload's byte size. */
    function UploadVerdict(chunkNumber: nat, chunkSize: nat, totalSize: nat, identifier: string,
                           filename: string, data: seq<byte>): (v: Verdict)
    {
      ValidateRequest(maxFileSize, rule, chunkNumber, chunkSize, totalSize,
                      CleanWith(rule, identifier), filename, Some(|data|))
    }

    /** An upload with a non-empty file that the validator refuses. */
    predicate Refused(chunkNumber: nat, chunkSize: nat, totalSize: nat, identifier: string,
                      filename: string, upload: Option<seq<byte>>)
    {
      upload.Some? && upload.value != []
      && UploadVerdict(chunkNumber, chunkSize, totalSize, identifier, filename, upload.value) != Valid
    }

    /** An upload with a non-empty file that the validator accepts. */
    predicate Accepted(chunkNumber: nat, chunkSize: nat, totalSize: nat, identifier: string,
                       filename: string, upload: Option<seq<byte>>)
    {
      upload.Some? && upload.value != []
      && UploadVerdict(chunkNumber, chunkSize, totalSize, identifier, filename, upload.value) == Valid
    }

    /** The status check: is this chunk already on the server? It changes
        nothing. */
    method Get(chunkNumber: nat, chunkSize: nat, totalSize: nat, identifier: string, filename: string)
      returns (r: GetResult)
      ensures r.Found? <==>
                ValidateRequest(maxFileSize, rule, chunkNumber, chunkSize, totalSize, identifier, filename, None) == Valid
                && ChunkFilename(temporaryFolder, rule, identifier, chunkNumber) in chunkFiles
      ensures r.Found? ==> r == Found(ChunkFilename(temporaryFolder, rule, identifier, chunkNumber), filename, identifier)
    {
      if ValidateRequest(maxFileSize, rule, chunkNumber, chunkSize, totalSize, identifier, filename, None) == Valid {
        var chunkFilename := ChunkFilename(temporaryFolder, rule, identifier, chunkNumber);
        if chunkFilename in chunkFiles {
          r := Found(chunkFilename, filename, identifier);
        } else {
          r := NotFound;
        }
      } else {
        r := NotFound;
      }
    }

    /** The upload of one chunk. `upload` is the uploaded file's contents, or
        `None` when the request carries no file. */
    method Post(chunkNumber: nat, chunkSize: nat, totalSize: nat, identifier: string, filename: string,
                upload: Option<seq<byte>>) returns (r: PostResult)
      modifies this
      // no file, or an empty one: refused before validation, nothing changes
      ensures upload == None || upload.value == [] ==>
                r == InvalidResumableRequest && chunkFiles == old(chunkFiles) && uploads == old(uploads)
      // refused by the validator (which sees the cleaned identifier): nothing changes
      ensures Refused(chunkNumber, chunkSize, totalSize, identifier, filename, upload) ==>
                var cleaned := CleanWith(rule, identifier);
                r == Rejected(UploadVerdict(chunkNumber, chunkSize, totalSize, identifier, filename, upload.value),
                              filename, cleaned)
                && chunkFiles == old(chunkFiles) && uploads == old(uploads)
      // accepted: the chunk file is (over)written, nothing else in the folder changes
      ensures Accepted(chunkNumber, chunkSize, totalSize, identifier, filename, upload) ==>
                chunkFiles == old(chunkFiles)[ChunkFilename(temporaryFolder, rule, CleanWith(rule, identifier), chunkNumber)
                                              := upload.value]
      // and the answer is `done` exactly when chunks 1 to N all exist
      ensures Accepted(chunkNumber, chunkSize, totalSize, identifier, filename, upload) ==>
                var cleaned := CleanWith(rule, identifier);
                && (r == Done(filename, cleaned) || r == PartlyDone(filename, cleaned))
                && (r.Done? <==> AllPresent(chunkFiles, ChunkPrefix(temporaryFolder, rule, cleaned),
                                            NumberOfChunks(totalSize, chunkSize)))
      // in which case the chunks, in order, are written to `./uploads/<filename>`
      ensures Accepted(chunkNumber, chunkSize, totalSize, identifier, filename, upload) ==>
                uploads == if r.Done?
                           then old(uploads)[filename := Assembled(chunkFiles, ChunkPrefix(temporaryFolder, rule, CleanWith(rule, identifier)))]
                           else old(uploads)
    {
      var cleaned := CleanWith(rule, identifier);
      if upload == None || |upload.value| == 0 {
        return InvalidResumableRequest;
      }
      var validation := ValidateRequest(maxFileSize, rule, chunkNumber, chunkSize, totalSize,
                                        cleaned, filename, Some(|upload.value|));
      if validation != Valid {
        assert Refused(chunkNumber, chunkSize, totalSize, identifier, filename, upload);
        return Rejected(validation, filename, cleaned);
      }
      assert Accepted(chunkNumber, chunkSize, totalSize, identifier, filename, upload);
      var chunkFilename := ChunkFilename(temporaryFolder, rule, cleaned, chunkNumber);
      chunkFiles := chunkFiles[chunkFilename := upload.value];
      ghost var stored := chunkFiles;

      // Do we have all the chunks?
      var prefix := ChunkPrefix(temporaryFolder, rule, cleaned);
      var currentTestChunk := 1;
      var numberOfChunks := NumberOfChunks(totalSize, chunkSize);
      while true
        invariant 1 <= currentTestChunk <= numberOfChunks
        invariant chunkFiles == stored && uploads == old(uploads)
        invariant AllPresent(stored, prefix, currentTestChunk - 1)
        decreases numberOfChunks - currentTestChunk
      {
        if ChunkFilename(temporaryFolder, rule, cleaned, currentTestChunk) !in chunkFiles {
          assert !AllPresent(stored, prefix, numberOfChunks);
          return PartlyDone(filename, cleaned);
        }
        currentTestChunk := currentTestChunk + 1;
        if currentTestChunk > numberOfChunks {
          var stream := new WritableStream();
          Write(cleaned, stream, None);
          assert stream.data == Assembled(stored, prefix);
          uploads := uploads[filename := stream.data];
          assert AllPresent(stored, prefix, numberOfChunks);
          return Done(filename, cleaned);
        }
      }
    }

    /** The assembler: chunks 1, 2, ... in order into `stream`, stopping at
        the first missing number, then ends the stream unless told not to.
        The folder is only read. */
    method Write(identifier: string, stream: WritableStream, end: Option<bool>)
      requires !stream.ended
      modifies stream
      ensures stream.data == old(stream.data) + Assembled(chunkFiles, ChunkPrefix(temporaryFolder, rule, identifier))
      ensures stream.ended == EndsStream(end)
    {
      var prefix := ChunkPrefix(temporaryFolder, rule, identifier);
      var number := 1;
      var chunkFilename := ChunkFilename(temporaryFolder, rule, identifier, number);
      while chunkFilename in chunkFiles
        invariant number >= 1 && !stream.ended
        invariant chunkFilename == prefix + NatToString(number)
        invariant old(stream.data) + Assembled(chunkFiles, prefix) == stream.data + Concat(Run(chunkFiles, prefix, number))
        decreases chunkFiles.Keys - KeysBelow(prefix, number)
      {
        RunStep(chunkFiles, prefix, number);
        stream.data := stream.data + chunkFiles[chunkFilename];
        number := number + 1;
        chunkFilename := ChunkFilename(temporaryFolder, rule, identifier, number);
      }
      if EndsStream(end) {
        stream.ended := true;
      }
    }

    /** The cleaner: deletes chunk files 1, 2, ... until the first missing
        number. Nothing else in the folder changes. */
    method Clean(identifier: string)
      modifies this`chunkFiles
      ensures chunkFiles == Cleaned(old(chunkFiles), ChunkPrefix(temporaryFolder, rule, identifier))
    {
      var prefix := ChunkPrefix(temporaryFolder, rule, identifier);
      var number := 1;
      var chunkFilename := ChunkFilename(temporaryFolder, rule, identifier, number);
      while chunkFilename in chunkFiles
        invariant number >= 1
        invariant chunkFilename == prefix + NatToString(number)
        invariant chunkFiles == old(chunkFiles) - KeysBelow(prefix, number)
        invariant AllPresent(old(chunkFiles), prefix, number - 1)
        decreases chunkFiles.Keys
      {
        CleanStep(old(chunkFiles), prefix, number);
        chunkFiles := chunkFiles - {chunkFilename};
        number := number + 1;
        chunkFilename := ChunkFilename(temporaryFolder, rule, identifier, number);
      }
      KeysBelowStep(prefix, number);
      FirstGapAt(old(chunkFiles), prefix, number);
    }
  }
}
