/**
 * The client's upload requests. A file of at most 1 MiB goes to the server in
 * one request (`uploadFile`); a larger one is cut into 1 MiB chunks sent one
 * after another, aborting at the first response that is not ok
 * (`uploadFileChunks`). The network is a parameter: `respond` gives the
 * server's response to each request.
 */
module FilesApi {
  import opened FileInfo
  import Decimal
  import Units

  // ---------------------------------------------------------------------------
  // Responses and outcomes

  /** An HTTP response: its status and, for a whole-file upload, the decoded `message` of its body. */
  datatype Response = Response(status: nat, message: string)

  /** `response.ok`: a status in the range 200-299. */
  predicate IsOk(response: Response) {
    200 <= response.status <= 299
  }

  /** How an upload call settles: resolved with a message, or rejected with an error text. */
  datatype Outcome = Uploaded(message: string) | Failed(error: string)

  const HttpErrorPrefix := "HTTP error! status: "

  /** The text of the error thrown for a response that is not ok. */
  function HttpError(status: nat): (e: string)
    ensures |e| > |HttpErrorPrefix| && e[..|HttpErrorPrefix|] == HttpErrorPrefix
  {
    HttpErrorPrefix + Decimal.NatToString(status)
  }

  /** The status can be read back from the error text: distinct statuses give distinct errors. */
  lemma HttpErrorStatus(status: nat)
    ensures Decimal.AllDigits(HttpError(status)[|HttpErrorPrefix|..])
    ensures Decimal.DigitsValue(HttpError(status)[|HttpErrorPrefix|..]) == status
  {
    var digits := Decimal.NatToString(status);
    assert HttpError(status)[|HttpErrorPrefix|..] == digits;
    Decimal.NatToStringRoundTrip(status);
  }

  const ChunkUploadedMessage := "File uploaded successfully"

  // ---------------------------------------------------------------------------
  // Whole-file upload

  /**
   * `uploadFile`: one request carrying the whole file; a response that is not
   * ok rejects with its status, otherwise the server's message is the result.
   */
  function UploadFile(file: File, respond: File -> Response): (r: Outcome)
    ensures r.Uploaded? <==> IsOk(respond(file))
    ensures r.Uploaded? ==> r.message == respond(file).message
    ensures r.Failed? ==> r.error == HttpError(respond(file).status)
  {
    var response := respond(file);
    if !IsOk(response) then Failed(HttpError(response.status))
    else Uploaded(response.message)
  }

  // ---------------------------------------------------------------------------
  // The chunk plan

  /** `chunkSize`: 1 MiB. */
  const ChunkSize: nat := Units.MiB

  /** `Math.ceil(size / chunkSize)`. */
  function TotalChunks(size: nat): nat {
    (size + ChunkSize - 1) / ChunkSize
  }

  /** `TotalChunks` is the ceiling: the fewest chunks of 1 MiB that hold `size` bytes. */
  lemma TotalChunksIsCeiling(size: nat)
    ensures TotalChunks(size) * ChunkSize >= size
    ensures TotalChunks(size) > 0 ==> (TotalChunks(size) - 1) * ChunkSize < size
    ensures TotalChunks(size) == 0 <==> size == 0
  {
  }

  /**
   * The form sent for one chunk: the file's name, the byte range
   * `[start, end)` that `file.slice` cuts, the chunk's index and the number of
   * chunks.
   */
  datatype ChunkRequest = ChunkRequest(fileName: string, start: nat, end: nat, currentChunkIndex: nat, totalChunks: nat)

  function Min(a: nat, b: nat): nat {
    if a <= b then a else b
  }

  /** The request for chunk `index`: `file.slice(index * chunkSize, (index + 1) * chunkSize)`. */
  function ChunkAt(file: File, index: nat): (c: ChunkRequest)
    requires index < TotalChunks(file.size)
    ensures c.start < c.end <= file.size
  {
    TotalChunksIsCeiling(file.size);
    IndexStart(index, TotalChunks(file.size));
    ChunkRequest(file.name, index * ChunkSize, Min((index + 1) * ChunkSize, file.size), index, TotalChunks(file.size))
  }

  /** A chunk index below the count starts inside the file. */
  lemma IndexStart(index: nat, total: nat)
    requires index < total
    ensures index * ChunkSize <= (total - 1) * ChunkSize
  {
  }

  /** Every request the loop would send when every response is ok, in order. */
  function ChunkPlan(file: File): (plan: seq<ChunkRequest>)
    ensures |plan| == TotalChunks(file.size)
  {
    seq(TotalChunks(file.size), i requires 0 <= i < TotalChunks(file.size) => ChunkAt(file, i))
  }

  /**
   * The requests are numbered 0, 1, ... in order, carry the file's name and
   * the same chunk count, and their byte ranges follow each other without
   * gap or overlap from 0 to the file's size; every chunk but the last is
   * exactly 1 MiB and the last one is not empty.
   */
  lemma ChunkPlanTiles(file: File)
    ensures var plan := ChunkPlan(file);
            && (forall i :: 0 <= i < |plan| ==>
                  plan[i].currentChunkIndex == i && plan[i].totalChunks == |plan| && plan[i].fileName == file.name)
            && (|plan| > 0 ==> plan[0].start == 0 && plan[|plan| - 1].end == file.size)
            && (forall i :: 0 <= i < |plan| - 1 ==> plan[i].end == plan[i + 1].start)
            && (forall i :: 0 <= i < |plan| - 1 ==> plan[i].end - plan[i].start == ChunkSize)
            && (|plan| > 0 ==> 0 < plan[|plan| - 1].end - plan[|plan| - 1].start <= ChunkSize)
  {
    var plan := ChunkPlan(file);
    var total := |plan|;
    TotalChunksIsCeiling(file.size);
    forall i | 0 <= i < total - 1
      ensures plan[i].end == plan[i + 1].start && plan[i].end - plan[i].start == ChunkSize
    {
      IndexStart(i + 1, total);
    }
    if total > 0 {
      IndexStart(total - 1, total);
    }
  }

  /** Each byte of the file lies in exactly one chunk: the one numbered `byte / chunkSize`. */
  lemma ByteInExactlyOneChunk(file: File, byte: nat, i: nat)
    requires byte < file.size && i < TotalChunks(file.size)
    ensures ChunkPlan(file)[i].start <= byte < ChunkPlan(file)[i].end <==> i == byte / ChunkSize
  {
    var c := ChunkPlan(file)[i];
    var q := byte / ChunkSize;
    assert q * ChunkSize <= byte < q * ChunkSize + ChunkSize;
    if i < q {
      assert c.end <= (i + 1) * ChunkSize <= q * ChunkSize;
    } else if i > q {
      assert c.start == i * ChunkSize >= (q + 1) * ChunkSize;
    }
  }

  /** The bytes the chunks carry, laid one after another. */
  function Reassemble<T>(content: seq<T>, chunks: seq<ChunkRequest>): seq<T>
    requires forall c :: c in chunks ==> c.start <= c.end <= |content|
  {
    if |chunks| == 0 then []
    else Reassemble(content, chunks[..|chunks| - 1]) + content[chunks[|chunks| - 1].start..chunks[|chunks| - 1].end]
  }

  /** Laying the chunks' slices of a file's content end to end gives back the content. */
  lemma ChunksReassemble<T>(file: File, content: seq<T>)
    requires |content| == file.size
    ensures forall c :: c in ChunkPlan(file) ==> c.start <= c.end <= |content|
    ensures Reassemble(content, ChunkPlan(file)) == content
  {
    var plan := ChunkPlan(file);
    ChunkPlanTiles(file);
    ReassemblePrefix(file, content, |plan|);
    if |plan| == 0 {
      TotalChunksIsCeiling(file.size);
    }
    assert plan[..|plan|] == plan;
  }

  lemma {:induction false} ReassemblePrefix<T>(file: File, content: seq<T>, k: nat)
    requires |content| == file.size && k <= TotalChunks(file.size)
    ensures forall c :: c in ChunkPlan(file)[..k] ==> c.start <= c.end <= |content|
    ensures Reassemble(content, ChunkPlan(file)[..k]) == content[..if k == 0 then 0 else ChunkPlan(file)[k - 1].end]
    decreases k
  {
    var plan := ChunkPlan(file);
    if k > 0 {
      ReassemblePrefix(file, content, k - 1);
      assert plan[..k][..k - 1] == plan[..k - 1];
      var last := plan[k - 1];
      var before := if k - 1 == 0 then 0 else plan[k - 2].end;
      assert last.start == before by {
        if k >= 2 {
          TotalChunksIsCeiling(file.size);
          IndexStart(k - 1, TotalChunks(file.size));
        }
      }
      assert content[..before] + content[before..last.end] == content[..last.end];
    }
  }

  // ---------------------------------------------------------------------------
  // Progress

  /** The percentage reported after chunk `index` of `total` succeeds: `(index + 1) / totalChunks * 100`. */
  function ProgressValue(index: nat, total: nat): real
    requires total > 0
  {
    ((index + 1) as real / total as real) * 100.0
  }

  /** Every percentage reported when all `total` chunks succeed, in order. */
  function ProgressValues(total: nat): (values: seq<real>)
    ensures |values| == total
  {
    seq(total, i requires 0 <= i < total => ProgressValue(i, total))
  }

  /** The reported percentages rise strictly, stay within (0, 100], and the last is exactly 100. */
  lemma ProgressRisesToHundred(total: nat)
    ensures var values := ProgressValues(total);
            && (forall i, j :: 0 <= i < j < total ==> values[i] < values[j])
            && (forall i :: 0 <= i < total ==> 0.0 < values[i] <= 100.0)
            && (total > 0 ==> values[total - 1] == 100.0)
  {
    var values := ProgressValues(total);
    forall i, j | 0 <= i < j < total
      ensures values[i] < values[j]
    {
      RatioMonotone(i + 1, j + 1, total);
    }
    forall i | 0 <= i < total
      ensures 0.0 < values[i] <= 100.0
    {
      RatioMonotone(0, i + 1, total);
      RatioAtMost(i + 1, total);
    }
  }

  lemma RatioMonotone(a: nat, b: nat, total: nat)
    requires a < b && total > 0
    ensures (a as real / total as real) * 100.0 < (b as real / total as real) * 100.0
  {
  }

  lemma RatioAtMost(a: nat, total: nat)
    requires a <= total && total > 0
    ensures (a as real / total as real) * 100.0 <= 100.0
  {
  }

  // ---------------------------------------------------------------------------
  // Chunked upload

  /**
   * The number of leading requests of `plan` the server accepts: the index of
   * the first response that is not ok, or `|plan|` when there is none.
   */
  function AcceptedPrefix(plan: seq<ChunkRequest>, respond: ChunkRequest -> Response): (k: nat)
    ensures k <= |plan|
    ensures forall j :: 0 <= j < k ==> IsOk(respond(plan[j]))
    ensures k < |plan| ==> !IsOk(respond(plan[k]))
  {
    if |plan| == 0 || !IsOk(respond(plan[0])) then 0
    else 1 + AcceptedPrefix(plan[1..], respond)
  }

  /**
   * `uploadFileChunks`: sends the chunks of `file` in order and stops at the
   * first response that is not ok, rejecting with its status. `sent` lists the
   * requests made and `progress` the values handed to `onProgress`, which is
   * called only when `hasOnProgress` holds. With every response ok the call
   * resolves with a fixed message, whatever the server answered.
   */
  method UploadFileChunks(file: File, respond: ChunkRequest -> Response, hasOnProgress: bool)
    returns (outcome: Outcome, sent: seq<ChunkRequest>, progress: seq<real>)
    ensures var plan, k := ChunkPlan(file), AcceptedPrefix(ChunkPlan(file), respond);
            && (k == |plan| ==> outcome == Uploaded(ChunkUploadedMessage) && sent == plan)
            && (k < |plan| ==> outcome == Failed(HttpError(respond(plan[k]).status)) && sent == plan[..k + 1])
            && progress == (if hasOnProgress then ProgressValues(|plan|)[..k] else [])
  {
    var total := TotalChunks(file.size);
    var plan := ChunkPlan(file);
    ghost var k := AcceptedPrefix(plan, respond);
    AcceptedPrefixIsFirstFailure(plan, respond);
    sent, progress := [], [];
    var index := 0;
    while index < total
      invariant index <= k && index <= total
      invariant sent == plan[..index]
      invariant progress == (if hasOnProgress then ProgressValues(total)[..index] else [])
    {
      var chunk := ChunkAt(file, index);
      assert chunk == plan[index];
      PrefixGrows(plan, index);
      sent := sent + [chunk];
      var response := respond(chunk);
      if !IsOk(response) {
        assert index == k;
        return Failed(HttpError(response.status)), sent, progress;
      }
      var percentage := ((index + 1) as real / total as real) * 100.0;
      if hasOnProgress {
        assert percentage == ProgressValues(total)[index];
        PrefixGrows(ProgressValues(total), index);
        progress := progress + [percentage];
      }
      index := index + 1;
    }
    assert sent == plan;
    outcome := Uploaded(ChunkUploadedMessage);
  }

  lemma PrefixGrows<T>(s: seq<T>, i: nat)
    requires i < |s|
    ensures s[..i] + [s[i]] == s[..i + 1]
  {
  }

  /** `AcceptedPrefix` is the first failure: no response before it fails, and any failure is at or after it. */
  lemma AcceptedPrefixIsFirstFailure(plan: seq<ChunkRequest>, respond: ChunkRequest -> Response)
    ensures forall j :: 0 <= j < |plan| && !IsOk(respond(plan[j])) ==> AcceptedPrefix(plan, respond) <= j
  {
  }

  /**
   * A chunked upload succeeds exactly when the server accepts every chunk; a
   * failed one sent at least one request, and each request it sent before the
   * last was accepted.
   */
  lemma ChunkedOutcome(file: File, respond: ChunkRequest -> Response)
    ensures var plan, k := ChunkPlan(file), AcceptedPrefix(ChunkPlan(file), respond);
            k == |plan| <==> forall j :: 0 <= j < |plan| ==> IsOk(respond(plan[j]))
  {
    AcceptedPrefixIsFirstFailure(ChunkPlan(file), respond);
  }

  /** An empty file sends no request and still resolves with the fixed message. */
  lemma EmptyFileSendsNothing(file: File, respond: ChunkRequest -> Response)
    requires file.size == 0
    ensures ChunkPlan(file) == []
    ensures AcceptedPrefix(ChunkPlan(file), respond) == 0
  {
  }

  // ---------------------------------------------------------------------------
  // Routing

  datatype Transfer = Whole | Chunked

  /** A file larger than 1 MiB goes in chunks, any other in one request. */
  function ChooseTransfer(size: nat): (t: Transfer)
    ensures t == Chunked <==> size > Units.MiB
  {
    if size > Units.MiB then Chunked else Whole
  }

  /**
   * As the threshold equals the chunk size, a chunked upload always has at
   * least two chunks, and a non-empty file sent whole would have been one
   * chunk.
   */
  lemma TransferThresholdMatchesChunkSize(size: nat)
    ensures ChooseTransfer(size) == Chunked ==> TotalChunks(size) >= 2
    ensures ChooseTransfer(size) == Whole && size > 0 ==> TotalChunks(size) == 1
  {
    TotalChunksIsCeiling(size);
  }

  /**
   * The upload of one file as the upload hook starts it: whole or chunked by
   * size, the chunked path without a progress callback.
   */
  method UploadOne(file: File, respondWhole: File -> Response, respondChunk: ChunkRequest -> Response)
    returns (outcome: Outcome, sent: seq<ChunkRequest>)
    ensures ChooseTransfer(file.size) == Whole ==> outcome == UploadFile(file, respondWhole) && sent == []
    ensures ChooseTransfer(file.size) == Chunked ==>
              (outcome.Uploaded? <==> forall j :: 0 <= j < |ChunkPlan(file)| ==> IsOk(respondChunk(ChunkPlan(file)[j])))
    ensures ChooseTransfer(file.size) == Chunked ==> 1 <= |sent| <= |ChunkPlan(file)| && sent == ChunkPlan(file)[..|sent|]
  {
    if ChooseTransfer(file.size) == Chunked {
      var progress;
      outcome, sent, progress := UploadFileChunks(file, respondChunk, false);
      ChunkedOutcome(file, respondChunk);
      TransferThresholdMatchesChunkSize(file.size);
    } else {
      outcome := UploadFile(file, respondWhole);
      sent := [];
    }
  }
}
