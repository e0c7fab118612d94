/** CSharpHash.Services: the streaming SHA-256 engine of HashingService.cs.

    A file is read chunk by chunk into one reused buffer; each chunk is appended to an
    incremental SHA-256 accumulator, a running `processed` count is kept, and progress is
    reported to an observer on a throttle. The finished digest is rendered as lowercase hex
    and as base64. The SHA-256 primitive itself is a parameter of the service: nothing about
    it is assumed except that it is a function of the bytes appended. */
module Services {
  import opened Wrappers
  import opened Text
  import opened Encoding
  import opened Arithmetic

  /** A SHA-256 digest: 32 bytes. */
  type Digest = d: seq<bv8> | |d| == 32 witness seq(32, _ => 0 as bv8)

  /** C#'s `int`. */
  type Int32 = x: int | -0x8000_0000 <= x < 0x8000_0000

  /** The buffer size a new service starts with: 2 MiB. */
  const DefaultBufferSize: Int32 := 2 * 1024 * 1024

  /** `x` after the wrap-around of unchecked 32-bit `int` arithmetic. */
  function Wrap32(x: int): (r: Int32)
    ensures (x - r) % 0x1_0000_0000 == 0
  {
    var m := x % 0x1_0000_0000;
    if m < 0x8000_0000 then m else m - 0x1_0000_0000
  }

  function Abs(x: int): nat {
    if x < 0 then -x else x
  }

  /** The throttle modulus: `bufferSize * factor` as C# computes it in `int`, taken as the
      divisor of `processed % (...) == 0` (with a negative divisor the test asks the same
      question as with its absolute value). 0 means the remainder throws. */
  function ThrottleModulus(bufferSize: Int32, factor: nat): nat {
    Abs(Wrap32(bufferSize * factor))
  }

  /** For every buffer size below 512 MiB the incremental variant's modulus is four buffers. */
  lemma FourBufferModulus(bufferSize: Int32)
    requires 0 < bufferSize < 0x2000_0000
    ensures ThrottleModulus(bufferSize, 4) == 4 * bufferSize
  {
  }

  /** The incremental variant's divisor is zero exactly at a buffer size of 1 GiB: 4 * 2^30
      wraps to 0 and the remainder throws after the first read. */
  lemma FourBufferModulusZero(bufferSize: Int32)
    requires 0 < bufferSize
    ensures ThrottleModulus(bufferSize, 4) == 0 <==> bufferSize == 0x4000_0000
  {
  }

  /** The alternate variant's divisor, twice the buffer size, never wraps to zero. */
  lemma TwoBufferModulusPositive(bufferSize: Int32)
    requires 0 < bufferSize
    ensures ThrottleModulus(bufferSize, 2) > 0
  {
  }

  /** What a completed run returns. `elapsed` is the stopwatch reading in ticks. */
  datatype HashResult = HashResult(hex: string, base64: string, elapsed: int, bytes: int, path: string)

  /** The exceptions a run can end with, other than cancellation. */
  datatype Fault =
    | InvalidPath                 // ArgumentException: the path is null, empty or white space
    | OpenFailed(reason: string)  // the file could not be opened: not found, access denied, ...
    | ReadFailed(reason: string)  // a read threw part-way through the file
    | BufferRejected(reason: string) // a buffer of negative size could not be allocated
    | DivideByZero                // the throttle divisor wrapped to 0
  {
    /** `Exception.Message` of the fault. */
    function Message(): string {
      match this
      case InvalidPath => "File path must be provided (Parameter 'filePath')"
      case OpenFailed(reason) => reason
      case ReadFailed(reason) => reason
      case BufferRejected(reason) => reason
      case DivideByZero => "Attempted to divide by zero."
    }
  }

  /** How a run ends: a result, an OperationCanceledException, or another exception. */
  datatype Outcome = Completed(result: HashResult) | Canceled | Faulted(fault: Fault)

  /** What the stream does once its data reads are exhausted. */
  datatype StreamEnd = EndOfFile | ReadError(reason: string)

  /** What opening the path gives: an error, or a stream with its up-front `Length`, the
      successive non-empty reads it delivers, and how it ends after them. */
  datatype FileEntry =
    | Unopenable(reason: string)
    | Openable(length: int, chunks: seq<seq<bv8>>, end: StreamEnd)

  /** When the caller's token is cancelled: never, before the run starts, or before
      read `j` (counting from 0) begins. */
  datatype Cancellation = NotRequested | BeforeStart | BeforeRead(j: nat)

  /** Whether a check made at read `i` sees the token cancelled. */
  predicate Observed(cancel: Cancellation, i: nat) {
    match cancel
    case NotRequested => false
    case BeforeStart => true
    case BeforeRead(j) => j <= i
  }

  /** The first of the checks at reads 0 .. n-1 that sees the token cancelled, or n if none does. */
  function CancelPoint(cancel: Cancellation, n: nat): (c: nat)
    ensures c <= n
    ensures forall i :: 0 <= i < c ==> !Observed(cancel, i)
    ensures c < n ==> Observed(cancel, c)
  {
    match cancel
    case NotRequested => n
    case BeforeStart => 0
    case BeforeRead(j) => if j < n then j else n
  }

  /** The Stream.Read contract for a buffer of `bufferSize` bytes: every read that delivers
      data delivers between 1 and `bufferSize` bytes. */
  predicate ReadsFit(chunks: seq<seq<bv8>>, bufferSize: int) {
    forall i :: 0 <= i < |chunks| ==> 0 < |chunks[i]| <= bufferSize
  }

  /** All the bytes of the chunks, in order. */
  function Flatten(chunks: seq<seq<bv8>>): seq<bv8> {
    if chunks == [] then [] else Flatten(chunks[..|chunks| - 1]) + chunks[|chunks| - 1]
  }

  /** The total of the read counts. */
  function Sum(chunks: seq<seq<bv8>>): nat {
    if chunks == [] then 0 else Sum(chunks[..|chunks| - 1]) + |chunks[|chunks| - 1]|
  }

  /** The throttle: report once `processed` is a multiple of the modulus, or after a short read. */
  predicate Throttled(processed: int, read: int, bufferSize: int, modulus: nat)
    requires modulus > 0
  {
    processed % modulus == 0 || read < bufferSize
  }

  /** The values reported to the observer while the chunks are processed, in order. */
  function Reports(chunks: seq<seq<bv8>>, bufferSize: int, modulus: nat): seq<int>
    requires modulus > 0
  {
    if chunks == [] then []
    else
      Reports(chunks[..|chunks| - 1], bufferSize, modulus)
        + (if Throttled(Sum(chunks), |chunks[|chunks| - 1]|, bufferSize, modulus) then [Sum(chunks)] else [])
  }

  /** One iteration of a read loop: read i extends the bytes hashed by its chunk and the
      count by its length. */
  lemma StepData(chunks: seq<seq<bv8>>, i: nat)
    requires i < |chunks|
    ensures Flatten(chunks[..i + 1]) == Flatten(chunks[..i]) + chunks[i]
    ensures Sum(chunks[..i + 1]) == Sum(chunks[..i]) + |chunks[i]|
  {
    assert chunks[..i + 1][..i] == chunks[..i];
  }

  /** The same iteration's report: the new count is appended exactly when the throttle lets
      it through. */
  lemma Step(chunks: seq<seq<bv8>>, i: nat, bufferSize: int, modulus: nat)
    requires i < |chunks| && modulus > 0
    ensures Reports(chunks[..i + 1], bufferSize, modulus) == Reports(chunks[..i], bufferSize, modulus)
      + (if Throttled(Sum(chunks[..i + 1]), |chunks[i]|, bufferSize, modulus) then [Sum(chunks[..i + 1])] else [])
  {
    assert chunks[..i + 1][..i] == chunks[..i];
  }

  /** `processed` is the number of bytes appended. */
  lemma {:induction false} FlattenLength(chunks: seq<seq<bv8>>)
    ensures |Flatten(chunks)| == Sum(chunks)
  {
    if chunks != [] {
      FlattenLength(chunks[..|chunks| - 1]);
    }
  }

  predicate NonEmptyReads(chunks: seq<seq<bv8>>) {
    forall i :: 0 <= i < |chunks| ==> |chunks[i]| > 0
  }

  lemma {:induction false} SumPrefixLess(chunks: seq<seq<bv8>>, k: nat)
    requires k <= |chunks| && NonEmptyReads(chunks)
    ensures Sum(chunks[..k]) <= Sum(chunks)
    ensures k < |chunks| ==> Sum(chunks[..k]) < Sum(chunks)
    decreases |chunks|
  {
    if k < |chunks| {
      var init := chunks[..|chunks| - 1];
      assert init[..k] == chunks[..k];
      SumPrefixLess(init, k);
    } else {
      assert chunks[..k] == chunks;
    }
  }

  /** Every reported value is a count reached so far, and the reports strictly increase. */
  lemma {:induction false} ReportsAscend(chunks: seq<seq<bv8>>, bufferSize: int, modulus: nat)
    requires modulus > 0 && NonEmptyReads(chunks)
    ensures var r := Reports(chunks, bufferSize, modulus);
      forall k :: 0 <= k < |r| ==> 0 < r[k] <= Sum(chunks)
    ensures var r := Reports(chunks, bufferSize, modulus);
      forall i, j :: 0 <= i < j < |r| ==> r[i] < r[j]
  {
    if chunks != [] {
      var init := chunks[..|chunks| - 1];
      assert NonEmptyReads(init);
      ReportsAscend(init, bufferSize, modulus);
      SumPrefixLess(chunks, |chunks| - 1);
      TailReport(chunks, bufferSize, modulus);
    }
  }

  /** The reports over all the reads: those over all but the last, then possibly the total,
      which exceeds every earlier one. */
  lemma TailReport(chunks: seq<seq<bv8>>, bufferSize: int, modulus: nat)
    requires modulus > 0 && chunks != [] && NonEmptyReads(chunks)
    requires var init := chunks[..|chunks| - 1]; var r := Reports(init, bufferSize, modulus);
      Sum(init) < Sum(chunks) && forall k :: 0 <= k < |r| ==> 0 < r[k] <= Sum(init)
    ensures var init := chunks[..|chunks| - 1]; var r0 := Reports(init, bufferSize, modulus);
      var r := Reports(chunks, bufferSize, modulus);
      (r == r0 || r == r0 + [Sum(chunks)]) && Sum(chunks) !in r0 && 0 < Sum(chunks)
  {
  }

  /** The count after read k is reported exactly when the throttle lets it through. */
  lemma {:induction false} ReportedIff(chunks: seq<seq<bv8>>, bufferSize: int, modulus: nat, k: nat)
    requires modulus > 0 && NonEmptyReads(chunks) && 0 < k <= |chunks|
    ensures Sum(chunks[..k]) in Reports(chunks, bufferSize, modulus)
      <==> Throttled(Sum(chunks[..k]), |chunks[k - 1]|, bufferSize, modulus)
    decreases |chunks|
  {
    var init := chunks[..|chunks| - 1];
    assert NonEmptyReads(init);
    ReportsAscend(init, bufferSize, modulus);
    SumPrefixLess(chunks, |chunks| - 1);
    TailReport(chunks, bufferSize, modulus);
    if k == |chunks| {
      assert chunks[..k] == chunks;
    } else {
      assert init[..k] == chunks[..k];
      SumPrefixLess(init, k);
      ReportedIff(init, bufferSize, modulus, k);
    }
  }

  /** The reports made over the first c reads are the first reports of the whole run. */
  lemma {:induction false} ReportsPrefix(chunks: seq<seq<bv8>>, bufferSize: int, modulus: nat, c: nat)
    requires modulus > 0 && c <= |chunks|
    ensures Reports(chunks[..c], bufferSize, modulus) <= Reports(chunks, bufferSize, modulus)
    decreases |chunks|
  {
    if c < |chunks| {
      var init := chunks[..|chunks| - 1];
      assert init[..c] == chunks[..c];
      ReportsPrefix(init, bufferSize, modulus, c);
    } else {
      assert chunks[..c] == chunks;
    }
  }

  /** The data appended over the first c reads is a prefix of all the data. */
  lemma {:induction false} FlattenPrefix(chunks: seq<seq<bv8>>, c: nat)
    requires c <= |chunks|
    ensures Flatten(chunks[..c]) <= Flatten(chunks)
    decreases |chunks|
  {
    if c < |chunks| {
      var init := chunks[..|chunks| - 1];
      assert init[..c] == chunks[..c];
      FlattenPrefix(init, c);
    } else {
      assert chunks[..c] == chunks;
    }
  }

  lemma {:induction false} FlattenCons(c: seq<bv8>, rest: seq<seq<bv8>>)
    ensures Flatten([c] + rest) == c + Flatten(rest)
    decreases |rest|
  {
    if rest != [] {
      var all := [c] + rest;
      assert all[..|all| - 1] == [c] + rest[..|rest| - 1];
      FlattenCons(c, rest[..|rest| - 1]);
    } else {
      assert [c] + rest == [c];
      assert [c][..0] == [];
    }
  }

  /** The reads a regular file of `content` delivers into a buffer of `bufferSize` bytes:
      full buffers, then whatever is left. */
  function FileChunks(content: seq<bv8>, bufferSize: int): seq<seq<bv8>>
    requires bufferSize > 0
    decreases |content|
  {
    if |content| <= bufferSize then (if content == [] then [] else [content])
    else [content[..bufferSize]] + FileChunks(content[bufferSize..], bufferSize)
  }

  /** A regular file's reads fit the buffer, deliver its content, consist of full buffers
      but for the last, and the last one is full exactly when the length is a multiple of
      the buffer size. */
  lemma FileChunksShape(content: seq<bv8>, bufferSize: int)
    requires bufferSize > 0
    ensures ReadsFit(FileChunks(content, bufferSize), bufferSize)
    ensures Flatten(FileChunks(content, bufferSize)) == content
    ensures var fc := FileChunks(content, bufferSize);
      forall i :: 0 <= i < |fc| - 1 ==> |fc[i]| == bufferSize
    ensures var fc := FileChunks(content, bufferSize);
      content != [] ==> fc != [] && (|fc[|fc| - 1]| == bufferSize <==> |content| % bufferSize == 0)
  {
    FileChunksCover(content, bufferSize);
    FileChunksSizes(content, bufferSize);
  }

  /** The chunks fit the buffer and together are the content. */
  lemma {:induction false} FileChunksCover(content: seq<bv8>, bufferSize: int)
    requires bufferSize > 0
    ensures ReadsFit(FileChunks(content, bufferSize), bufferSize)
    ensures Flatten(FileChunks(content, bufferSize)) == content
    decreases |content|
  {
    if |content| <= bufferSize {
      if content != [] {
        assert FileChunks(content, bufferSize) == [content];
        assert [content][..0] == [];
      }
    } else {
      var head, tail := content[..bufferSize], content[bufferSize..];
      var rest := FileChunks(tail, bufferSize);
      FileChunksCover(tail, bufferSize);
      assert FileChunks(content, bufferSize) == [head] + rest;
      ConsFits(head, rest, bufferSize);
      FlattenCons(head, rest);
      assert head + tail == content;
    }
  }

  lemma ConsFits(c: seq<bv8>, rest: seq<seq<bv8>>, bufferSize: int)
    requires 0 < |c| <= bufferSize && ReadsFit(rest, bufferSize)
    ensures ReadsFit([c] + rest, bufferSize)
  {
    var all := [c] + rest;
    forall i | 0 <= i < |all|
      ensures 0 < |all[i]| <= bufferSize
    {
      if i > 0 {
        assert all[i] == rest[i - 1];
      }
    }
  }

  /** Every chunk but the last is a full buffer, and the last is full exactly when the length
      is a multiple of the buffer size. */
  lemma {:induction false} FileChunksSizes(content: seq<bv8>, bufferSize: int)
    requires bufferSize > 0
    ensures var fc := FileChunks(content, bufferSize);
      forall i :: 0 <= i < |fc| - 1 ==> |fc[i]| == bufferSize
    ensures var fc := FileChunks(content, bufferSize);
      content != [] ==> fc != [] && (|fc[|fc| - 1]| == bufferSize <==> |content| % bufferSize == 0)
    decreases |content|
  {
    if |content| <= bufferSize {
      if content != [] {
        assert FileChunks(content, bufferSize) == [content];
        assert |content| % bufferSize == 0 <==> |content| == bufferSize;
      }
    } else {
      FileChunksSizes(content[bufferSize..], bufferSize);
      ModStep(|content|, bufferSize);
    }
  }

  /** For a regular file the final count is reported exactly when the length is a multiple
      of the modulus, or is not a multiple of the buffer size (the last read is short). */
  lemma FinalCountReported(content: seq<bv8>, bufferSize: int, modulus: nat)
    requires bufferSize > 0 && modulus > 0 && content != []
    ensures |content| in Reports(FileChunks(content, bufferSize), bufferSize, modulus)
      <==> |content| % modulus == 0 || |content| % bufferSize != 0
  {
    var fc := FileChunks(content, bufferSize);
    FileChunksShape(content, bufferSize);
    FlattenLength(fc);
    assert fc[..|fc|] == fc;
    ReportedIff(fc, bufferSize, modulus, |fc|);
  }

  /** A file of exactly two buffers gets no progress report at all from the incremental
      variant: neither count is a multiple of four buffers and neither read is short. */
  lemma TwoBufferFileUnreported(content: seq<bv8>, bufferSize: Int32)
    requires 0 < bufferSize < 0x2000_0000 && |content| == 2 * bufferSize
    ensures Reports(FileChunks(content, bufferSize), bufferSize, ThrottleModulus(bufferSize, 4)) == []
  {
    FourBufferModulus(bufferSize);
    var m := 4 * bufferSize;
    var first, second := content[..bufferSize], content[bufferSize..];
    var fc := FileChunks(content, bufferSize);
    assert FileChunks(second, bufferSize) == [second];
    assert fc == [first, second];
    assert fc[..1] == [first] && [first][..0] == [];
    ModUnique(bufferSize, m, 0, bufferSize);
    ModUnique(2 * bufferSize, m, 0, 2 * bufferSize);
    assert Sum([first]) == bufferSize && Sum(fc) == 2 * bufferSize;
    assert !Throttled(bufferSize, bufferSize, bufferSize, m);
    assert Reports([first], bufferSize, m) == [];
    assert !Throttled(2 * bufferSize, bufferSize, bufferSize, m);
  }

  /** ArrayPool's message for a negative rent size. */
  const RentRangeMessage: string := "Specified argument was out of the range of valid values. (Parameter 'minimumLength')"

  /** The runtime's message for an array of negative length. */
  const ArrayOverflowMessage: string := "Arithmetic operation resulted in an overflow."

  /** A run: how it ends, the values reported to the progress observer in order, and the
      bytes fed to the hash primitive. */
  datatype Run = Run(outcome: Outcome, reports: seq<int>, hashed: seq<bv8>)

  /** The Stream.Read contract holds for the service's buffer size. */
  predicate Fits(file: FileEntry, bufferSize: int) {
    file.Openable? && bufferSize > 0 ==> ReadsFit(file.chunks, bufferSize)
  }

  /** The result returned for a digest of `data`. */
  function ResultFor(sha256: seq<bv8> -> Digest, data: seq<bv8>, length: int, elapsed: int, path: string): HashResult {
    var digest := sha256(data);
    HashResult(LowerHex(digest), Base64Encode(digest), elapsed, length, path)
  }

  /** How a read loop ends: the outcome it stopped with (None when the stream drained
      cleanly), the values it reported and the bytes it fed to the hash primitive. */
  datatype LoopEnd = LoopEnd(stop: Option<Outcome>, reports: seq<int>, hashed: seq<bv8>)

  /** What the read after the last data read meets: the end of the stream, or its error. */
  function EndFault(end: StreamEnd): Option<Outcome> {
    match end
    case EndOfFile => None
    case ReadError(reason) => Some(Faulted(ReadFailed(reason)))
  }

  /** The read loop of ComputeSha256Async. With a zero-size buffer the first Read asks for
      nothing and returns 0. Otherwise each read that delivers data is followed by the token
      check, the append, and the throttled report, whose divisor fails when four buffers wrap
      to 0. */
  function IncrementalLoop(bufferSize: Int32, chunks: seq<seq<bv8>>, end: StreamEnd, cancel: Cancellation): LoopEnd
    requires 0 <= bufferSize && (bufferSize > 0 ==> ReadsFit(chunks, bufferSize))
  {
    if bufferSize == 0 then LoopEnd(None, [], [])
    else
      var n, c, m := |chunks|, CancelPoint(cancel, |chunks|), ThrottleModulus(bufferSize, 4);
      if n == 0 then LoopEnd(EndFault(end), [], [])
      else if c == 0 then LoopEnd(Some(Canceled), [], [])
      else if m == 0 then LoopEnd(Some(Faulted(DivideByZero)), [], chunks[0])
      else if c < n then LoopEnd(Some(Canceled), Reports(chunks[..c], bufferSize, m), Flatten(chunks[..c]))
      else LoopEnd(EndFault(end), Reports(chunks, bufferSize, m), Flatten(chunks))
  }

  /** The read loop of ComputeSha256HardwareAsync: every ReadAsync, the final empty one
      included, observes the token before it reads; the throttle divisor is two buffers. */
  function HardwareLoop(bufferSize: Int32, chunks: seq<seq<bv8>>, end: StreamEnd, cancel: Cancellation): LoopEnd
    requires 0 <= bufferSize && (bufferSize > 0 ==> ReadsFit(chunks, bufferSize))
  {
    if bufferSize == 0 then LoopEnd(if Observed(cancel, 0) then Some(Canceled) else None, [], [])
    else
      TwoBufferModulusPositive(bufferSize);
      var n, c, m := |chunks|, CancelPoint(cancel, |chunks| + 1), ThrottleModulus(bufferSize, 2);
      if c <= n then LoopEnd(Some(Canceled), Reports(chunks[..c], bufferSize, m), Flatten(chunks[..c]))
      else LoopEnd(EndFault(end), Reports(chunks, bufferSize, m), Flatten(chunks))
  }

  /** A run whose loop ended as `loop`: the loop's stop, or else the result for what it hashed. */
  function Conclude(sha256: seq<bv8> -> Digest, loop: LoopEnd, length: int, elapsed: int, filePath: string): Run {
    Run(loop.stop.GetOr(Completed(ResultFor(sha256, loop.hashed, length, elapsed, filePath))), loop.reports, loop.hashed)
  }

  /** The run of ComputeSha256Async. The path check comes first; Task.Run drops work whose
      token is already cancelled; the stream is opened, then the pooled buffer is rented. */
  function IncrementalRun(sha256: seq<bv8> -> Digest, bufferSize: Int32, filePath: string, file: FileEntry,
                          cancel: Cancellation, elapsed: int): Run
    requires Fits(file, bufferSize)
  {
    if IsNullOrWhiteSpace(filePath) then Run(Faulted(InvalidPath), [], [])
    else if cancel.BeforeStart? then Run(Canceled, [], [])
    else if file.Unopenable? then Run(Faulted(OpenFailed(file.reason)), [], [])
    else if bufferSize < 0 then Run(Faulted(BufferRejected(RentRangeMessage)), [], [])
    else Conclude(sha256, IncrementalLoop(bufferSize, file.chunks, file.end, cancel), file.length, elapsed, filePath)
  }

  /** The run of ComputeSha256HardwareAsync. The file is opened first, then the buffer is
      allocated, which fails for a negative size. */
  function HardwareRun(sha256: seq<bv8> -> Digest, bufferSize: Int32, filePath: string, file: FileEntry,
                       cancel: Cancellation, elapsed: int): Run
    requires Fits(file, bufferSize)
  {
    if IsNullOrWhiteSpace(filePath) then Run(Faulted(InvalidPath), [], [])
    else if file.Unopenable? then Run(Faulted(OpenFailed(file.reason)), [], [])
    else if bufferSize < 0 then Run(Faulted(BufferRejected(ArrayOverflowMessage)), [], [])
    else Conclude(sha256, HardwareLoop(bufferSize, file.chunks, file.end, cancel), file.length, elapsed, filePath)
  }

  /** HardwareLoop with a positive buffer when ReadAsync `p` sees the token cancelled. */
  lemma HardwareCanceledAt(bufferSize: Int32, chunks: seq<seq<bv8>>, end: StreamEnd, cancel: Cancellation, p: nat)
    requires 0 < bufferSize && ReadsFit(chunks, bufferSize)
    requires p <= |chunks| && p <= CancelPoint(cancel, |chunks| + 1) && Observed(cancel, p)
    ensures HardwareLoop(bufferSize, chunks, end, cancel)
      == LoopEnd(Some(Canceled), Reports(chunks[..p], bufferSize, ThrottleModulus(bufferSize, 2)), Flatten(chunks[..p]))
  {
  }

  /** HardwareLoop with a positive buffer once every data read is consumed and no ReadAsync
      saw the token. */
  lemma HardwareDrained(bufferSize: Int32, chunks: seq<seq<bv8>>, end: StreamEnd, cancel: Cancellation)
    requires 0 < bufferSize && ReadsFit(chunks, bufferSize) && CancelPoint(cancel, |chunks| + 1) > |chunks|
    ensures HardwareLoop(bufferSize, chunks, end, cancel)
      == LoopEnd(EndFault(end), Reports(chunks, bufferSize, ThrottleModulus(bufferSize, 2)), Flatten(chunks))
  {
  }

  /** IncrementalLoop with a positive buffer when the check after read `p` sees the token
      cancelled. */
  lemma IncrementalCanceledAt(bufferSize: Int32, chunks: seq<seq<bv8>>, end: StreamEnd, cancel: Cancellation, p: nat)
    requires 0 < bufferSize && ReadsFit(chunks, bufferSize)
    requires p < |chunks| && p <= CancelPoint(cancel, |chunks|) && Observed(cancel, p)
    requires ThrottleModulus(bufferSize, 4) == 0 ==> p == 0
    ensures IncrementalLoop(bufferSize, chunks, end, cancel)
      == LoopEnd(Some(Canceled), if p == 0 then [] else Reports(chunks[..p], bufferSize, ThrottleModulus(bufferSize, 4)),
                 Flatten(chunks[..p]))
  {
  }

  /** IncrementalLoop when the divisor wraps to 0 after the first read. */
  lemma IncrementalDivideByZero(bufferSize: Int32, chunks: seq<seq<bv8>>, end: StreamEnd, cancel: Cancellation)
    requires 0 < bufferSize && ReadsFit(chunks, bufferSize) && ThrottleModulus(bufferSize, 4) == 0
    requires 0 < |chunks| && 0 < CancelPoint(cancel, |chunks|)
    ensures IncrementalLoop(bufferSize, chunks, end, cancel) == LoopEnd(Some(Faulted(DivideByZero)), [], Flatten(chunks[..1]))
  {
    assert chunks[..1][..0] == [];
  }

  /** IncrementalLoop with a positive buffer once every data read is consumed and no check
      saw the token. */
  lemma IncrementalDrained(bufferSize: Int32, chunks: seq<seq<bv8>>, end: StreamEnd, cancel: Cancellation)
    requires 0 < bufferSize && ReadsFit(chunks, bufferSize) && CancelPoint(cancel, |chunks|) == |chunks|
    requires ThrottleModulus(bufferSize, 4) == 0 ==> chunks == []
    ensures IncrementalLoop(bufferSize, chunks, end, cancel)
      == LoopEnd(EndFault(end), if chunks == [] then [] else Reports(chunks, bufferSize, ThrottleModulus(bufferSize, 4)),
                 Flatten(chunks))
  {
  }

  /** Reported counts strictly increase, and each is a positive number of bytes already hashed. */
  predicate ReportsSound(reports: seq<int>, hashed: seq<bv8>) {
    (forall i, j :: 0 <= i < j < |reports| ==> reports[i] < reports[j])
    && (forall k :: 0 <= k < |reports| ==> 0 < reports[k] <= |hashed|)
  }

  lemma PrefixReportsSound(chunks: seq<seq<bv8>>, c: nat, bufferSize: int, modulus: nat)
    requires NonEmptyReads(chunks) && c <= |chunks| && modulus > 0
    ensures ReportsSound(Reports(chunks[..c], bufferSize, modulus), Flatten(chunks[..c]))
  {
    assert NonEmptyReads(chunks[..c]);
    ReportsAscend(chunks[..c], bufferSize, modulus);
    FlattenLength(chunks[..c]);
  }

  /** What either read loop reports is sound; it never stops with a completion or a path
      error; and a loop that drains without a stop has met the end of the stream and hashed
      every byte of it (none with a zero-size buffer). */
  predicate LoopSound(loop: LoopEnd, bufferSize: int, chunks: seq<seq<bv8>>, end: StreamEnd) {
    ReportsSound(loop.reports, loop.hashed)
    && (loop.stop.Some? ==> !loop.stop.value.Completed? && loop.stop.value != Faulted(InvalidPath))
    && (loop.stop.None? ==> (bufferSize > 0 ==> end.EndOfFile?) && loop.hashed == (if bufferSize == 0 then [] else Flatten(chunks)))
  }

  lemma IncrementalLoopSound(bufferSize: Int32, chunks: seq<seq<bv8>>, end: StreamEnd, cancel: Cancellation)
    requires 0 <= bufferSize && (bufferSize > 0 ==> ReadsFit(chunks, bufferSize))
    ensures LoopSound(IncrementalLoop(bufferSize, chunks, end, cancel), bufferSize, chunks, end)
  {
    if bufferSize > 0 {
      var n, c, m := |chunks|, CancelPoint(cancel, |chunks|), ThrottleModulus(bufferSize, 4);
      assert chunks[..n] == chunks;
      if n > 0 && c > 0 && m > 0 {
        PrefixReportsSound(chunks, c, bufferSize, m);
      }
    }
  }

  lemma HardwareLoopSound(bufferSize: Int32, chunks: seq<seq<bv8>>, end: StreamEnd, cancel: Cancellation)
    requires 0 <= bufferSize && (bufferSize > 0 ==> ReadsFit(chunks, bufferSize))
    ensures LoopSound(HardwareLoop(bufferSize, chunks, end, cancel), bufferSize, chunks, end)
  {
    if bufferSize > 0 {
      var n, c := |chunks|, CancelPoint(cancel, |chunks| + 1);
      TwoBufferModulusPositive(bufferSize);
      assert chunks[..n] == chunks;
      PrefixReportsSound(chunks, if c <= n then c else n, bufferSize, ThrottleModulus(bufferSize, 2));
    }
  }

  /** Progress of either variant is reported in strictly increasing order, never beyond the
      bytes hashed. */
  lemma RunReportsSound(sha256: seq<bv8> -> Digest, bufferSize: Int32, filePath: string, file: FileEntry,
                        cancel: Cancellation, elapsed: int)
    requires Fits(file, bufferSize)
    ensures var r := IncrementalRun(sha256, bufferSize, filePath, file, cancel, elapsed); ReportsSound(r.reports, r.hashed)
    ensures var r := HardwareRun(sha256, bufferSize, filePath, file, cancel, elapsed); ReportsSound(r.reports, r.hashed)
  {
    if file.Openable? && bufferSize >= 0 {
      IncrementalLoopSound(bufferSize, file.chunks, file.end, cancel);
      HardwareLoopSound(bufferSize, file.chunks, file.end, cancel);
    }
  }

  /** Once the token is seen, a read loop hashes and reports a prefix of what it does when
      never cancelled. */
  lemma IncrementalLoopTruncates(bufferSize: Int32, chunks: seq<seq<bv8>>, end: StreamEnd, cancel: Cancellation)
    requires 0 <= bufferSize && (bufferSize > 0 ==> ReadsFit(chunks, bufferSize))
    ensures var l, u := IncrementalLoop(bufferSize, chunks, end, cancel), IncrementalLoop(bufferSize, chunks, end, NotRequested);
      l.stop == Some(Canceled) ==> l.reports <= u.reports && l.hashed <= u.hashed
  {
    if bufferSize > 0 && ThrottleModulus(bufferSize, 4) > 0 {
      var c := CancelPoint(cancel, |chunks|);
      ReportsPrefix(chunks, bufferSize, ThrottleModulus(bufferSize, 4), c);
      FlattenPrefix(chunks, c);
    }
  }

  lemma HardwareLoopTruncates(bufferSize: Int32, chunks: seq<seq<bv8>>, end: StreamEnd, cancel: Cancellation)
    requires 0 <= bufferSize && (bufferSize > 0 ==> ReadsFit(chunks, bufferSize))
    ensures var l, u := HardwareLoop(bufferSize, chunks, end, cancel), HardwareLoop(bufferSize, chunks, end, NotRequested);
      l.stop == Some(Canceled) ==> l.reports <= u.reports && l.hashed <= u.hashed
  {
    var c := CancelPoint(cancel, |chunks| + 1);
    if bufferSize > 0 && c <= |chunks| {
      TwoBufferModulusPositive(bufferSize);
      ReportsPrefix(chunks, bufferSize, ThrottleModulus(bufferSize, 2), c);
      FlattenPrefix(chunks, c);
    }
  }

  /** Once the token is seen, nothing more is hashed or reported: a cancelled run reports and
      hashes a prefix of what the same run does when never cancelled. */
  lemma CancelTruncates(sha256: seq<bv8> -> Digest, bufferSize: Int32, filePath: string, file: FileEntry,
                        cancel: Cancellation, elapsed: int)
    requires Fits(file, bufferSize)
    ensures var r, u := IncrementalRun(sha256, bufferSize, filePath, file, cancel, elapsed),
                        IncrementalRun(sha256, bufferSize, filePath, file, NotRequested, elapsed);
      r.outcome.Canceled? ==> r.reports <= u.reports && r.hashed <= u.hashed
    ensures var r, u := HardwareRun(sha256, bufferSize, filePath, file, cancel, elapsed),
                        HardwareRun(sha256, bufferSize, filePath, file, NotRequested, elapsed);
      r.outcome.Canceled? ==> r.reports <= u.reports && r.hashed <= u.hashed
  {
    if file.Openable? && bufferSize >= 0 {
      IncrementalLoopTruncates(bufferSize, file.chunks, file.end, cancel);
      HardwareLoopTruncates(bufferSize, file.chunks, file.end, cancel);
    }
  }

  /** A completed run names the caller's path and the length the stream declared up front,
      its input is every byte of the stream (none with a zero-size buffer, which never reads
      and so never meets a read error), and its hex and base64 texts decode back to the
      digest of that input. */
  predicate ResultSound(sha256: seq<bv8> -> Digest, run: Run, bufferSize: int, filePath: string, file: FileEntry) {
    run.outcome.Completed? ==>
      var r := run.outcome.result;
      file.Openable? && (bufferSize > 0 ==> file.end.EndOfFile?)
      && run.hashed == (if bufferSize == 0 then [] else Flatten(file.chunks))
      && r.path == filePath && r.bytes == file.length && |r.hex| == 64
      && DecodeHex(r.hex) == Some(sha256(run.hashed)) && Base64Decode(r.base64) == Some(sha256(run.hashed))
  }

  lemma CompletedResult(sha256: seq<bv8> -> Digest, bufferSize: Int32, filePath: string, file: FileEntry,
                        cancel: Cancellation, elapsed: int)
    requires Fits(file, bufferSize)
    ensures ResultSound(sha256, IncrementalRun(sha256, bufferSize, filePath, file, cancel, elapsed), bufferSize, filePath, file)
    ensures ResultSound(sha256, HardwareRun(sha256, bufferSize, filePath, file, cancel, elapsed), bufferSize, filePath, file)
  {
    if file.Openable? && bufferSize >= 0 {
      IncrementalLoopSound(bufferSize, file.chunks, file.end, cancel);
      ConcludedResult(sha256, IncrementalLoop(bufferSize, file.chunks, file.end, cancel), bufferSize, filePath, file, elapsed);
      HardwareLoopSound(bufferSize, file.chunks, file.end, cancel);
      ConcludedResult(sha256, HardwareLoop(bufferSize, file.chunks, file.end, cancel), bufferSize, filePath, file, elapsed);
    }
  }

  /** A completed run's result is the one for the bytes it hashed. */
  lemma CompletedIsResultFor(sha256: seq<bv8> -> Digest, bufferSize: Int32, filePath: string, file: FileEntry,
                             cancel: Cancellation, elapsed: int)
    requires Fits(file, bufferSize)
    ensures var r := IncrementalRun(sha256, bufferSize, filePath, file, cancel, elapsed);
      r.outcome.Completed? ==> file.Openable? && r.outcome.result == ResultFor(sha256, r.hashed, file.length, elapsed, filePath)
    ensures var r := HardwareRun(sha256, bufferSize, filePath, file, cancel, elapsed);
      r.outcome.Completed? ==> file.Openable? && r.outcome.result == ResultFor(sha256, r.hashed, file.length, elapsed, filePath)
  {
    if file.Openable? && bufferSize >= 0 {
      IncrementalLoopSound(bufferSize, file.chunks, file.end, cancel);
      HardwareLoopSound(bufferSize, file.chunks, file.end, cancel);
    }
  }

  /** A completed incremental run with a positive buffer hashed every byte of the file, and its
      result is the one for those bytes. */
  lemma IncrementalCompleted(sha256: seq<bv8> -> Digest, bufferSize: Int32, filePath: string, file: FileEntry,
                             cancel: Cancellation, elapsed: int)
    requires Fits(file, bufferSize) && bufferSize > 0
    ensures var r := IncrementalRun(sha256, bufferSize, filePath, file, cancel, elapsed);
      r.outcome.Completed? ==>
        file.Openable? && r.hashed == Flatten(file.chunks)
        && r.outcome.result == ResultFor(sha256, r.hashed, file.length, elapsed, filePath)
  {
    if file.Openable? {
      IncrementalLoopSound(bufferSize, file.chunks, file.end, cancel);
    }
  }

  /** A sound loop on an open file concludes with a sound result. */
  lemma ConcludedResult(sha256: seq<bv8> -> Digest, loop: LoopEnd, bufferSize: int, filePath: string, file: FileEntry,
                        elapsed: int)
    requires file.Openable? && LoopSound(loop, bufferSize, file.chunks, file.end)
    ensures ResultSound(sha256, Conclude(sha256, loop, file.length, elapsed, filePath), bufferSize, filePath, file)
  {
    ResultForDecodes(sha256, loop.hashed, file.length, elapsed, filePath);
  }

  /** The result for `data` carries the given path and length, and its hex and base64 texts
      decode back to the digest of `data`. */
  lemma ResultForDecodes(sha256: seq<bv8> -> Digest, data: seq<bv8>, length: int, elapsed: int, path: string)
    ensures var r := ResultFor(sha256, data, length, elapsed, path);
      r.path == path && r.bytes == length && r.elapsed == elapsed && |r.hex| == 64
      && DecodeHex(r.hex) == Some(sha256(data)) && Base64Decode(r.base64) == Some(sha256(data))
  {
    LowerHexRoundTrip(sha256(data));
    Base64RoundTrip(sha256(data));
  }

  /** When both variants complete on the same file, they return the same result. */
  lemma VariantsAgree(sha256: seq<bv8> -> Digest, bufferSize: Int32, filePath: string, file: FileEntry,
                      cancel: Cancellation, elapsed: int)
    requires Fits(file, bufferSize)
    ensures var r, h := IncrementalRun(sha256, bufferSize, filePath, file, cancel, elapsed),
                        HardwareRun(sha256, bufferSize, filePath, file, cancel, elapsed);
      r.outcome.Completed? && h.outcome.Completed? ==> r.outcome == h.outcome && r.hashed == h.hashed
  {
  }

  /** A token cancelled after the last data read is ignored by the incremental variant, which
      checks only after reads that deliver data, but stops the alternate variant, whose
      final, empty ReadAsync still observes it. */
  lemma LateCancelDiffers(sha256: seq<bv8> -> Digest, bufferSize: Int32, filePath: string, content: seq<bv8>,
                          length: int, elapsed: int)
    requires !IsNullOrWhiteSpace(filePath) && 0 < bufferSize && ThrottleModulus(bufferSize, 4) > 0
    ensures var file := Openable(length, FileChunks(content, bufferSize), EndOfFile);
      var late := BeforeRead(|file.chunks|);
      Fits(file, bufferSize)
      && IncrementalRun(sha256, bufferSize, filePath, file, late, elapsed).outcome
         == Completed(ResultFor(sha256, content, length, elapsed, filePath))
      && HardwareRun(sha256, bufferSize, filePath, file, late, elapsed).outcome == Canceled
      && HardwareRun(sha256, bufferSize, filePath, file, late, elapsed).hashed == content
  {
    FileChunksShape(content, bufferSize);
    var chunks := FileChunks(content, bufferSize);
    assert chunks[..|chunks|] == chunks;
  }

  /** For a regular file the digest and result do not depend on the buffer size: never
      cancelled, both variants complete with the result for the whole content. */
  lemma ResultIndependentOfBufferSize(sha256: seq<bv8> -> Digest, bufferSize: Int32, filePath: string,
                                      content: seq<bv8>, length: int, elapsed: int)
    requires !IsNullOrWhiteSpace(filePath) && 0 < bufferSize && ThrottleModulus(bufferSize, 4) > 0
    ensures var file := Openable(length, FileChunks(content, bufferSize), EndOfFile);
      Fits(file, bufferSize)
      && IncrementalRun(sha256, bufferSize, filePath, file, NotRequested, elapsed).outcome
         == Completed(ResultFor(sha256, content, length, elapsed, filePath))
      && HardwareRun(sha256, bufferSize, filePath, file, NotRequested, elapsed).outcome
         == Completed(ResultFor(sha256, content, length, elapsed, filePath))
  {
    FileChunksShape(content, bufferSize);
  }

  /** The path check comes before anything else in both variants. */
  lemma PathRejectedFirst(sha256: seq<bv8> -> Digest, bufferSize: Int32, filePath: string, file: FileEntry,
                          cancel: Cancellation, elapsed: int)
    requires Fits(file, bufferSize) && IsNullOrWhiteSpace(filePath)
    ensures IncrementalRun(sha256, bufferSize, filePath, file, cancel, elapsed) == Run(Faulted(InvalidPath), [], [])
    ensures HardwareRun(sha256, bufferSize, filePath, file, cancel, elapsed) == Run(Faulted(InvalidPath), [], [])
  {
  }

  /** The open file stream: the reads it will deliver, then its end. */
  class FileStream {
    const length: int
    const chunks: seq<seq<bv8>>
    const end: StreamEnd
    /** How many data reads have been delivered. */
    var position: nat

    constructor Open(file: FileEntry)
      requires file.Openable?
      ensures length == file.length && chunks == file.chunks && end == file.end && position == 0
    {
      length, chunks, end := file.length, file.chunks, file.end;
      position := 0;
    }

    /** Stream.Read: up to `count` bytes into the front of `buffer`; 0 at the end of the
        stream. A read that throws is returned as `error`. */
    method Read(buffer: array<bv8>, count: int) returns (read: int, error: Option<string>)
      requires 0 <= count <= buffer.Length && position <= |chunks|
      requires count > 0 ==> ReadsFit(chunks, count)
      modifies this`position, buffer
      ensures count == 0 ==> read == 0 && error == None && position == old(position)
      ensures count > 0 && old(position) < |chunks| ==>
        error == None && read == |chunks[old(position)]| && buffer[..read] == chunks[old(position)]
        && position == old(position) + 1
      ensures count > 0 && old(position) == |chunks| ==>
        read == 0 && position == old(position) && error == (if end.ReadError? then Some(end.reason) else None)
    {
      if count == 0 || position == |chunks| {
        read := 0;
        error := if count > 0 && end.ReadError? then Some(end.reason) else None;
        return;
      }
      var chunk := chunks[position];
      forall k | 0 <= k < |chunk| {
        buffer[k] := chunk[k];
      }
      read, error := |chunk|, None;
      position := position + 1;
    }
  }

  /** System.Security.Cryptography.IncrementalHash for SHA-256: the bytes appended so far. */
  class IncrementalHash {
    const digestOf: seq<bv8> -> Digest
    var appended: seq<bv8>

    constructor CreateHash(digestOf: seq<bv8> -> Digest)
      ensures this.digestOf == digestOf && appended == []
    {
      this.digestOf := digestOf;
      appended := [];
    }

    method AppendData(buffer: array<bv8>, count: int)
      requires 0 <= count <= buffer.Length
      modifies this`appended
      ensures appended == old(appended) + buffer[..count]
    {
      appended := appended + buffer[..count];
    }

    method GetHashAndReset() returns (digest: Digest)
      modifies this`appended
      ensures digest == digestOf(old(appended)) && appended == []
    {
      digest := digestOf(appended);
      appended := [];
    }
  }

  /** System.Security.Cryptography.SHA256 driven block by block: the bytes transformed so
      far, and `Hash`, null until the final block. */
  class Sha256 {
    const digestOf: seq<bv8> -> Digest
    var transformed: seq<bv8>
    var hash: Option<seq<bv8>>

    constructor Create(digestOf: seq<bv8> -> Digest)
      ensures this.digestOf == digestOf && transformed == [] && hash == None
    {
      this.digestOf := digestOf;
      transformed, hash := [], None;
    }

    method TransformBlock(buffer: array<bv8>, count: int)
      requires 0 <= count <= buffer.Length
      modifies this`transformed
      ensures transformed == old(transformed) + buffer[..count]
    {
      transformed := transformed + buffer[..count];
    }

    method TransformFinalBlock()
      modifies this`hash
      ensures hash == Some(digestOf(transformed))
    {
      hash := Some(digestOf(transformed));
    }
  }

  /** The hashing service: the SHA-256 primitive it is built on and its buffer size. */
  class HashingService {
    const sha256: seq<bv8> -> Digest
    var bufferSize: Int32

    constructor (sha256: seq<bv8> -> Digest)
      ensures this.sha256 == sha256 && bufferSize == DefaultBufferSize
    {
      this.sha256 := sha256;
      bufferSize := DefaultBufferSize;
    }

    /** Hashes `file`, found at `filePath`, reading it into a buffer of `bufferSize` bytes. */
    method ComputeSha256Async(filePath: string, file: FileEntry, cancel: Cancellation, elapsed: int)
      returns (run: Run)
      requires Fits(file, bufferSize)
      ensures run == IncrementalRun(sha256, bufferSize, filePath, file, cancel, elapsed)
    {
      if IsNullOrWhiteSpace(filePath) {
        return Run(Faulted(InvalidPath), [], []);
      }
      if cancel.BeforeStart? {
        return Run(Canceled, [], []);
      }
      if file.Unopenable? {
        return Run(Faulted(OpenFailed(file.reason)), [], []);
      }
      var stream := new FileStream.Open(file);
      var totalLength := stream.length;
      var hasher := new IncrementalHash.CreateHash(sha256);
      if bufferSize < 0 {
        return Run(Faulted(BufferRejected(RentRangeMessage)), [], []);
      }
      var buffer := new bv8[bufferSize];
      var stop, reports := ReadAndAppend(stream, hasher, buffer, cancel);
      if stop.Some? {
        return Run(stop.value, reports, hasher.appended);
      }
      var hashed := hasher.appended;
      var hashBytes := hasher.GetHashAndReset();
      var hex := ConvertToHexFast(hashBytes);
      var b64 := Base64Encode(hashBytes);
      run := Run(Completed(HashResult(hex, b64, elapsed, totalLength, filePath)), reports, hashed);
    }

    /** The read loop of ComputeSha256Async, on a fresh stream and hasher. */
    method ReadAndAppend(stream: FileStream, hasher: IncrementalHash, buffer: array<bv8>, cancel: Cancellation)
      returns (stop: Option<Outcome>, reports: seq<int>)
      requires 0 <= bufferSize == buffer.Length && (bufferSize > 0 ==> ReadsFit(stream.chunks, bufferSize))
      requires stream.position == 0 && hasher.appended == []
      modifies stream`position, hasher`appended, buffer
      ensures LoopEnd(stop, reports, hasher.appended) == IncrementalLoop(bufferSize, stream.chunks, stream.end, cancel)
    {
      var chunks := stream.chunks;
      var processed := 0;
      reports := [];
      ghost var m := ThrottleModulus(bufferSize, 4);
      while true
        invariant stream.position <= CancelPoint(cancel, |chunks|)
        invariant hasher.appended == Flatten(chunks[..stream.position])
        invariant processed == Sum(chunks[..stream.position])
        invariant m == 0 ==> stream.position == 0
        invariant reports == (if m == 0 then [] else Reports(chunks[..stream.position], bufferSize, m))
        decreases |chunks| - stream.position
      {
        var read, error := stream.Read(buffer, bufferSize);
        if error.Some? {
          assert chunks[..stream.position] == chunks;
          IncrementalDrained(bufferSize, chunks, stream.end, cancel);
          return Some(Faulted(ReadFailed(error.value))), reports;
        }
        if read <= 0 {
          break;
        }
        if Observed(cancel, stream.position - 1) {
          IncrementalCanceledAt(bufferSize, chunks, stream.end, cancel, stream.position - 1);
          return Some(Canceled), reports;
        }
        hasher.AppendData(buffer, read);
        processed := processed + read;
        StepData(chunks, stream.position - 1);
        var divisor := Wrap32(bufferSize * 4);
        if divisor == 0 {
          IncrementalDivideByZero(bufferSize, chunks, stream.end, cancel);
          return Some(Faulted(DivideByZero)), reports;
        }
        Step(chunks, stream.position - 1, bufferSize, m);
        if Throttled(processed, read, bufferSize, Abs(divisor)) {
          reports := reports + [processed];
        }
      }
      if bufferSize > 0 {
        assert chunks[..stream.position] == chunks;
        IncrementalDrained(bufferSize, chunks, stream.end, cancel);
      }
      stop := None;
    }

    /** The same hash through the one-shot SHA256 type and asynchronous reads. */
    method ComputeSha256HardwareAsync(filePath: string, file: FileEntry, cancel: Cancellation, elapsed: int)
      returns (run: Run)
      requires Fits(file, bufferSize)
      ensures run == HardwareRun(sha256, bufferSize, filePath, file, cancel, elapsed)
    {
      if IsNullOrWhiteSpace(filePath) {
        return Run(Faulted(InvalidPath), [], []);
      }
      if file.Unopenable? {
        return Run(Faulted(OpenFailed(file.reason)), [], []);
      }
      var stream := new FileStream.Open(file);
      var totalLength := stream.length;
      var sha := new Sha256.Create(sha256);
      if bufferSize < 0 {
        return Run(Faulted(BufferRejected(ArrayOverflowMessage)), [], []);
      }
      var buffer := new bv8[bufferSize];
      var stop, reports := ReadAndTransform(stream, sha, buffer, cancel);
      if stop.Some? {
        return Run(stop.value, reports, sha.transformed);
      }
      sha.TransformFinalBlock();
      var hashBytes := sha.hash.GetOr([]);
      var hex := ToLower(UpperHex(hashBytes));
      UpperHexLowered(hashBytes);
      var b64 := Base64Encode(hashBytes);
      run := Run(Completed(HashResult(hex, b64, elapsed, totalLength, filePath)), reports, sha.transformed);
    }

    /** The read loop of ComputeSha256HardwareAsync, on a fresh stream and SHA256 object. */
    method ReadAndTransform(stream: FileStream, sha: Sha256, buffer: array<bv8>, cancel: Cancellation)
      returns (stop: Option<Outcome>, reports: seq<int>)
      requires 0 <= bufferSize == buffer.Length && (bufferSize > 0 ==> ReadsFit(stream.chunks, bufferSize))
      requires stream.position == 0 && sha.transformed == []
      modifies stream`position, sha`transformed, buffer
      ensures LoopEnd(stop, reports, sha.transformed) == HardwareLoop(bufferSize, stream.chunks, stream.end, cancel)
    {
      var chunks := stream.chunks;
      var processed := 0;
      reports := [];
      ghost var m := ThrottleModulus(bufferSize, 2);
      while true
        invariant stream.position <= |chunks| && stream.position <= CancelPoint(cancel, |chunks| + 1)
        invariant sha.transformed == Flatten(chunks[..stream.position])
        invariant processed == Sum(chunks[..stream.position])
        invariant bufferSize > 0 ==> m > 0 && reports == Reports(chunks[..stream.position], bufferSize, m)
        invariant bufferSize == 0 ==> stream.position == 0 && reports == []
        decreases |chunks| - stream.position
      {
        if Observed(cancel, stream.position) {
          if bufferSize > 0 {
            HardwareCanceledAt(bufferSize, chunks, stream.end, cancel, stream.position);
          }
          return Some(Canceled), reports;
        }
        var read, error := stream.Read(buffer, buffer.Length);
        if error.Some? {
          assert chunks[..stream.position] == chunks;
          HardwareDrained(bufferSize, chunks, stream.end, cancel);
          return Some(Faulted(ReadFailed(error.value))), reports;
        }
        if read <= 0 {
          break;
        }
        sha.TransformBlock(buffer, read);
        processed := processed + read;
        StepData(chunks, stream.position - 1);
        Step(chunks, stream.position - 1, bufferSize, m);
        if Throttled(processed, read, bufferSize, ThrottleModulus(bufferSize, 2)) {
          reports := reports + [processed];
        }
      }
      if bufferSize > 0 {
        assert chunks[..stream.position] == chunks;
        HardwareDrained(bufferSize, chunks, stream.end, cancel);
      }
      stop := None;
    }

    /** Lowercase hex through a table lookup per nibble into a char array. */
    static method ConvertToHexFast(bytes: seq<bv8>) returns (hex: string)
      ensures hex == LowerHex(bytes)
    {
      var result := new char[|bytes| * 2];
      for i := 0 to |bytes|
        invariant forall k :: 0 <= k < i ==>
          result[2 * k] == LowerDigits[HighNibble(bytes[k])] && result[2 * k + 1] == LowerDigits[LowNibble(bytes[k])]
      {
        var b := bytes[i];
        result[i * 2] := LowerDigits[(b >> 4) as int];
        result[i * 2 + 1] := LowerDigits[(b & 0xF) as int];
      }
      hex := result[..];
      forall j | 0 <= j < |hex|
        ensures hex[j] == LowerHex(bytes)[j]
      {
        HexWithAt(LowerDigits, bytes, j / 2);
        assert j == 2 * (j / 2) || j == 2 * (j / 2) + 1;
      }
    }
  }
}
