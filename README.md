# csharp-hash in Dafny

A model of CSharpHash, a desktop SHA-256 file hasher. It has two layers.

- `Services.HashingService` is the engine. It reads a file chunk by chunk into one reused
  buffer and feeds each chunk to a SHA-256 accumulator. It keeps a running count of the bytes
  processed and reports progress to an observer on a throttle. At the end it renders the digest
  as lowercase hex and as base64. Both of its variants are modelled:
  - `ComputeSha256Async` uses `IncrementalHash`, synchronous reads, a token check after each read
    that delivers data, and a throttle of four buffers;
  - `ComputeSha256HardwareAsync` uses `SHA256.TransformBlock`, asynchronous reads that check the
    token before every read, and a throttle of two buffers.
- `ViewModels.MainViewModel` is the window's controller. It owns the path being edited, the
  displayed hex and base64 text, the details of the last completed hash, progress, and at most
  one hashing session identified by a token. `StartHashAsync` is split into:
  - the synchronous start;
  - the later end of its engine call: `EngineSucceeded`, `EngineCanceled` or `EngineFailed`, each
    carrying the session's token.

  Progress reports, the case toggle, typing, clearing and the cancel command may arrive in
  between these events. Each event is a function from state to state (`AfterStart`,
  `AfterSuccess`, ...). The class keeps the same state in fields, and each of its methods is proved
  to move that state exactly as its function says.

SHA-256 is a parameter of the service: a function from the bytes appended to a 32-byte
digest. A file is a `FileEntry`: either an error on opening, or the length the stream declares
followed by the successive non-empty reads it delivers and how it ends (end of file, or a read
error). `FileChunks` gives the reads of a regular file. Cancellation is a `Cancellation` value:
never, before the run starts, or before read `j`. The base64 encoder and its decoder follow
section 4 of RFC 4648.

Where the code's behaviour differs from what one might expect of it, the model follows the code:
- The last count is not always reported. A count is reported only when it is a multiple of the
  throttle divisor or when the read was short. So a file of exactly two buffers gets no progress
  report at all from the incremental variant (`Services.TwoBufferFileUnreported`).
- The throttle divisor is computed in 32-bit `int` arithmetic. For a buffer size of 2^30 the
  incremental variant's four buffers wrap to 0, and the remainder throws after the first append.
  A negative buffer size is rejected when the buffer is rented or allocated.
- A start is refused while hashing, so a newer session never supersedes a running one. The
  stale-token branch of the success path is defensive only: the ghost set `pending` proves that
  a completion always carries the current token.
- The cancel handler's restore and the failure handler's message are not guarded by the token.
  Only the `finally` block's end of the session is.
- A failure does not restore the display that the start cleared (`ViewModels.FailureKeepsDisplayCleared`).
- Cancelling restores the snapshot's hex in the case it had when the session started, even if
  the case was toggled during the session (`ViewModels.CancelKeepsSnapshotCase`).
- A cancel that arrives after the last data read is ignored by the incremental variant but stops
  the hardware variant, whose final empty read still checks the token (`Services.LateCancelDiffers`).
- A zero-size buffer reads nothing: the first read returns 0, so the loop ends at once, and a run that completes reports the digest of the empty input while `Bytes` is the file's declared length (`Services.CompletedResult`). The hardware variant's single `ReadAsync` still checks the token first.
- Cancelling does not restore the progress figures, and clearing does not cancel a running session.

## Model

Small helpers of the proofs (nibble, digit and sextet conversions, bit regrouping, the lemmas in
`Arithmetic`, and the predicates that bundle a lemma's conclusion) have no row of their own; the
rows below name them where they carry a property.

| member | source | states |
|---|---|---|
| Text.IsWhiteSpace | CSharpHash/Services/HashingService.cs:32 | the characters `Char.IsWhiteSpace` accepts; no contract of its own, used through `Text.IsNullOrWhiteSpace` |
| Text.IsNullOrWhiteSpace | CSharpHash/Services/HashingService.cs:32 | empty or white space only; no contract of its own, its use is stated by `Services.PathRejectedFirst` and `ViewModels.LaunchNeverInvalidPath` |
| Text.UpperChar | CSharpHash/ViewModels/MainViewModel.cs:89 | `Char.ToUpperInvariant` on one character; no contract of its own, characterised by `Text.CaseMapsInverse` and `Text.CaseChangeKeepsLetters` |
| Text.LowerChar | CSharpHash/Services/HashingService.cs:155 | `Char.ToLowerInvariant` on one character; no contract of its own, characterised by `Text.CaseMapsInverse` and `Text.CaseChangeKeepsLetters` |
| Text.CaseMapsInverse | CSharpHash/ViewModels/MainViewModel.cs:89 | the two maps undo each other on the letters they move; after upper-casing no lowercase letter is left and after lower-casing no uppercase one; each map is idempotent; a character changes exactly when it is a letter of the case mapped away from |
| Text.ToUpper | CSharpHash/ViewModels/MainViewModel.cs:89 | keeps the length and upper-cases each character in place |
| Text.ToLower | CSharpHash/Services/HashingService.cs:155 | keeps the length and lower-cases each character in place |
| Text.CaseChangeKeepsLetters | CSharpHash/ViewModels/MainViewModel.cs:89 | folding either way after a case change gives the same text; both case maps are idempotent |
| Encoding.HexWith | CSharpHash/Services/HashingService.cs:105 | base16 text through a sixteen-digit table has exactly two characters per byte |
| Encoding.LowerHex | CSharpHash/Services/HashingService.cs:100-113 | lowercase base16; no contract of its own (its length is stated on `HexWith`), characterised by `Encoding.HexWithAt`, `Encoding.LowerHexAlphabet` and `Encoding.LowerHexRoundTrip` |
| Encoding.UpperHex | CSharpHash/Services/HashingService.cs:155 | uppercase base16 as `Convert.ToHexString` writes it; characterised by `Encoding.HexWithAt`, `Encoding.UpperHexLowered` and `Encoding.LowerHexRaised` |
| Encoding.Base64Encode | CSharpHash/Services/HashingService.cs:85 | padded base64 of section 4 of RFC 4648; no contract of its own, characterised by `Encoding.Base64Length` and `Encoding.Base64RoundTrip` |
| Encoding.HexWithAt | CSharpHash/Services/HashingService.cs:105-111 | characters 2i and 2i+1 of hex text are the digits of byte i's high and low nibble (the length, two characters per byte, is an ensures of `HexWith`) |
| Encoding.LowerHexAlphabet | CSharpHash/Services/HashingService.cs:103-112 | the hex of n bytes has length 2n and uses only the digits 0-9a-f |
| Encoding.DecodeHex | CSharpHash/Services/HashingService.cs:100-113 | reference decoder for hex text: whatever it decodes had two characters per byte |
| Encoding.LowerHexRoundTrip | CSharpHash/Services/HashingService.cs:100-113 | decoding the lowercase hex of any bytes gives those bytes back |
| Encoding.LowerHexInjective | CSharpHash/Services/HashingService.cs:100-113 | distinct byte sequences never have the same hex |
| Encoding.UpperHexLowered | CSharpHash/Services/HashingService.cs:155 | lowercasing `Convert.ToHexString`'s output gives the lookup-table rendering |
| Encoding.LowerHexRaised | CSharpHash/ViewModels/MainViewModel.cs:420 | uppercasing the lowercase hex gives `Convert.ToHexString`'s rendering |
| Encoding.Base64Length | CSharpHash/Services/HashingService.cs:85 | base64 text has four characters per started group of three bytes |
| Encoding.Base64RoundTrip | CSharpHash/Services/HashingService.cs:85 | decoding the base64 of any bytes gives those bytes back |
| Encoding.Base64Decode | CSharpHash/Services/HashingService.cs:85 | reference decoder for RFC 4648 section 4 base64, padding allowed only in the last group; no contract of its own, the partner of `Encoding.Base64Encode` through `Encoding.Base64RoundTrip` |
| Encoding.LastGroupDecodes | CSharpHash/Services/HashingService.cs:85 | a text of one well-formed final group decodes to exactly that group's bytes |
| Services.ThrottleModulus | CSharpHash/Services/HashingService.cs:69 | `BufferSize * factor` as 32-bit `int` arithmetic computes it, as a divisor; characterised by `Services.FourBufferModulus`, `Services.FourBufferModulusZero` and `Services.TwoBufferModulusPositive` |
| Services.Throttled | CSharpHash/Services/HashingService.cs:69 | the report condition; no contract of its own, its effect is stated by `Services.ReportedIff` |
| Services.Flatten | CSharpHash/Services/HashingService.cs:65 | the bytes handed to the hash, the reads in order; no contract of its own, characterised by `Services.FlattenLength`, `Services.FlattenPrefix` and `Services.StepData` |
| Services.Sum | CSharpHash/Services/HashingService.cs:66 | the running `processed` count; no contract of its own, tied to `Services.Flatten` by `Services.FlattenLength` |
| Services.Reports | CSharpHash/Services/HashingService.cs:66-72 | the counts the observer receives, in order; no contract of its own, characterised by `Services.ReportsAscend`, `Services.ReportedIff`, `Services.ReportsPrefix` and `Services.Step` |
| Services.StepData | CSharpHash/Services/HashingService.cs:65-66 | one more read extends the hashed bytes by its chunk and the count by its length |
| Services.Step | CSharpHash/Services/HashingService.cs:69-72 | one more read adds its count to the reports exactly when the throttle lets it through |
| Services.FileChunks | CSharpHash/Services/HashingService.cs:60 | the reads a regular file delivers into a positive buffer; no contract of its own, characterised by `Services.FileChunksShape` |
| Services.Conclude | CSharpHash/Services/HashingService.cs:75-96 | the end of a run after its read loop: the loop's stop, or the result for the bytes hashed; no contract of its own, characterised by `Services.ConcludedResult` |
| Services.Fault.Message | CSharpHash/Services/HashingService.cs:34 | the `Exception.Message` of each fault; no contract of its own, shown by `ViewModels.FailureOnlyShowsError` |
| Services.ResultFor | CSharpHash/Services/HashingService.cs:84-96 | the result built from a digest; no contract of its own, characterised by `Services.ResultForDecodes` |
| Services.IncrementalLoop | CSharpHash/Services/HashingService.cs:57-77 | the read loop of the incremental variant as a function; no contract of its own, characterised by `Services.IncrementalCanceledAt`, `Services.IncrementalDivideByZero`, `Services.IncrementalDrained`, `Services.IncrementalLoopSound` and `Services.IncrementalLoopTruncates`, and implemented by `Services.HashingService.ReadAndAppend` |
| Services.HardwareLoop | CSharpHash/Services/HashingService.cs:136-152 | the read loop of the hardware variant as a function; no contract of its own, characterised by `Services.HardwareCanceledAt`, `Services.HardwareDrained`, `Services.HardwareLoopSound` and `Services.HardwareLoopTruncates`, and implemented by `Services.HashingService.ReadAndTransform` |
| Services.IncrementalRun | CSharpHash/Services/HashingService.cs:27-97 | the whole incremental run; no contract of its own, characterised by the run-level lemmas below and implemented by `Services.HashingService.ComputeSha256Async` |
| Services.HardwareRun | CSharpHash/Services/HashingService.cs:116-168 | the whole hardware run; no contract of its own, characterised by the run-level lemmas below and implemented by `Services.HashingService.ComputeSha256HardwareAsync` |
| Services.Wrap32 | CSharpHash/Services/HashingService.cs:69 | 32-bit wrap-around: the result is in `int` range and congruent to the input modulo 2^32 |
| Services.FourBufferModulus | CSharpHash/Services/HashingService.cs:69 | below 512 MiB the incremental throttle divisor is exactly four buffers |
| Services.FourBufferModulusZero | CSharpHash/Services/HashingService.cs:69 | the incremental divisor wraps to 0 exactly at a buffer size of 2^30 |
| Services.TwoBufferModulusPositive | CSharpHash/Services/HashingService.cs:146 | the hardware variant's divisor never wraps to 0 for a positive buffer size |
| Services.CancelPoint | CSharpHash/Services/HashingService.cs:62 | the first token check that sees cancellation: no earlier check sees it, and this one does unless none does |
| Services.FlattenLength | CSharpHash/Services/HashingService.cs:65-66 | `processed` equals the number of bytes appended |
| Services.ReportsAscend | CSharpHash/Services/HashingService.cs:66-72 | every reported count is positive and at most the bytes processed, and the reports strictly increase |
| Services.ReportedIff | CSharpHash/Services/HashingService.cs:69-72 | the count after read k is reported if and only if it is a multiple of the divisor or read k was short |
| Services.ReportsPrefix | CSharpHash/Services/HashingService.cs:60-73 | the reports of the first c reads are a prefix of the reports of all of them |
| Services.FlattenPrefix | CSharpHash/Services/HashingService.cs:60-73 | the bytes appended over the first c reads are a prefix of all the bytes |
| Services.FileChunksShape | CSharpHash/Services/HashingService.cs:60 | a regular file's reads fit the buffer and deliver its content; all but the last are full; the last is full if and only if the length is a multiple of the buffer size |
| Services.FinalCountReported | CSharpHash/Services/HashingService.cs:69-72 | a regular file's total is reported if and only if it is a multiple of the divisor or not a multiple of the buffer size |
| Services.TwoBufferFileUnreported | CSharpHash/Services/HashingService.cs:69-72 | a file of exactly two buffers gets no report from the incremental variant |
| Services.IncrementalCanceledAt | CSharpHash/Services/HashingService.cs:60-73 | when the check after read p sees the token, the loop stops cancelled with the reports and bytes of the first p reads |
| Services.IncrementalDivideByZero | CSharpHash/Services/HashingService.cs:65-69 | when the divisor wraps to 0, the first read is appended and then the remainder faults, with no report |
| Services.IncrementalDrained | CSharpHash/Services/HashingService.cs:60-75 | with a positive buffer and no cancellation seen, the loop appends every read, reports the throttled counts `Services.Reports` gives (none when the four-buffer divisor wraps to 0, where only an empty stream drains) and then stops with the stream's read error, or with nothing at its end |
| Services.HardwareCanceledAt | CSharpHash/Services/HashingService.cs:139-150 | when ReadAsync p sees the token, the loop stops cancelled with the reports and bytes of the first p reads |
| Services.HardwareDrained | CSharpHash/Services/HashingService.cs:139-152 | with a positive buffer and no cancellation seen, the loop transforms every read, reports the throttled counts `Services.Reports` gives for the two-buffer divisor, and then stops with the stream's read error, or with nothing at its end |
| Services.IncrementalLoopSound | CSharpHash/Services/HashingService.cs:57-77 | the loop's reports strictly increase and never exceed the bytes hashed; it never stops with a completion or a path error; if it drains with a positive buffer it met the end of the stream and hashed all of it, and with a zero-size buffer it hashed nothing |
| Services.HardwareLoopSound | CSharpHash/Services/HashingService.cs:136-152 | the same for the hardware variant's loop, including the zero-size-buffer case |
| Services.RunReportsSound | CSharpHash/Services/HashingService.cs:27-168 | in both variants, reported counts strictly increase and never exceed the bytes hashed |
| Services.IncrementalLoopTruncates | CSharpHash/Services/HashingService.cs:60-73 | a cancelled loop hashes and reports a prefix of what the uncancelled loop does |
| Services.HardwareLoopTruncates | CSharpHash/Services/HashingService.cs:139-150 | the same for the hardware variant |
| Services.CancelTruncates | CSharpHash/Services/HashingService.cs:27-168 | once the token is seen nothing more is hashed or reported: a cancelled run's reports and bytes are prefixes of the uncancelled run's |
| Services.CompletedResult | CSharpHash/Services/HashingService.cs:84-96 | a completed run opened the file; with a positive buffer it hashed every byte of a stream that ended cleanly, and with a zero-size buffer it hashed nothing; its result carries the caller's path and the declared length; its 64-character hex and its base64 decode to the digest of those bytes |
| Services.CompletedIsResultFor | CSharpHash/Services/HashingService.cs:84-96 | a completed run's result is exactly the result for the bytes it hashed (both variants) |
| Services.IncrementalCompleted | CSharpHash/Services/HashingService.cs:57-96 | a completed incremental run with a positive buffer hashed every byte of the file, and returns the result for those bytes |
| Services.ConcludedResult | CSharpHash/Services/HashingService.cs:75-96 | a sound loop on an open file concludes with a sound result |
| Services.ResultForDecodes | CSharpHash/Services/HashingService.cs:84-96 | the fields of a `HashResult`: the path, byte count and elapsed time as given; hex of length 64 and base64, both decoding to the digest |
| Services.VariantsAgree | CSharpHash/Services/HashingService.cs:152-167 | when both variants complete on the same file they return the same result and hashed the same bytes, so the hardware variant's hex equals `ConvertToHexFast`'s |
| Services.LateCancelDiffers | CSharpHash/Services/HashingService.cs:139 | a cancel after the last data read lets the incremental variant complete but stops the hardware variant, even though it has then transformed the whole file |
| Services.ResultIndependentOfBufferSize | CSharpHash/Services/HashingService.cs:60-96 | for a regular file, with any usable buffer size, both variants complete with the result for the whole content |
| Services.PathRejectedFirst | CSharpHash/Services/HashingService.cs:32-35 | a blank path is rejected before anything else in both variants, with nothing hashed or reported |
| Services.FileStream.Open | CSharpHash/Services/HashingService.cs:42-50 | the stream declares the file's length and no read has been delivered yet |
| Services.FileStream.Read | CSharpHash/Services/HashingService.cs:60 | a read delivers the next chunk into the front of the buffer and advances; at the end it returns 0, or the stream's error; a zero-count read returns 0 |
| Services.IncrementalHash.AppendData | CSharpHash/Services/HashingService.cs:65 | the first `count` bytes of the buffer are appended |
| Services.IncrementalHash.GetHashAndReset | CSharpHash/Services/HashingService.cs:75 | returns the digest of everything appended and empties the accumulator |
| Services.Sha256.TransformBlock | CSharpHash/Services/HashingService.cs:142 | the first `count` bytes of the buffer are transformed |
| Services.Sha256.TransformFinalBlock | CSharpHash/Services/HashingService.cs:152-153 | `Hash` becomes the digest of everything transformed |
| Services.HashingService.constructor | CSharpHash/Services/HashingService.cs:24 | a new service has a 2 MiB buffer |
| Services.HashingService.ComputeSha256Async | CSharpHash/Services/HashingService.cs:27-97 | the run is `IncrementalRun`: path check, cancelled start, open failure, rent failure, then the read loop and the result |
| Services.HashingService.ReadAndAppend | CSharpHash/Services/HashingService.cs:57-77 | the loop's stop, its reports and the bytes appended are those of `IncrementalLoop` |
| Services.HashingService.ComputeSha256HardwareAsync | CSharpHash/Services/HashingService.cs:116-168 | the run is `HardwareRun`: path check, open failure, allocation failure, then the read loop and the result |
| Services.HashingService.ReadAndTransform | CSharpHash/Services/HashingService.cs:136-150 | the loop's stop, its reports and the bytes transformed are those of `HardwareLoop` |
| Services.HashingService.ConvertToHexFast | CSharpHash/Services/HashingService.cs:100-113 | the text the lookup loop writes is the lowercase hex of the bytes |
| ViewModels.FileExists | CSharpHash/ViewModels/MainViewModel.cs:359 | `File.Exists`: false for a blank path; no contract of its own |
| ViewModels.HasPathInput | CSharpHash/ViewModels/MainViewModel.cs:51 | the path is not empty; no contract of its own, stated by `ViewModels.ClearResets` |
| ViewModels.HasLastInfo | CSharpHash/ViewModels/MainViewModel.cs:193 | path not empty, byte count and elapsed time present; no contract of its own, stated by `ViewModels.StartResets`, `ViewModels.SuccessShowsResult` and `ViewModels.ClearResets` |
| ViewModels.HasError | CSharpHash/ViewModels/MainViewModel.cs:194 | the error message is not empty; no contract of its own, stated by `ViewModels.FailureOnlyShowsError` |
| ViewModels.ShowResultInfo | CSharpHash/ViewModels/MainViewModel.cs:195 | details present and not hashing; no contract of its own, stated by `ViewModels.SuccessShowsResult` (shown exactly when the path is not empty) and `ViewModels.StartResets` |
| ViewModels.AfterAssignPath | CSharpHash/ViewModels/MainViewModel.cs:31-39 | the setter's assignment; no contract of its own, implemented by `ViewModels.MainViewModel.AssignPathInput` |
| ViewModels.AfterProgress | CSharpHash/ViewModels/MainViewModel.cs:399-404 | a progress report; implemented by `ViewModels.MainViewModel.ReportProgress` |
| ViewModels.AfterFinally | CSharpHash/ViewModels/MainViewModel.cs:444-452 | the `finally` block; characterised by `ViewModels.OnlyCurrentTokenEndsSession` |
| ViewModels.AfterSuccess | CSharpHash/ViewModels/MainViewModel.cs:410-422 | the success path; characterised by `ViewModels.SuccessShowsResult` and `ViewModels.SuccessShowsDigest` |
| ViewModels.AfterRestorePath | CSharpHash/ViewModels/MainViewModel.cs:427-429 | the cancel handler's path restore; related to the setter by `ViewModels.RestoreStartsNothing` |
| ViewModels.AfterCancel | CSharpHash/ViewModels/MainViewModel.cs:424-439 | the cancel handler; characterised by `ViewModels.CancelRestoresDisplay`, `ViewModels.RetypeThenCancel` and `ViewModels.CancelKeepsSnapshotCase` |
| ViewModels.AfterFailure | CSharpHash/ViewModels/MainViewModel.cs:440-443 | the failure handler; characterised by `ViewModels.FailureOnlyShowsError` and `ViewModels.FailureKeepsDisplayCleared` |
| ViewModels.AfterEngine | CSharpHash/ViewModels/MainViewModel.cs:406-452 | the end of the engine call; characterised by `ViewModels.OnlyCurrentTokenEndsSession` and `ViewModels.CompletedSessionShowsDigest` |
| ViewModels.AfterUppercase | CSharpHash/ViewModels/MainViewModel.cs:81-92 | the Uppercase setter; characterised by `ViewModels.UppercaseRecasesOnly` and `ViewModels.CaseToggleRoundTrip` |
| ViewModels.AfterClear | CSharpHash/ViewModels/MainViewModel.cs:331-344 | OnClear; characterised by `ViewModels.ClearResets` |
| ViewModels.AfterCancelCommand | CSharpHash/ViewModels/MainViewModel.cs:346-349 | OnCancel; implemented by `ViewModels.MainViewModel.OnCancel` |
| ViewModels.RestoreStartsNothing | CSharpHash/ViewModels/MainViewModel.cs:42 | the restore runs the PathInput setter with `_isRestoringPath` set, so it starts no hash, and the state it leaves is `AfterRestorePath`'s |
| ViewModels.ProgressPercent | CSharpHash/ViewModels/MainViewModel.cs:115 | 0 without a positive total; 0..100 for a non-negative count; 100 once the count reaches the total; otherwise the whole part of 100·processed/total |
| ViewModels.AfterStart | CSharpHash/ViewModels/MainViewModel.cs:357-396 | a start launches if and only if no session runs and the path names a file; a refused start changes nothing; an accepted one launches the path with the next token |
| ViewModels.AfterPathInput | CSharpHash/ViewModels/MainViewModel.cs:26-49 | the setter sets the path; it starts a hash if and only if the path changes, automatic hashing is on, no path is being restored, no session runs and the file exists |
| ViewModels.StartResets | CSharpHash/ViewModels/MainViewModel.cs:364-396 | an accepted start clears the error, display, details and percent, sets progress to (0, length), snapshots the old display, records the path to restore, takes the next token and keeps the path and flags |
| ViewModels.OnlyCurrentTokenEndsSession | CSharpHash/ViewModels/MainViewModel.cs:406-452 | only an engine call with the current token ends the session; a stale one leaves the session alone, and a stale completion changes nothing |
| ViewModels.SuccessShowsResult | CSharpHash/ViewModels/MainViewModel.cs:415-422 | a current completion shows the hex in the selected case, the base64 and the details, sets progress to 100%, remembers the path, and shows the details if and only if the path is not empty |
| ViewModels.FailureOnlyShowsError | CSharpHash/ViewModels/MainViewModel.cs:440-452 | a failure sets the error message and changes nothing else except the end of a current session |
| ViewModels.FailureKeepsDisplayCleared | CSharpHash/ViewModels/MainViewModel.cs:374-389 | after a start and a failure, the display stays empty and only the error shows |
| ViewModels.CancelRestoresDisplay | CSharpHash/ViewModels/MainViewModel.cs:424-439 | cancelling the session a start opened restores the display exactly; the path becomes the last completed path recorded before the start when there is one and otherwise stays; no session and no error remain |
| ViewModels.RetypeThenCancel | CSharpHash/ViewModels/MainViewModel.cs:426-429 | a path typed during a hash starts nothing; the cancel then sets the path to the last completed path recorded before the start when there is one, and otherwise the typed path stays; the typing itself recorded the session's path as the last completed one; the display is restored |
| ViewModels.CancelKeepsSnapshotCase | CSharpHash/ViewModels/MainViewModel.cs:437 | a case toggle during a session is not applied to the hex that a cancel restores |
| ViewModels.UppercaseRecasesOnly | CSharpHash/ViewModels/MainViewModel.cs:81-92 | the Uppercase setter changes the flag and the case of each hex character, and nothing else |
| ViewModels.CaseToggleRoundTrip | CSharpHash/ViewModels/MainViewModel.cs:81-92 | on a digest's hex, switching to uppercase shows `Convert.ToHexString`'s text, and switching back restores the whole state |
| ViewModels.ClearResets | CSharpHash/ViewModels/MainViewModel.cs:331-344 | OnClear empties the path, display, error, details and progress, records the cleared path, and leaves the session alone |
| ViewModels.LaunchNeverInvalidPath | CSharpHash/ViewModels/MainViewModel.cs:359-408 | a launched path is never blank, so neither engine variant answers it with the path error |
| ViewModels.CompletedSessionShowsDigest | CSharpHash/ViewModels/MainViewModel.cs:406-422 | a session whose incremental run completes shows hex (lowered if shown in uppercase) and base64 that decode to the digest of every byte of the file, and details naming the file and its length |
| ViewModels.SessionShowsResult | CSharpHash/ViewModels/MainViewModel.cs:415-421 | after a start, the completion with the result for a digest shows hex that decodes to that digest in either case, the result's base64 and its details, shown exactly when the path is not empty |
| ViewModels.SuccessShowsDigest | CSharpHash/ViewModels/MainViewModel.cs:420 | a result's hex, shown in either case, decodes back to its digest |
| ViewModels.MainViewModel.constructor | CSharpHash/ViewModels/MainViewModel.cs:14-116 | a new controller is in the initial state: empty, not hashing, automatic hashing on |
| ViewModels.MainViewModel.StartHash | CSharpHash/ViewModels/MainViewModel.cs:357-397 | the fields move as `AfterStart` says; an accepted start adds its token to the pending sessions |
| ViewModels.MainViewModel.AssignPathInput | CSharpHash/ViewModels/MainViewModel.cs:31-39 | the fields move as `AfterAssignPath` says |
| ViewModels.MainViewModel.SetPathInput | CSharpHash/ViewModels/MainViewModel.cs:26-49 | the fields move as `AfterPathInput` says; a start it makes adds its token to the pending sessions |
| ViewModels.MainViewModel.ReportProgress | CSharpHash/ViewModels/MainViewModel.cs:399-404 | only the processed count changes |
| ViewModels.MainViewModel.Finally | CSharpHash/ViewModels/MainViewModel.cs:444-452 | the session ends only for the current token |
| ViewModels.MainViewModel.EngineSucceeded | CSharpHash/ViewModels/MainViewModel.cs:408-423 | the fields move as `AfterSuccess` says; a completion of a pending session carries the current token |
| ViewModels.MainViewModel.EngineCanceled | CSharpHash/ViewModels/MainViewModel.cs:424-439 | the fields move as `AfterCancel` says |
| ViewModels.MainViewModel.RestorePath | CSharpHash/ViewModels/MainViewModel.cs:427-429 | the path returns to the one from before the session without recording it or starting a hash |
| ViewModels.MainViewModel.EngineFailed | CSharpHash/ViewModels/MainViewModel.cs:440-443 | the fields move as `AfterFailure` says |
| ViewModels.MainViewModel.EngineFinished | CSharpHash/ViewModels/MainViewModel.cs:406-453 | the end of the engine call, dispatched on its outcome, as `AfterEngine` says |
| ViewModels.MainViewModel.SetUppercase | CSharpHash/ViewModels/MainViewModel.cs:81-92 | the fields move as `AfterUppercase` says |
| ViewModels.MainViewModel.OnClear | CSharpHash/ViewModels/MainViewModel.cs:331-344 | the fields move as `AfterClear` says |
| ViewModels.MainViewModel.OnCancel | CSharpHash/ViewModels/MainViewModel.cs:346-349 | the current cancellation source, if any, is cancelled |

## Left out

- SHA-256 itself is a parameter: a function from the bytes fed in to 32 bytes. Nothing else about it is assumed.
- File I/O is modelled by `FileEntry` and the `FileSystem` map; the operating system, sharing modes, the OS buffer size and the sequential-scan hint are not modelled.
- `Stopwatch` and `DateTimeOffset.Now` are parameters (`elapsed`, `now`).
- `ArrayPool` is not modelled: the rented buffer is a fresh array of exactly `BufferSize` bytes. A larger rented array changes nothing, because every read asks for `BufferSize` bytes.
- Threads are not modelled: `Task.Run`, `await`, `Progress<T>`'s dispatch to the UI thread and the interleaving of events. Each event is atomic, and the events may arrive in any order.
- The engine call reads `PathInput` when its thread-pool work item runs, not when the session starts. The model fixes the launched path at the start, so a path typed between the start and that read is not what the model hashes.
- `Services.HashingService.ComputeSha256HardwareAsync`: omits the token check after each read, because the check inside `ReadAsync` just before it sees the same token state at this model's granularity.
- `ViewModels.ProgressPercent`: uses exact integer arithmetic, where the source computes in `double` and truncates. The two can differ when rounding the double quotient crosses a whole percent.
- `ViewModels.ProgressPercent`: does not model a count above `long`'s range; counts and lengths are unbounded integers.
- The engine's `long` counters (`processed`, `totalBytes`) are unbounded integers, so their overflow past 2^63 - 1 is not modelled; nor is the out-of-memory failure of renting or allocating a buffer of a very large positive size.
- The `FormatBytes`, `FormatTimeSpan` and `FormatThroughput` helpers are not modelled; they work in floating point with culture-specific formatting.
- Commands and their can-execute rules, property-change notifications, the browse dialog, the clipboard, `MainWindow` and `App` are not modelled.
- `Char.IsWhiteSpace` is modelled for the characters .NET treats as white space. `ToUpperInvariant` and `ToLowerInvariant` are modelled on ASCII letters only, which are the only letters hex text contains.
- The five `_prev*` fields are grouped into one `Snapshot` record, and the displayed fields into a `Display` record. HexOutput and Base64Output are non-null strings in the display and nullable in the snapshot, as in the source.
