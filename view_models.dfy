/** CSharpHash.ViewModels: the controller of MainViewModel.cs.

    The controller owns the path being edited, the displayed hex and base64 text, the
    details of the last completed hash, progress, and at most one hashing session. A
    session is started synchronously; its engine call then completes later, as one of the
    events EngineSucceeded, EngineCanceled or EngineFailed carrying the session's token,
    while other events (progress reports, the case toggle, typing, the cancel command) may
    arrive in between. Each event is a `function` from the observable state before it to the
    state after it; the class `MainViewModel` keeps the same state in fields and its methods
    are proved to move it exactly as those functions say. */
module ViewModels {
  import opened Wrappers
  import opened Text
  import opened Arithmetic
  import Encoding
  import Services

  /** What File.Exists and FileInfo.Length see: each existing file with its length, or None
      when the length cannot be read. */
  type FileSystem = map<string, Option<int>>

  /** File.Exists: false for a blank path, otherwise whether the file is there. */
  predicate FileExists(fs: FileSystem, path: string) {
    !IsNullOrWhiteSpace(path) && path in fs
  }

  /** The engine call a start hands off: the path to hash and the session's token. */
  datatype Launch = Launch(path: string, token: nat)

  /** LastElapsed, LastBytes and LastPath: the details of the last completed hash, each
      nullable. */
  datatype LastInfo = LastInfo(elapsed: Option<int>, bytes: Option<int>, path: Option<string>)

  const NoLastInfo: LastInfo := LastInfo(None, None, None)

  /** What the window shows of a result: HexOutput, Base64Output and the last hash's details. */
  datatype Display = Display(hexOutput: string, base64Output: string, last: LastInfo)

  const EmptyDisplay: Display := Display("", "", NoLastInfo)

  /** The fields _prevHexOutput, _prevBase64Output, _prevLastElapsed, _prevLastBytes and
      _prevLastPath: the display as it was when the current session started. */
  datatype Snapshot = Snapshot(hexOutput: Option<string>, base64Output: Option<string>, last: LastInfo)

  /** ProgressProcessedBytes and ProgressTotalBytes. */
  datatype Progress = Progress(processed: int, total: int)

  /** Every field of the controller, with the fields above grouped. Nullable fields are
      Options; `cancellationSource` is the current CancellationTokenSource, None when null,
      otherwise whether Cancel was called on it. */
  datatype ViewState = ViewState(
    token: nat,
    cancellationSource: Option<bool>,
    isHashing: bool,
    snapshot: Snapshot,
    pathInput: string,
    display: Display,
    uppercase: bool,
    autoHash: bool,
    progress: Progress,
    startedAt: Option<int>,
    previousPathBeforeHash: Option<string>,
    isRestoringPath: bool,
    lastCompletedPath: Option<string>,
    errorMessage: Option<string>)

  /** The state of a new controller: everything empty, automatic hashing on. */
  const Initial: ViewState := ViewState(
    token := 0, cancellationSource := None, isHashing := false,
    snapshot := Snapshot(None, None, NoLastInfo),
    pathInput := "", display := EmptyDisplay, uppercase := false, autoHash := true,
    progress := Progress(0, 0), startedAt := None,
    previousPathBeforeHash := None, isRestoringPath := false, lastCompletedPath := None,
    errorMessage := None)

  /** string.IsNullOrEmpty on a nullable string. */
  predicate IsNullOrEmpty(s: Option<string>) {
    s.None? || s.value == ""
  }

  /** The getters: whole percent of the progress, capped at 100; whether the last result's
      details are all there; whether an error is showing; whether the details are shown. */
  function ProgressPercent(s: ViewState): (r: int)
    ensures s.progress.total <= 0 ==> r == 0
    ensures 0 <= s.progress.processed ==> 0 <= r <= 100
    ensures s.progress.total > 0 && s.progress.processed >= s.progress.total ==> r == 100
    ensures s.progress.total > 0 && 0 <= s.progress.processed < s.progress.total ==>
      r * s.progress.total <= 100 * s.progress.processed < (r + 1) * s.progress.total
    ensures s.progress.processed < 0 ==> r <= 0
  {
    var processed, total := s.progress.processed, s.progress.total;
    if total <= 0 then 0
    else if processed >= total then 100
    else if processed >= 0 then
      WholePart(100 * processed, total)
    else -(WholePart(-100 * processed, total) as int)
  }

  /** The whole part of x / y. */
  function WholePart(x: nat, y: int): (q: nat)
    requires y > 0
    ensures q * y <= x < (q + 1) * y
    ensures x < 100 * y ==> q < 100
  {
    DivisionBounds(x, y);
    x / y
  }

  lemma DivisionBounds(x: nat, y: int)
    requires y > 0
    ensures (x / y) * y <= x < (x / y + 1) * y
    ensures x < 100 * y ==> x / y < 100
  {
    var q := x / y;
    assert x == q * y + x % y;
    Distribute(q + 1, q, y);
    if x < 100 * y && q >= 100 {
      MulAtLeast(q - 99, y);
      Distribute(q, 99, y);
    }
  }

  predicate HasLastInfo(s: ViewState) {
    var last := s.display.last;
    !IsNullOrEmpty(last.path) && last.bytes.Some? && last.elapsed.Some?
  }

  predicate HasError(s: ViewState) {
    !IsNullOrEmpty(s.errorMessage)
  }

  predicate ShowResultInfo(s: ViewState) {
    HasLastInfo(s) && !s.isHashing
  }

  predicate HasPathInput(s: ViewState) {
    s.pathInput != ""
  }

  /** The PathInput setter's assignment: a real change records the path being replaced
      (unless the cancel handler is restoring one) and sets the new path. */
  function AfterAssignPath(s: ViewState, value: string): ViewState {
    if s.pathInput == value then s
    else
      var captured := if !s.isRestoringPath && s.pathInput != "" then Some(s.pathInput) else s.lastCompletedPath;
      s.(lastCompletedPath := captured, pathInput := value)
  }

  /** Whether StartHashAsync goes ahead: no session running and the path names a file. */
  predicate Accepts(s: ViewState, fs: FileSystem) {
    !s.isHashing && FileExists(fs, s.pathInput)
  }

  /** The synchronous part of StartHashAsync, up to the engine call: clear the error, remember
      the path to restore, snapshot the display and clear it, reset progress to (0, file
      length), stamp the start, take a fresh token and a fresh cancellation source, and mark
      hashing. A refused start changes nothing and launches nothing. */
  function AfterStart(s: ViewState, fs: FileSystem, now: int): (r: (ViewState, Option<Launch>))
    ensures r.1.Some? <==> Accepts(s, fs)
    ensures r.1.None? ==> r.0 == s
    ensures r.1.Some? ==> r.1.value == Launch(s.pathInput, s.token + 1) && r.0.token == r.1.value.token
  {
    if !Accepts(s, fs) then (s, None)
    else
      var shown := s.display;
      var t := s.(
        errorMessage := None, previousPathBeforeHash := s.lastCompletedPath,
        snapshot := Snapshot(Some(shown.hexOutput), Some(shown.base64Output), shown.last),
        display := EmptyDisplay, progress := Progress(0, fs[s.pathInput].GetOr(0)), startedAt := Some(now),
        token := s.token + 1, cancellationSource := Some(false), isHashing := true);
      (t, Some(Launch(s.pathInput, s.token + 1)))
  }

  /** The whole PathInput setter: the assignment, then an automatic start when automatic
      hashing is on, no path is being restored and the new path names a file. */
  function AfterPathInput(s: ViewState, value: string, fs: FileSystem, now: int): (r: (ViewState, Option<Launch>))
    ensures r.0.pathInput == value
    ensures r.1.Some? <==>
      s.pathInput != value && s.autoHash && !s.isRestoringPath && !s.isHashing && FileExists(fs, value)
    ensures r.1.Some? ==> r.1.value.path == value
  {
    if s.pathInput == value then (s, None)
    else
      var t := AfterAssignPath(s, value);
      if t.autoHash && !t.isRestoringPath && FileExists(fs, t.pathInput) then AfterStart(t, fs, now)
      else (t, None)
  }

  /** A progress report of the engine: not token-checked. */
  function AfterProgress(s: ViewState, bytes: int): ViewState {
    s.(progress := s.progress.(processed := bytes))
  }

  /** The `finally` block: only the session holding the current token ends hashing. */
  function AfterFinally(s: ViewState, tok: nat): ViewState {
    if s.token == tok then s.(isHashing := false, cancellationSource := None) else s
  }

  /** A completed engine call: a stale token changes nothing; the current one shows the hex in
      the selected case, the base64 and the result's details, sets progress to (bytes, bytes)
      and remembers the path. */
  function AfterSuccess(s: ViewState, tok: nat, result: Services.HashResult): ViewState {
    if s.token != tok then s
    else
      var hex := if s.uppercase then ToUpper(result.hex) else result.hex;
      var t := s.(
        display := Display(hex, result.base64, LastInfo(Some(result.elapsed), Some(result.bytes), Some(result.path))),
        progress := Progress(result.bytes, result.bytes), lastCompletedPath := Some(result.path));
      AfterFinally(t, tok)
  }

  /** The cancel handler's path restore: the PathInput setter runs on the path from before
      the session (or the current one when there is none) with _isRestoringPath set, so it
      neither records the replaced path nor starts a hash. */
  function AfterRestorePath(s: ViewState): ViewState {
    AfterAssignPath(s.(isRestoringPath := true), s.previousPathBeforeHash.GetOr(s.pathInput)).(isRestoringPath := false)
  }

  /** The restore is the PathInput setter itself, run with _isRestoringPath set: because the
      flag is set, the setter starts no hash, and once the flag is cleared again the state is
      the one AfterRestorePath gives. */
  lemma RestoreStartsNothing(s: ViewState, fs: FileSystem, now: int)
    ensures var r := AfterPathInput(s.(isRestoringPath := true), s.previousPathBeforeHash.GetOr(s.pathInput), fs, now);
      r.1.None? && r.0.(isRestoringPath := false) == AfterRestorePath(s)
  {
  }

  /** A cancelled engine call, whatever its token: restore the path, the snapshot's details
      when it has any, and the snapshot's texts; then the `finally` block. */
  function AfterCancel(s: ViewState, tok: nat): ViewState {
    var restored := AfterRestorePath(s);
    var prev := s.snapshot;
    var hasPrevious := prev.last.path.Some? || prev.last.bytes.Some? || prev.last.elapsed.Some?;
    var last := if hasPrevious then prev.last else s.display.last;
    var shown := Display(prev.hexOutput.GetOr(""), prev.base64Output.GetOr(""), last);
    AfterFinally(restored.(display := shown), tok)
  }

  /** A failed engine call, whatever its token: show the exception's message; then the
      `finally` block. */
  function AfterFailure(s: ViewState, tok: nat, message: string): ViewState {
    AfterFinally(s.(errorMessage := Some(message)), tok)
  }

  /** The end of an engine call, dispatched on how it ended. */
  function AfterEngine(s: ViewState, tok: nat, outcome: Services.Outcome): ViewState {
    match outcome
    case Completed(result) => AfterSuccess(s, tok, result)
    case Canceled => AfterCancel(s, tok)
    case Faulted(fault) => AfterFailure(s, tok, fault.Message())
  }

  /** The Uppercase setter: a real change re-cases the displayed hex. */
  function AfterUppercase(s: ViewState, value: bool): ViewState {
    if s.uppercase == value then s
    else
      var hex := if value then ToUpper(s.display.hexOutput) else ToLower(s.display.hexOutput);
      s.(uppercase := value, display := s.display.(hexOutput := hex))
  }

  /** OnClear: empty the path (through its setter, which cannot start on an empty path) and
      clear the display, the error and the progress. */
  function AfterClear(s: ViewState): ViewState {
    AfterAssignPath(s, "").(display := EmptyDisplay, errorMessage := None, progress := Progress(0, 0))
  }

  /** OnCancel: cancel the current source, if there is one. */
  function AfterCancelCommand(s: ViewState): ViewState {
    if s.cancellationSource.Some? then s.(cancellationSource := Some(true)) else s
  }

  /** The state between events: no path restoration under way, and a cancellation source
      exactly while hashing. */
  predicate Quiescent(s: ViewState) {
    !s.isRestoringPath && (s.isHashing <==> s.cancellationSource.Some?)
  }

  // ---------------------------------------------------------------------------------------
  // Properties of the events

  /** An accepted start clears the error and the display, zeroes the progress against the
      file's length, hides the result details and opens a new session; the snapshot holds
      the display as it was, and the path to restore is the last completed one. */
  lemma StartResets(s: ViewState, fs: FileSystem, now: int)
    requires Accepts(s, fs)
    ensures var t := AfterStart(s, fs, now).0;
      t.isHashing && t.token == s.token + 1 && t.cancellationSource == Some(false)
      && !HasError(t) && t.display == EmptyDisplay && !HasLastInfo(t) && !ShowResultInfo(t)
      && t.progress == Progress(0, fs[s.pathInput].GetOr(0)) && ProgressPercent(t) == 0
      && t.snapshot == Snapshot(Some(s.display.hexOutput), Some(s.display.base64Output), s.display.last)
      && t.previousPathBeforeHash == s.lastCompletedPath && t.startedAt == Some(now)
      && t.pathInput == s.pathInput && t.uppercase == s.uppercase && t.autoHash == s.autoHash
      && (Quiescent(s) ==> Quiescent(t))
  {
    var t := AfterStart(s, fs, now).0;
    assert ProgressPercent(t) * t.progress.total <= 0;
  }

  /** Whatever token an engine call carries, the token stays; only the current one ends the
      session, a stale one leaves hashing and the cancellation source alone, and a stale
      completion changes nothing at all. */
  lemma OnlyCurrentTokenEndsSession(s: ViewState, tok: nat, outcome: Services.Outcome)
    ensures var t := AfterEngine(s, tok, outcome);
      t.token == s.token
      && (tok == s.token ==> !t.isHashing && t.cancellationSource == None)
      && (tok != s.token ==> t.isHashing == s.isHashing && t.cancellationSource == s.cancellationSource)
      && (tok != s.token && outcome.Completed? ==> t == s)
  {
    match outcome
    case Completed(result) =>
    case Canceled =>
      assert AfterRestorePath(s).token == s.token && AfterRestorePath(s).isHashing == s.isHashing;
    case Faulted(fault) =>
  }

  /** The current session's completion shows the result, in the selected case, with its
      details, and full progress; the details are shown exactly when the path is not empty. */
  lemma SuccessShowsResult(s: ViewState, result: Services.HashResult)
    ensures var t := AfterSuccess(s, s.token, result);
      !t.isHashing && t.cancellationSource == None
      && t.display.hexOutput == (if s.uppercase then ToUpper(result.hex) else result.hex)
      && t.display.base64Output == result.base64
      && t.display.last == LastInfo(Some(result.elapsed), Some(result.bytes), Some(result.path))
      && (ShowResultInfo(t) <==> result.path != "")
      && t.progress == Progress(result.bytes, result.bytes)
      && ProgressPercent(t) == (if result.bytes > 0 then 100 else 0)
      && t.lastCompletedPath == Some(result.path) && t.pathInput == s.pathInput && t.errorMessage == s.errorMessage
  {
  }

  /** A failure shows its message and otherwise only ends the session when its token is
      current. */
  lemma FailureOnlyShowsError(s: ViewState, tok: nat, message: string)
    ensures var t := AfterFailure(s, tok, message);
      t.errorMessage == Some(message) && (HasError(t) <==> message != "")
      && t.(errorMessage := s.errorMessage, isHashing := s.isHashing, cancellationSource := s.cancellationSource) == s
  {
  }

  /** A session that starts and then fails leaves the display cleared: the start emptied it
      and the failure handler does not restore the snapshot. */
  lemma FailureKeepsDisplayCleared(s: ViewState, fs: FileSystem, now: int, message: string)
    requires Accepts(s, fs)
    ensures var t := AfterStart(s, fs, now).0; var u := AfterFailure(t, t.token, message);
      u.display == EmptyDisplay && !HasLastInfo(u) && !ShowResultInfo(u)
      && u.errorMessage == Some(message) && !u.isHashing && u.pathInput == s.pathInput
  {
  }

  /** Cancelling the session a start opened puts back the display exactly as it was, returns
      the path to the last completed one (the current path when there is none), and leaves no
      session and no error. */
  lemma CancelRestoresDisplay(s: ViewState, fs: FileSystem, now: int)
    requires Accepts(s, fs)
    ensures var t := AfterStart(s, fs, now).0; var u := AfterCancel(t, t.token);
      u.display == s.display && u.pathInput == s.lastCompletedPath.GetOr(s.pathInput)
      && u.lastCompletedPath == s.lastCompletedPath && u.errorMessage == None
      && !u.isHashing && u.cancellationSource == None && Quiescent(u) && u.token == s.token + 1
  {
    var t := AfterStart(s, fs, now).0;
    var last := s.display.last;
    if !(last.path.Some? || last.bytes.Some? || last.elapsed.Some?) {
      assert last == NoLastInfo;
    }
  }

  /** A path typed while a hash runs starts nothing, but it does record the session's path as
      the last completed one when it differs from it; a cancel then puts back the last
      completed path from before the session (leaving the typed one when there was none) and
      restores the display. */
  lemma RetypeThenCancel(s: ViewState, fs: FileSystem, now: int, value: string)
    requires Accepts(s, fs) && !s.isRestoringPath
    ensures var t := AfterStart(s, fs, now).0;
      var typed := AfterPathInput(t, value, fs, now);
      var u := AfterCancel(typed.0, t.token);
      typed.1.None? && u.pathInput == s.lastCompletedPath.GetOr(value) && u.display == s.display
      && (value != s.pathInput ==> u.lastCompletedPath == Some(s.pathInput))
  {
    var t := AfterStart(s, fs, now).0;
    assert AfterPathInput(t, value, fs, now) == (AfterAssignPath(t, value), None);
    var last := s.display.last;
    if !(last.path.Some? || last.bytes.Some? || last.elapsed.Some?) {
      assert last == NoLastInfo;
    }
  }

  /** Toggling the case during a hash and then cancelling restores the snapshot's hex as it
      was captured, so the displayed hex keeps the old case while the flag has changed. */
  lemma CancelKeepsSnapshotCase(s: ViewState, fs: FileSystem, now: int)
    requires Accepts(s, fs)
    ensures var t := AfterStart(s, fs, now).0;
      var u := AfterCancel(AfterUppercase(t, !s.uppercase), t.token);
      u.uppercase == !s.uppercase && u.display.hexOutput == s.display.hexOutput
  {
  }

  /** The Uppercase setter changes the flag and the case of the displayed hex, character by
      character, and nothing else. */
  lemma UppercaseRecasesOnly(s: ViewState, value: bool)
    ensures var t := AfterUppercase(s, value);
      t.uppercase == value && |t.display.hexOutput| == |s.display.hexOutput|
      && (s.uppercase != value ==> forall i :: 0 <= i < |s.display.hexOutput| ==>
            t.display.hexOutput[i] == (if value then UpperChar(s.display.hexOutput[i]) else LowerChar(s.display.hexOutput[i])))
      && t.(uppercase := s.uppercase, display := t.display.(hexOutput := s.display.hexOutput)) == s
  {
  }

  /** For a digest's lowercase hex, switching to uppercase shows the uppercase hex and
      switching back restores the whole state. */
  lemma CaseToggleRoundTrip(s: ViewState, digest: seq<bv8>)
    requires !s.uppercase && s.display.hexOutput == Encoding.LowerHex(digest)
    ensures AfterUppercase(s, true).display.hexOutput == Encoding.UpperHex(digest)
    ensures AfterUppercase(AfterUppercase(s, true), false) == s
  {
    Encoding.LowerHexRaised(digest);
    Encoding.UpperHexLowered(digest);
  }

  /** OnClear empties the path, the display, the error and the progress, remembers the
      cleared path like any other edit, and leaves a running session alone. */
  lemma ClearResets(s: ViewState)
    ensures var t := AfterClear(s);
      t.pathInput == "" && !HasPathInput(t) && t.display == EmptyDisplay
      && t.errorMessage == None && !HasError(t) && !HasLastInfo(t) && !ShowResultInfo(t)
      && t.progress == Progress(0, 0) && ProgressPercent(t) == 0
      && t.lastCompletedPath == (if s.pathInput != "" && !s.isRestoringPath then Some(s.pathInput) else s.lastCompletedPath)
      && t.token == s.token && t.isHashing == s.isHashing && t.cancellationSource == s.cancellationSource
      && t.snapshot == s.snapshot
  {
  }

  /** A start hands the engine a path that is not blank, so neither variant of the engine
      ever answers it with the invalid-path error. */
  lemma LaunchNeverInvalidPath(s: ViewState, fs: FileSystem, now: int, sha256: seq<bv8> -> Services.Digest,
                               bufferSize: Services.Int32, file: Services.FileEntry,
                               cancel: Services.Cancellation, elapsed: int)
    requires Services.Fits(file, bufferSize)
    ensures var launch := AfterStart(s, fs, now).1;
      launch.Some? ==>
        !IsNullOrWhiteSpace(launch.value.path)
        && Services.IncrementalRun(sha256, bufferSize, launch.value.path, file, cancel, elapsed).outcome
           != Services.Faulted(Services.InvalidPath)
        && Services.HardwareRun(sha256, bufferSize, launch.value.path, file, cancel, elapsed).outcome
           != Services.Faulted(Services.InvalidPath)
  {
    if file.Openable? && bufferSize >= 0 {
      Services.IncrementalLoopSound(bufferSize, file.chunks, file.end, cancel);
      Services.HardwareLoopSound(bufferSize, file.chunks, file.end, cancel);
    }
  }

  /** A session on an existing file whose incremental run completes shows the digest of every
      byte of the file: the hex (lowered again when shown in uppercase) and the base64 both
      decode to it, and the details name the file and its length. */
  lemma CompletedSessionShowsDigest(s: ViewState, fs: FileSystem, now: int, sha256: seq<bv8> -> Services.Digest,
                                    bufferSize: Services.Int32, file: Services.FileEntry,
                                    cancel: Services.Cancellation, elapsed: int)
    requires Accepts(s, fs) && Services.Fits(file, bufferSize) && bufferSize > 0
    ensures var t := AfterStart(s, fs, now).0;
      var run := Services.IncrementalRun(sha256, bufferSize, s.pathInput, file, cancel, elapsed);
      var u := AfterEngine(t, t.token, run.outcome);
      var shown := if u.uppercase then ToLower(u.display.hexOutput) else u.display.hexOutput;
      run.outcome.Completed? ==>
        file.Openable? && run.hashed == Services.Flatten(file.chunks)
        && Encoding.DecodeHex(shown) == Some(sha256(run.hashed))
        && Encoding.Base64Decode(u.display.base64Output) == Some(sha256(run.hashed))
        && u.display.last.path == Some(s.pathInput) && u.display.last.bytes == Some(file.length)
        && ShowResultInfo(u)
  {
    var t := AfterStart(s, fs, now).0;
    var run := Services.IncrementalRun(sha256, bufferSize, s.pathInput, file, cancel, elapsed);
    if run.outcome.Completed? {
      Services.IncrementalCompleted(sha256, bufferSize, s.pathInput, file, cancel, elapsed);
      var result := run.outcome.result;
      Services.ResultForDecodes(sha256, run.hashed, file.length, elapsed, s.pathInput);
      assert AfterEngine(t, t.token, run.outcome) == AfterSuccess(t, t.token, result);
      SessionShowsResult(s, fs, now, result, sha256(run.hashed));
    }
  }

  /** A started session's completion with the result for a digest shows that digest in hex
      (lowered again when shown in uppercase) and the result's base64 and details. */
  lemma SessionShowsResult(s: ViewState, fs: FileSystem, now: int, result: Services.HashResult, digest: seq<bv8>)
    requires Accepts(s, fs) && result.hex == Encoding.LowerHex(digest)
    ensures var t := AfterStart(s, fs, now).0; var u := AfterSuccess(t, t.token, result);
      Encoding.DecodeHex(if u.uppercase then ToLower(u.display.hexOutput) else u.display.hexOutput) == Some(digest)
      && u.display.base64Output == result.base64
      && u.display.last.path == Some(result.path) && u.display.last.bytes == Some(result.bytes)
      && (ShowResultInfo(u) <==> result.path != "")
  {
    var t := AfterStart(s, fs, now).0;
    SuccessShowsDigest(t, result, digest);
  }

  /** The current session's completion with the result for a digest shows that digest: the
      hex, lowered again when shown in uppercase, decodes to it. */
  lemma SuccessShowsDigest(s: ViewState, result: Services.HashResult, digest: seq<bv8>)
    requires result.hex == Encoding.LowerHex(digest)
    ensures var u := AfterSuccess(s, s.token, result);
      Encoding.DecodeHex(if u.uppercase then ToLower(u.display.hexOutput) else u.display.hexOutput) == Some(digest)
  {
    Encoding.LowerHexRoundTrip(digest);
    Encoding.LowerHexRaised(digest);
    Encoding.UpperHexLowered(digest);
  }

  class MainViewModel {
    var token: nat
    var cancellationSource: Option<bool>
    var isHashing: bool
    var snapshot: Snapshot
    var pathInput: string
    var display: Display
    var uppercase: bool
    var autoHash: bool
    var progress: Progress
    var startedAt: Option<int>
    var previousPathBeforeHash: Option<string>
    var isRestoringPath: bool
    var lastCompletedPath: Option<string>
    var errorMessage: Option<string>
    /** The tokens of the sessions whose engine call has not yet come back. */
    ghost var pending: set<nat>

    function State(): ViewState
      reads this
    {
      ViewState(token, cancellationSource, isHashing, snapshot, pathInput, display, uppercase, autoHash,
                progress, startedAt, previousPathBeforeHash, isRestoringPath, lastCompletedPath, errorMessage)
    }

    /** Between events: no path is being restored, a cancellation source exists exactly while
        hashing, and the one session in flight, if any, holds the current token. */
    ghost predicate Valid()
      reads this
    {
      !isRestoringPath && (isHashing <==> cancellationSource.Some?)
      && pending == (if isHashing then {token} else {})
    }

    constructor ()
      ensures State() == Initial && Valid()
    {
      token, cancellationSource, isHashing := 0, None, false;
      snapshot := Snapshot(None, None, NoLastInfo);
      pathInput, display, uppercase, autoHash := "", EmptyDisplay, false, true;
      progress, startedAt := Progress(0, 0), None;
      previousPathBeforeHash, isRestoringPath, lastCompletedPath := None, false, None;
      errorMessage := None;
      pending := {};
    }

    /** StartHashAsync up to its engine call. */
    method StartHash(fs: FileSystem, now: int) returns (launch: Option<Launch>)
      requires Valid()
      modifies this
      ensures (State(), launch) == AfterStart(old(State()), fs, now)
      ensures Valid() && pending == (if launch.Some? then old(pending) + {launch.value.token} else old(pending))
    {
      ghost var before := State();
      if isHashing || !FileExists(fs, pathInput) {
        return None;
      }
      errorMessage := None;
      previousPathBeforeHash := lastCompletedPath;
      // the display is kept for a cancel to restore
      snapshot := Snapshot(Some(display.hexOutput), Some(display.base64Output), display.last);
      display := EmptyDisplay;
      progress := Progress(0, fs[pathInput].GetOr(0));
      startedAt := Some(now);
      token := token + 1;
      cancellationSource := Some(false);
      isHashing := true;
      pending := {token};
      launch := Some(Launch(pathInput, token));
      assert (State(), launch) == AfterStart(before, fs, now);
    }

    /** The assignment part of the PathInput setter. */
    method AssignPathInput(value: string)
      modifies this`pathInput, this`lastCompletedPath
      ensures State() == AfterAssignPath(old(State()), value)
    {
      if pathInput != value {
        if !isRestoringPath && pathInput != "" {
          lastCompletedPath := Some(pathInput);
        }
        pathInput := value;
      }
    }

    /** The PathInput setter. */
    method SetPathInput(value: string, fs: FileSystem, now: int) returns (launch: Option<Launch>)
      requires Valid()
      modifies this
      ensures (State(), launch) == AfterPathInput(old(State()), value, fs, now)
      ensures Valid() && pending == (if launch.Some? then old(pending) + {launch.value.token} else old(pending))
    {
      launch := None;
      if pathInput != value {
        AssignPathInput(value);
        if autoHash && !isRestoringPath && FileExists(fs, pathInput) {
          launch := StartHash(fs, now);
        }
      }
    }

    /** The Progress<long> callback. */
    method ReportProgress(bytes: int)
      modifies this`progress
      ensures State() == AfterProgress(old(State()), bytes)
    {
      progress := progress.(processed := bytes);
    }

    /** The `finally` block of StartHashAsync. */
    method Finally(tok: nat)
      requires (isHashing <==> cancellationSource.Some?) || (token == tok && isHashing)
      modifies this`isHashing, this`cancellationSource, this`pending
      ensures State() == AfterFinally(old(State()), tok)
      ensures pending == old(pending) - {tok}
    {
      if token == tok {
        isHashing := false;
        cancellationSource := None;
      }
      pending := pending - {tok};
    }

    /** The success path of StartHashAsync after its await. A completion that really comes
        from a session carries the current token, so the stale branch is defensive only. */
    method EngineSucceeded(tok: nat, result: Services.HashResult)
      requires Valid()
      modifies this
      ensures State() == AfterSuccess(old(State()), tok, result)
      ensures Valid() && pending == old(pending) - {tok}
      ensures tok in old(pending) ==> tok == old(token)
    {
      ghost var before := State();
      if token != tok {
        Finally(tok);
        return;
      }
      var hex := if uppercase then ToUpper(result.hex) else result.hex;
      display := Display(hex, result.base64, LastInfo(Some(result.elapsed), Some(result.bytes), Some(result.path)));
      progress := Progress(result.bytes, result.bytes);
      lastCompletedPath := Some(result.path);
      Finally(tok);
      assert State() == AfterSuccess(before, tok, result);
    }

    /** The OperationCanceledException handler, then the `finally` block. */
    method EngineCanceled(tok: nat)
      requires Valid()
      modifies this
      ensures State() == AfterCancel(old(State()), tok)
      ensures Valid() && pending == old(pending) - {tok}
    {
      ghost var before := State();
      RestorePath();
      var last := display.last;
      if snapshot.last.path.Some? || snapshot.last.bytes.Some? || snapshot.last.elapsed.Some? {
        last := snapshot.last;
      }
      display := Display(snapshot.hexOutput.GetOr(""), snapshot.base64Output.GetOr(""), last);
      Finally(tok);
      assert State() == AfterCancel(before, tok);
    }

    /** The first step of the OperationCanceledException handler. */
    method RestorePath()
      modifies this`isRestoringPath, this`pathInput, this`lastCompletedPath
      ensures State() == AfterRestorePath(old(State()))
    {
      isRestoringPath := true;
      // the setter's automatic start is skipped while a path is being restored
      AssignPathInput(previousPathBeforeHash.GetOr(pathInput));
      isRestoringPath := false;
    }

    /** The handler for any other exception, then the `finally` block. */
    method EngineFailed(tok: nat, message: string)
      requires Valid()
      modifies this
      ensures State() == AfterFailure(old(State()), tok, message)
      ensures Valid() && pending == old(pending) - {tok}
    {
      errorMessage := Some(message);
      Finally(tok);
    }

    /** The rest of StartHashAsync once its engine call has ended with `outcome`. */
    method EngineFinished(tok: nat, outcome: Services.Outcome)
      requires Valid()
      modifies this
      ensures State() == AfterEngine(old(State()), tok, outcome)
      ensures Valid() && pending == old(pending) - {tok}
    {
      match outcome
      case Completed(result) => EngineSucceeded(tok, result);
      case Canceled => EngineCanceled(tok);
      case Faulted(fault) => EngineFailed(tok, fault.Message());
    }

    /** The Uppercase setter. */
    method SetUppercase(value: bool)
      modifies this`uppercase, this`display
      ensures State() == AfterUppercase(old(State()), value)
    {
      if uppercase != value {
        uppercase := value;
        var hex := if uppercase then ToUpper(display.hexOutput) else ToLower(display.hexOutput);
        display := display.(hexOutput := hex);
      }
    }

    /** OnClear. */
    method OnClear(fs: FileSystem, now: int)
      requires Valid()
      modifies this
      ensures State() == AfterClear(old(State()))
      ensures Valid() && pending == old(pending)
    {
      ghost var before := State();
      var launch := SetPathInput("", fs, now);
      display := EmptyDisplay;
      errorMessage := None;
      progress := Progress(0, 0);
      assert State() == AfterClear(before);
    }

    /** OnCancel. */
    method OnCancel()
      modifies this`cancellationSource
      ensures State() == AfterCancelCommand(old(State()))
    {
      if cancellationSource.Some? {
        cancellationSource := Some(true);
      }
    }
  }
}
