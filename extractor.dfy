/**
 * The staged extraction over one archive: validate the container, open it,
 * gate on a Unity indicator entry, scan the priority targets, fall back to a
 * bounded deep scan of the data folder, and assemble the result record.
 *
 * The archive is an input value: either a failure to open it, or its entry
 * names in archive order with what reading each entry yields. `Extract`
 * specifies the outcome stage by stage; `ExtractVersion` is the step-by-step
 * procedure, proved to compute it.
 */
module Extractor {

  import opened Wrappers
  import opened Bytes
  import opened Validation
  import opened Search

  /** A priority entry: its path in the archive and the name shown for it. */
  datatype Target = Target(path: string, displayName: string)

  /** The priority entries, most likely to hold the version first. */
  const TARGET_FILES: seq<Target> := [
    Target("assets/bin/Data/globalgamemanagers", "globalgamemanagers"),
    Target("assets/bin/Data/data.unity3d", "data.unity3d"),
    Target("assets/bin/Data/level0", "level0"),
    Target("assets/bin/Data/mainData", "mainData"),
    Target("lib/armeabi-v7a/libunity.so", "libunity.so (ARM)"),
    Target("lib/arm64-v8a/libunity.so", "libunity.so (ARM64)"),
    Target("lib/x86/libunity.so", "libunity.so (x86)")
  ]

  /** Entry-name prefixes whose presence marks a Unity build, in the order they are checked. */
  const UNITY_INDICATORS: seq<string> := [
    "assets/bin/Data/",
    "lib/armeabi-v7a/libunity.so",
    "lib/arm64-v8a/libunity.so",
    "lib/x86/libunity.so",
    "lib/x86_64/libunity.so"
  ]

  /** The data folder the deep scan walks, and how many of its entries it reads at most. */
  const DATA_PREFIX := "assets/bin/Data/"
  const DEEP_SCAN_LIMIT := 20

  const INVALID_APK := "Invalid APK file (not a valid ZIP archive)"
  const CORRUPTED_APK := "Corrupted APK file"
  const PERMISSION_DENIED := "Permission denied - cannot access the file"
  const NOT_UNITY := "This APK does not appear to be a Unity game"
  const UNDETERMINED := "Unity version could not be determined (file may be obfuscated)"
  /** What a read of a name the archive does not hold fails with. */
  const NO_SUCH_ENTRY := "no such entry"

  function FoundIndicator(indicator: string): string
  {
    "\U{2713} Found Unity indicator: " + indicator
  }

  function CouldNotRead(displayName: string, reason: string): string
  {
    "\U{26A0} Could not read " + displayName + ": " + reason
  }

  /** What reading one entry yields: its bytes, or the text of the failure. */
  datatype ReadOutcome = Contents(bytes: seq<byte>) | ReadFailure(reason: string)

  /** The ways opening a container that passed the ZIP check can still fail. */
  datatype OpenFailure = Corrupted | PermissionDenied | Unexpected(reason: string)

  /** The archive as the extractor sees it. */
  datatype Archive =
    | NotAZip
    | OpenFailed(failure: OpenFailure)
    | Opened(names: seq<string>, entries: map<string, ReadOutcome>)

  /** The result record. */
  datatype ExtractionResult = ExtractionResult(
    success: bool,
    version: Option<string>,
    sourceFile: Option<string>,
    isUnity: bool,
    error: Option<string>,
    details: seq<string>)

  const INITIAL := ExtractionResult(false, None, None, false, None, [])

  /** The result, and the entries read to reach it, in order. */
  datatype Run = Run(result: ExtractionResult, readLog: seq<string>)

  function OpenFailureMessage(f: OpenFailure): string
  {
    match f
    case Corrupted => CORRUPTED_APK
    case PermissionDenied => PERMISSION_DENIED
    case Unexpected(reason) => "Unexpected error: " + reason
  }

  function Read(entries: map<string, ReadOutcome>, name: string): ReadOutcome
  {
    if name in entries then entries[name] else ReadFailure(NO_SUCH_ENTRY)
  }

  /** The version the search finds in an entry, if the entry can be read. */
  function FoundIn(entries: map<string, ReadOutcome>, name: string): Option<string>
  {
    match Read(entries, name)
    case Contents(data) => FindVersion(data)
    case ReadFailure(_) => None
  }

  /** Some entry name starts with (or equals) the indicator. */
  predicate HasIndicator(names: seq<string>, indicator: string)
  {
    exists f :: f in names && (indicator <= f || f == indicator)
  }

  /** The first indicator, in list order, that some entry name starts with. */
  function FirstIndicator(names: seq<string>, indicators: seq<string>): Option<string>
  {
    if indicators == [] then None
    else if HasIndicator(names, indicators[0]) then Some(indicators[0])
    else FirstIndicator(names, indicators[1..])
  }

  /**
   * The indicator found is the first in list order that some entry name
   * starts with; none is found exactly when no entry name starts with any.
   */
  lemma {:induction false} FirstIndicatorSpec(names: seq<string>, indicators: seq<string>)
    ensures var r := FirstIndicator(names, indicators);
      && (r.Some? ==>
            exists j :: 0 <= j < |indicators| && indicators[j] == r.value && HasIndicator(names, r.value) &&
              forall l :: 0 <= l < j ==> !HasIndicator(names, indicators[l]))
      && (r.None? <==> forall i :: i in indicators ==> !HasIndicator(names, i))
  {
    if indicators != [] && !HasIndicator(names, indicators[0]) {
      var rest := indicators[1..];
      FirstIndicatorSpec(names, rest);
      var r := FirstIndicator(names, indicators);
      if r.Some? {
        var j :| 0 <= j < |rest| && rest[j] == r.value && HasIndicator(names, r.value) &&
          forall l :: 0 <= l < j ==> !HasIndicator(names, rest[l]);
        assert indicators[j + 1] == r.value;
        assert forall l :: 0 <= l < j + 1 ==> !HasIndicator(names, indicators[l]) by {
          forall l | 0 <= l < j + 1
            ensures !HasIndicator(names, indicators[l])
          {
            if l > 0 {
              assert indicators[l] == rest[l - 1];
            }
          }
        }
      }
      assert forall i :: i in indicators ==> i == indicators[0] || i in rest;
    } else if indicators != [] {
      assert indicators[0] in indicators;
    }
  }

  /** The priority targets the archive holds, in priority order. */
  function PresentTargets(names: seq<string>, targets: seq<Target>): (r: seq<Target>)
    ensures forall t :: t in r <==> t in targets && t.path in names
    ensures |r| <= |targets|
  {
    if targets == [] then []
    else if targets[0].path in names then [targets[0]] + PresentTargets(names, targets[1..])
    else PresentTargets(names, targets[1..])
  }

  /** The entries under the data folder, in archive order. */
  function DataFiles(names: seq<string>): (r: seq<string>)
    ensures forall f :: f in r <==> f in names && DATA_PREFIX <= f
    ensures |r| <= |names|
  {
    if names == [] then []
    else if DATA_PREFIX <= names[0] then [names[0]] + DataFiles(names[1..])
    else DataFiles(names[1..])
  }

  /** `r` is `xs` at the strictly increasing positions `idx`: a subsequence, in the order of `xs`. */
  predicate Picks<T(==)>(xs: seq<T>, r: seq<T>, idx: seq<nat>)
  {
    && |idx| == |r|
    && (forall j :: 0 <= j < |idx| ==> idx[j] < |xs| && r[j] == xs[idx[j]])
    && (forall j, l :: 0 <= j < l < |idx| ==> idx[j] < idx[l])
  }

  /** Positions picked from the tail of `xs` are one further along in `xs` itself. */
  lemma PicksShift<T>(xs: seq<T>, r: seq<T>, idx: seq<nat>) returns (shifted: seq<nat>)
    requires xs != [] && Picks(xs[1..], r, idx)
    ensures Picks(xs, r, shifted)
    ensures forall j :: 0 <= j < |shifted| ==> shifted[j] == idx[j] + 1
  {
    shifted := seq(|idx|, j requires 0 <= j < |idx| => idx[j] + 1);
    forall j | 0 <= j < |idx| ensures shifted[j] < |xs| && r[j] == xs[shifted[j]] {
      assert xs[1..][idx[j]] == xs[idx[j] + 1];
    }
  }

  /** Picking the head of `xs` in front of picks from its tail. */
  lemma PicksCons<T>(xs: seq<T>, r: seq<T>, idx: seq<nat>)
    requires xs != [] && Picks(xs, r, idx)
    requires forall j :: 0 <= j < |idx| ==> idx[j] > 0
    ensures Picks(xs, [xs[0]] + r, [0] + idx)
  {
    var idx' := [0] + idx;
    var r' := [xs[0]] + r;
    forall j | 0 < j < |idx'| ensures idx'[j] < |xs| && r'[j] == xs[idx'[j]] {
      assert idx'[j] == idx[j - 1] && r'[j] == r[j - 1];
    }
    forall j, l | 0 <= j < l < |idx'| ensures idx'[j] < idx'[l] {
      assert idx'[l] == idx[l - 1];
      if j > 0 {
        assert idx'[j] == idx[j - 1];
      }
    }
  }

  /**
   * The present targets keep the order of the target list: they are the
   * targets at strictly increasing positions, and every target whose path is
   * an entry name is among them.
   */
  lemma {:induction false} PresentTargetsOrder(names: seq<string>, targets: seq<Target>) returns (idx: seq<nat>)
    ensures Picks(targets, PresentTargets(names, targets), idx)
    ensures forall i :: 0 <= i < |targets| && targets[i].path in names ==> i in idx
  {
    if targets == [] {
      idx := [];
    } else {
      var rest := targets[1..];
      var tail := PresentTargetsOrder(names, rest);
      var shifted := PicksShift(targets, PresentTargets(names, rest), tail);
      if targets[0].path in names {
        PicksCons(targets, PresentTargets(names, rest), shifted);
        idx := [0] + shifted;
      } else {
        idx := shifted;
      }
      forall i | 0 < i < |targets| && targets[i].path in names ensures i in idx {
        assert rest[i - 1] == targets[i];
        var j :| 0 <= j < |tail| && tail[j] == i - 1;
        assert shifted[j] == i;
      }
    }
  }

  /**
   * The data files keep archive order: they are the entry names at strictly
   * increasing positions, and every name under the data folder is among them.
   */
  lemma {:induction false} DataFilesOrder(names: seq<string>) returns (idx: seq<nat>)
    ensures Picks(names, DataFiles(names), idx)
    ensures forall i :: 0 <= i < |names| && DATA_PREFIX <= names[i] ==> i in idx
  {
    if names == [] {
      idx := [];
    } else {
      var rest := names[1..];
      var tail := DataFilesOrder(rest);
      var shifted := PicksShift(names, DataFiles(rest), tail);
      if DATA_PREFIX <= names[0] {
        PicksCons(names, DataFiles(rest), shifted);
        idx := [0] + shifted;
      } else {
        idx := shifted;
      }
      forall i | 0 < i < |names| && DATA_PREFIX <= names[i] ensures i in idx {
        assert rest[i - 1] == names[i];
        var j :| 0 <= j < |tail| && tail[j] == i - 1;
        assert shifted[j] == i;
      }
    }
  }

  /** `data_files[:min(20, len(data_files))]` */
  function DeepScanFiles(names: seq<string>): seq<string>
  {
    var d := DataFiles(names);
    d[..if |d| < DEEP_SCAN_LIMIT then |d| else DEEP_SCAN_LIMIT]
  }

  function Paths(ts: seq<Target>): (r: seq<string>)
    ensures |r| == |ts|
  {
    if ts == [] then [] else [ts[0].path] + Paths(ts[1..])
  }

  /** The deep scan over the remaining `files`; a failed read leaves no trace in the record. */
  function DeepScan(entries: map<string, ReadOutcome>, r: ExtractionResult, log: seq<string>, files: seq<string>): Run
    decreases files
  {
    if files == [] then Run(r.(error := Some(UNDETERMINED)), log)
    else
      match FoundIn(entries, files[0])
      case Some(v) => Run(r.(success := true, version := Some(v), sourceFile := Some(files[0])), log + [files[0]])
      case None => DeepScan(entries, r, log + [files[0]], files[1..])
  }

  /** The priority scan over the remaining targets; each failed read adds one warning. */
  function PriorityScan(entries: map<string, ReadOutcome>, names: seq<string>, r: ExtractionResult,
                        log: seq<string>, targets: seq<Target>): Run
    decreases targets
  {
    if targets == [] then DeepScan(entries, r, log, DeepScanFiles(names))
    else
      var t := targets[0];
      match Read(entries, t.path)
      case ReadFailure(reason) =>
        PriorityScan(entries, names, r.(details := r.details + [CouldNotRead(t.displayName, reason)]), log + [t.path], targets[1..])
      case Contents(data) =>
        match FindVersion(data)
        case Some(v) => Run(r.(success := true, version := Some(v), sourceFile := Some(t.path)), log + [t.path])
        case None => PriorityScan(entries, names, r, log + [t.path], targets[1..])
  }

  /** The whole extraction, stage by stage. */
  function Extract(a: Archive): (run: Run)
    ensures run.result.isUnity <==> a.Opened? && FirstIndicator(a.names, UNITY_INDICATORS).Some?
    ensures run.result.isUnity ==>
      run.result.details != [] && run.result.details[0] == FoundIndicator(FirstIndicator(a.names, UNITY_INDICATORS).value)
    ensures !run.result.isUnity ==>
      run.result.error.Some? && !run.result.success && run.result.details == [] && run.readLog == []
  {
    match a
    case NotAZip => Run(INITIAL.(error := Some(INVALID_APK)), [])
    case OpenFailed(f) => Run(INITIAL.(error := Some(OpenFailureMessage(f))), [])
    case Opened(names, entries) =>
      match FirstIndicator(names, UNITY_INDICATORS)
      case None => Run(INITIAL.(error := Some(NOT_UNITY)), [])
      case Some(indicator) =>
        var detected := INITIAL.(isUnity := true, details := INITIAL.details + [FoundIndicator(indicator)]);
        var present := PresentTargets(names, TARGET_FILES);
        PriorityScanClosed(entries, names, detected, [], present);
        DeepScanClosed(entries, detected.(details := detected.details + Warnings(entries, present)),
                       Paths(present), DeepScanFiles(names));
        PriorityScan(entries, names, detected, [], present)
  }

  // Closed forms of the two scans

  /** The position of the first entry, among `paths`, in which the search finds a version. */
  function FirstFound(entries: map<string, ReadOutcome>, paths: seq<string>): (r: Option<nat>)
    ensures r.Some? ==> r.value < |paths|
  {
    if paths == [] then None
    else if FoundIn(entries, paths[0]).Some? then Some(0)
    else
      match FirstFound(entries, paths[1..])
      case Some(i) => Some(i + 1)
      case None => None
  }

  /** `FirstFound` names the first path in which a version is found, and none is found before it. */
  lemma {:induction false} FirstFoundSpec(entries: map<string, ReadOutcome>, paths: seq<string>)
    ensures var r := FirstFound(entries, paths);
      && (r.Some? ==> FoundIn(entries, paths[r.value]).Some?)
      && (r.Some? ==> forall j :: 0 <= j < r.value ==> FoundIn(entries, paths[j]).None?)
      && (r.None? ==> forall j :: 0 <= j < |paths| ==> FoundIn(entries, paths[j]).None?)
    decreases paths
  {
    if paths != [] && FoundIn(entries, paths[0]).None? {
      FirstFoundSpec(entries, paths[1..]);
      forall j | 0 < j < |paths| ensures paths[j] == paths[1..][j - 1] { }
    }
  }

  /** The warning each unreadable target leaves in `details`, in order. */
  function Warnings(entries: map<string, ReadOutcome>, ts: seq<Target>): seq<string>
  {
    if ts == [] then []
    else
      (match Read(entries, ts[0].path)
       case ReadFailure(reason) => [CouldNotRead(ts[0].displayName, reason)]
       case Contents(_) => [])
      + Warnings(entries, ts[1..])
  }

  /** What the deep scan returns, stated without recursion. */
  function DeepOutcome(entries: map<string, ReadOutcome>, r: ExtractionResult, log: seq<string>, files: seq<string>): Run
  {
    match FirstFound(entries, files)
    case Some(i) =>
      Run(r.(success := true, version := FoundIn(entries, files[i]), sourceFile := Some(files[i])), log + files[..i + 1])
    case None => Run(r.(error := Some(UNDETERMINED)), log + files)
  }

  /**
   * The deep scan reads the files in order up to and including the first one
   * that yields a version; if none does, it reads them all and reports the
   * version as undetermined. It never touches `details`.
   */
  lemma {:induction false} DeepScanClosed(entries: map<string, ReadOutcome>, r: ExtractionResult,
                                          log: seq<string>, files: seq<string>)
    ensures DeepScan(entries, r, log, files) == DeepOutcome(entries, r, log, files)
    decreases files
  {
    if files == [] {
      assert log + files == log;
    } else if FoundIn(entries, files[0]).Some? {
      assert FirstFound(entries, files) == Some(0);
      assert files[..1] == [files[0]];
    } else {
      DeepScanClosed(entries, r, log + [files[0]], files[1..]);
      DeepOutcomeStep(entries, r, log, files);
    }
  }

  /** Skipping a file that yields nothing moves it from the list to the log. */
  lemma DeepOutcomeStep(entries: map<string, ReadOutcome>, r: ExtractionResult, log: seq<string>, files: seq<string>)
    requires files != [] && FoundIn(entries, files[0]).None?
    ensures DeepOutcome(entries, r, log, files) == DeepOutcome(entries, r, log + [files[0]], files[1..])
  {
    var rest := files[1..];
    match FirstFound(entries, rest)
    case Some(i) =>
      assert FirstFound(entries, files) == Some(i + 1);
      assert files[i + 1] == rest[i];
      assert files[..i + 2] == [files[0]] + rest[..i + 1];
      assert log + files[..i + 2] == log + [files[0]] + rest[..i + 1];
    case None =>
      assert FirstFound(entries, files) == None;
      assert files == [files[0]] + rest;
      assert log + files == log + [files[0]] + rest;
  }

  /** What the priority scan returns, stated without recursion. */
  function PriorityOutcome(entries: map<string, ReadOutcome>, names: seq<string>, r: ExtractionResult,
                           log: seq<string>, ts: seq<Target>): Run
  {
    match FirstFound(entries, Paths(ts))
    case Some(i) =>
      Run(r.(details := r.details + Warnings(entries, ts[..i]), success := true,
             version := FoundIn(entries, ts[i].path), sourceFile := Some(ts[i].path)),
          log + Paths(ts[..i + 1]))
    case None =>
      DeepOutcome(entries, r.(details := r.details + Warnings(entries, ts)), log + Paths(ts), DeepScanFiles(names))
  }

  /**
   * The priority scan reads the targets in order up to and including the
   * first that yields a version, with one warning per unreadable target
   * before it; if none yields one, it has read them all and the deep scan
   * decides.
   */
  lemma {:induction false} PriorityScanClosed(entries: map<string, ReadOutcome>, names: seq<string>,
                                              r: ExtractionResult, log: seq<string>, ts: seq<Target>)
    ensures PriorityScan(entries, names, r, log, ts) == PriorityOutcome(entries, names, r, log, ts)
    decreases ts
  {
    if ts == [] {
      assert r.(details := r.details + []) == r;
      assert log + Paths(ts) == log;
      DeepScanClosed(entries, r, log, DeepScanFiles(names));
    } else if FoundIn(entries, ts[0].path).Some? {
      PriorityFoundFirst(entries, names, r, log, ts);
    } else {
      var r' := r.(details := r.details + Warnings(entries, [ts[0]]));
      PriorityScanStep(entries, names, r, log, ts);
      PriorityScanClosed(entries, names, r', log + [ts[0].path], ts[1..]);
      PriorityOutcomeStep(entries, names, r, log, ts);
    }
  }

  lemma PriorityFoundFirst(entries: map<string, ReadOutcome>, names: seq<string>,
                           r: ExtractionResult, log: seq<string>, ts: seq<Target>)
    requires ts != [] && FoundIn(entries, ts[0].path).Some?
    ensures PriorityScan(entries, names, r, log, ts) == PriorityOutcome(entries, names, r, log, ts)
  {
    var t := ts[0];
    assert Paths(ts)[0] == t.path;
    assert FirstFound(entries, Paths(ts)) == Some(0);
    assert ts[..0] == [];
    assert Warnings(entries, ts[..0]) == [];
    assert r.details + [] == r.details;
    assert ts[..1] == [t];
    assert Paths(ts[..1]) == [t.path];
  }

  /** A target that yields nothing is logged, and leaves a warning if it could not be read. */
  lemma PriorityScanStep(entries: map<string, ReadOutcome>, names: seq<string>,
                         r: ExtractionResult, log: seq<string>, ts: seq<Target>)
    requires ts != [] && FoundIn(entries, ts[0].path).None?
    ensures PriorityScan(entries, names, r, log, ts) ==
            PriorityScan(entries, names, r.(details := r.details + Warnings(entries, [ts[0]])), log + [ts[0].path], ts[1..])
  {
    var t := ts[0];
    assert [t][1..] == [];
    match Read(entries, t.path)
    case ReadFailure(reason) =>
      assert Warnings(entries, [t]) == [CouldNotRead(t.displayName, reason)];
    case Contents(_) =>
      assert Warnings(entries, [t]) == [];
      assert r.(details := r.details + []) == r;
  }

  lemma PriorityOutcomeStep(entries: map<string, ReadOutcome>, names: seq<string>,
                            r: ExtractionResult, log: seq<string>, ts: seq<Target>)
    requires ts != [] && FoundIn(entries, ts[0].path).None?
    ensures PriorityOutcome(entries, names, r, log, ts) ==
            PriorityOutcome(entries, names, r.(details := r.details + Warnings(entries, [ts[0]])), log + [ts[0].path], ts[1..])
  {
    var rest := ts[1..];
    assert Paths(ts)[0] == ts[0].path;
    assert Paths(ts)[1..] == Paths(rest);
    match FirstFound(entries, Paths(rest))
    case Some(i) =>
      assert FirstFound(entries, Paths(ts)) == Some(i + 1);
      PriorityFoundLater(entries, names, r, log, ts, i);
    case None =>
      assert FirstFound(entries, Paths(ts)) == None;
      PriorityFoundNowhere(entries, names, r, log, ts);
  }

  lemma PriorityFoundLater(entries: map<string, ReadOutcome>, names: seq<string>,
                           r: ExtractionResult, log: seq<string>, ts: seq<Target>, i: nat)
    requires ts != [] && FirstFound(entries, Paths(ts)) == Some(i + 1)
    requires FirstFound(entries, Paths(ts[1..])) == Some(i)
    ensures PriorityOutcome(entries, names, r, log, ts) ==
            PriorityOutcome(entries, names, r.(details := r.details + Warnings(entries, [ts[0]])), log + [ts[0].path], ts[1..])
  {
    var r' := r.(details := r.details + Warnings(entries, [ts[0]]));
    LaterArguments(entries, r.details, log, ts, i);
    assert r.(details := r.details + Warnings(entries, ts[..i + 1])) == r'.(details := r'.details + Warnings(entries, ts[1..][..i]));
  }

  /** Moving the first target to the log, when a later one decides, keeps the warnings and the paths read. */
  lemma LaterArguments(entries: map<string, ReadOutcome>, details: seq<string>, log: seq<string>, ts: seq<Target>, i: nat)
    requires i + 2 <= |ts|
    ensures ts[i + 1] == ts[1..][i]
    ensures details + Warnings(entries, ts[..i + 1]) == details + Warnings(entries, [ts[0]]) + Warnings(entries, ts[1..][..i])
    ensures log + Paths(ts[..i + 2]) == log + [ts[0].path] + Paths(ts[1..][..i + 1])
  {
    WarningsSkip(entries, details, ts[..i + 1]);
    assert ts[..i + 1][1..] == ts[1..][..i];
    PathsSkip(log, ts[..i + 2]);
    assert ts[..i + 2][1..] == ts[1..][..i + 1];
  }

  lemma PriorityFoundNowhere(entries: map<string, ReadOutcome>, names: seq<string>,
                             r: ExtractionResult, log: seq<string>, ts: seq<Target>)
    requires ts != [] && FirstFound(entries, Paths(ts)) == None
    ensures PriorityOutcome(entries, names, r, log, ts) ==
            PriorityOutcome(entries, names, r.(details := r.details + Warnings(entries, [ts[0]])), log + [ts[0].path], ts[1..])
  {
    var r' := r.(details := r.details + Warnings(entries, [ts[0]]));
    SkipArguments(entries, r.details, log, ts);
    assert r.(details := r.details + Warnings(entries, ts)) == r'.(details := r'.details + Warnings(entries, ts[1..]));
  }

  /** Moving the first target from the list to the log keeps the warnings and the paths. */
  lemma SkipArguments(entries: map<string, ReadOutcome>, details: seq<string>, log: seq<string>, ts: seq<Target>)
    requires ts != []
    ensures Paths(ts)[1..] == Paths(ts[1..])
    ensures details + Warnings(entries, ts) == details + Warnings(entries, [ts[0]]) + Warnings(entries, ts[1..])
    ensures log + Paths(ts) == log + [ts[0].path] + Paths(ts[1..])
  {
    WarningsSkip(entries, details, ts);
    PathsSkip(log, ts);
  }

  lemma WarningsSkip(entries: map<string, ReadOutcome>, details: seq<string>, ts: seq<Target>)
    requires ts != []
    ensures details + Warnings(entries, ts) == details + Warnings(entries, [ts[0]]) + Warnings(entries, ts[1..])
  {
    assert ts == [ts[0]] + ts[1..];
    WarningsAppend(entries, [ts[0]], ts[1..]);
  }

  lemma PathsSkip(log: seq<string>, ts: seq<Target>)
    requires ts != []
    ensures Paths(ts)[1..] == Paths(ts[1..])
    ensures log + Paths(ts) == log + [ts[0].path] + Paths(ts[1..])
  {
    assert ts == [ts[0]] + ts[1..];
    PathsAppend([ts[0]], ts[1..]);
    assert Paths([ts[0]]) == [ts[0].path];
  }

  lemma {:induction false} WarningsAppend(entries: map<string, ReadOutcome>, xs: seq<Target>, ys: seq<Target>)
    ensures Warnings(entries, xs + ys) == Warnings(entries, xs) + Warnings(entries, ys)
    decreases xs
  {
    if xs == [] {
      assert xs + ys == ys;
    } else {
      assert (xs + ys)[0] == xs[0];
      assert (xs + ys)[1..] == xs[1..] + ys;
      WarningsAppend(entries, xs[1..], ys);
    }
  }

  lemma {:induction false} PathsAppend(xs: seq<Target>, ys: seq<Target>)
    ensures Paths(xs + ys) == Paths(xs) + Paths(ys)
    decreases xs
  {
    if xs == [] {
      assert xs + ys == ys;
    } else {
      assert (xs + ys)[0] == xs[0];
      assert (xs + ys)[1..] == xs[1..] + ys;
      PathsAppend(xs[1..], ys);
    }
  }

  /** `Paths` lists the targets' paths, position by position. */
  lemma {:induction false} PathsAt(ts: seq<Target>, j: nat)
    requires j < |ts|
    ensures Paths(ts)[j] == ts[j].path
    decreases j
  {
    if j > 0 {
      PathsAt(ts[1..], j - 1);
    }
  }


  /**
   * The priority phase: read each target the archive holds, in priority
   * order; a failed read adds one warning, the first version found ends the
   * extraction. `done` tells whether it ended here.
   */
  method ScanTargets(entries: map<string, ReadOutcome>, fileList: seq<string>,
                     detected: ExtractionResult, ghost log: seq<string>)
    returns (result: ExtractionResult, ghost readLog: seq<string>, done: bool)
    ensures done ==> result == PriorityScan(entries, fileList, detected, log, PresentTargets(fileList, TARGET_FILES)).result
    ensures done ==> Run(result, readLog) == PriorityScan(entries, fileList, detected, log, PresentTargets(fileList, TARGET_FILES))
    ensures !done ==> PriorityScan(entries, fileList, detected, log, PresentTargets(fileList, TARGET_FILES))
                      == DeepScan(entries, result, readLog, DeepScanFiles(fileList))
  {
    result, readLog := detected, log;
    var targetFilesFound := PresentTargets(fileList, TARGET_FILES);
    for i := 0 to |targetFilesFound|
      invariant PriorityScan(entries, fileList, result, readLog, targetFilesFound[i..])
             == PriorityScan(entries, fileList, detected, log, targetFilesFound)
    {
      var target := targetFilesFound[i];
      readLog := readLog + [target.path];
      match Read(entries, target.path)
      case ReadFailure(reason) =>
        result := result.(details := result.details + [CouldNotRead(target.displayName, reason)]);
      case Contents(data) =>
        var version := FindVersionInData(data);
        if version.Some? {
          result := result.(success := true, version := version, sourceFile := Some(target.path));
          return result, readLog, true;
        }
    }
    return result, readLog, false;
  }

  /**
   * The deep scan: read at most twenty data-folder entries in archive order;
   * failed reads are skipped silently.
   */
  method ScanDataFolder(entries: map<string, ReadOutcome>, fileList: seq<string>,
                        start: ExtractionResult, ghost log: seq<string>)
    returns (result: ExtractionResult, ghost readLog: seq<string>)
    ensures result == DeepScan(entries, start, log, DeepScanFiles(fileList)).result
    ensures Run(result, readLog) == DeepScan(entries, start, log, DeepScanFiles(fileList))
  {
    result, readLog := start, log;
    var dataFiles := DataFiles(fileList);
    var scanLimit := if |dataFiles| < DEEP_SCAN_LIMIT then |dataFiles| else DEEP_SCAN_LIMIT;
    for i := 0 to scanLimit
      invariant DeepScan(entries, result, readLog, dataFiles[..scanLimit][i..])
             == DeepScan(entries, start, log, DeepScanFiles(fileList))
    {
      var filePath := dataFiles[i];
      readLog := readLog + [filePath];
      match Read(entries, filePath)
      case ReadFailure(_) =>
      case Contents(data) =>
        var version := FindVersionInData(data);
        if version.Some? {
          result := result.(success := true, version := version, sourceFile := Some(filePath));
          return;
        }
    }
    result := result.(error := Some(UNDETERMINED));
  }

  /**
   * The extraction procedure. `readLog` records, as a ghost, the entries it
   * reads, in order.
   */
  method ExtractVersion(archive: Archive) returns (result: ExtractionResult, ghost readLog: seq<string>)
    ensures result == Extract(archive).result
    ensures Run(result, readLog) == Extract(archive)
  {
    result := INITIAL;
    readLog := [];
    if archive.NotAZip? {
      result := result.(error := Some(INVALID_APK));
      return;
    }
    if archive.OpenFailed? {
      result := result.(error := Some(OpenFailureMessage(archive.failure)));
      return;
    }
    var fileList := archive.names;
    var entries := archive.entries;

    for i := 0 to |UNITY_INDICATORS|
      invariant result == INITIAL
      invariant FirstIndicator(fileList, UNITY_INDICATORS) == FirstIndicator(fileList, UNITY_INDICATORS[i..])
    {
      var indicator := UNITY_INDICATORS[i];
      if exists f :: f in fileList && (indicator <= f || f == indicator) {
        result := result.(isUnity := true, details := result.details + [FoundIndicator(indicator)]);
        assert FirstIndicator(fileList, UNITY_INDICATORS) == Some(indicator);
        break;
      }
    }
    if !result.isUnity {
      result := result.(error := Some(NOT_UNITY));
      return;
    }

    var done;
    result, readLog, done := ScanTargets(entries, fileList, result, readLog);
    if done {
      return;
    }
    result, readLog := ScanDataFolder(entries, fileList, result, readLog);
  }
}
