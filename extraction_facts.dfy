/**
 * What the staged extraction guarantees about its result record and about
 * the entries it reads, derived from the stage-by-stage definition `Extract`
 * through a closed form that names, for each outcome, which entry decided it.
 */
module ExtractionFacts {

  import opened Wrappers
  import opened Bytes
  import opened Validation
  import opened Search
  import opened Extractor
  import opened SearchCompleteness

  /** The record once an indicator is found: Unity, with the indicator line as its only detail. */
  function Detected(indicator: string): (r: ExtractionResult)
    ensures r.isUnity && !r.success && r.error.None? && r.details == [FoundIndicator(indicator)]
  {
    INITIAL.(isUnity := true, details := [FoundIndicator(indicator)])
  }

  /**
   * The outcome of an opened archive with a Unity indicator, without
   * recursion: the first priority target present that yields a version
   * decides; failing that, the first of the deep-scan files; failing that,
   * the version is undetermined.
   */
  function ClosedForm(targets: seq<Target>, names: seq<string>, entries: map<string, ReadOutcome>, indicator: string): Run
  {
    var present := PresentTargets(names, targets);
    var deep := DeepScanFiles(names);
    var base := Detected(indicator);
    match FirstFound(entries, Paths(present))
    case Some(i) =>
      Run(base.(success := true, version := FoundIn(entries, present[i].path), sourceFile := Some(present[i].path),
                details := base.details + Warnings(entries, present[..i])),
          Paths(present[..i + 1]))
    case None =>
      var warned := base.(details := base.details + Warnings(entries, present));
      match FirstFound(entries, deep)
      case Some(j) =>
        Run(warned.(success := true, version := FoundIn(entries, deep[j]), sourceFile := Some(deep[j])),
            Paths(present) + deep[..j + 1])
      case None => Run(warned.(error := Some(UNDETERMINED)), Paths(present) + deep)
  }

  lemma ExtractClosed(names: seq<string>, entries: map<string, ReadOutcome>)
    requires FirstIndicator(names, UNITY_INDICATORS).Some?
    ensures Extract(Opened(names, entries)) == ClosedForm(TARGET_FILES, names, entries, FirstIndicator(names, UNITY_INDICATORS).value)
  {
    var indicator := FirstIndicator(names, UNITY_INDICATORS).value;
    assert INITIAL.details + [FoundIndicator(indicator)] == [FoundIndicator(indicator)];
    PriorityClosedForm(TARGET_FILES, names, entries, indicator);
  }

  /** The priority scan from the detected record, with nothing read yet, is the closed form. */
  lemma PriorityClosedForm(targets: seq<Target>, names: seq<string>, entries: map<string, ReadOutcome>, indicator: string)
    ensures PriorityScan(entries, names, Detected(indicator), [], PresentTargets(names, targets)) ==
            ClosedForm(targets, names, entries, indicator)
  {
    var present := PresentTargets(names, targets);
    PriorityScanClosed(entries, names, Detected(indicator), [], present);
    assert [] + Paths(present) == Paths(present);
    match FirstFound(entries, Paths(present))
    case Some(i) =>
      assert [] + Paths(present[..i + 1]) == Paths(present[..i + 1]);
    case None =>
  }


  /** The deep scan reads the first twenty entries of the data folder, in archive order. */
  lemma DeepScanFilesSpec(names: seq<string>)
    ensures var deep := DeepScanFiles(names);
      && |deep| == (if |DataFiles(names)| < DEEP_SCAN_LIMIT then |DataFiles(names)| else DEEP_SCAN_LIMIT)
      && deep <= DataFiles(names)
      && forall f :: f in deep ==> f in names && DATA_PREFIX <= f
  {
    var d := DataFiles(names);
    var deep := DeepScanFiles(names);
    forall f | f in deep ensures f in d {
      var k :| 0 <= k < |deep| && deep[k] == f;
      assert d[k] == f;
    }
  }

  /**
   * The deep scan reads data-folder entries in archive order: they sit at
   * strictly increasing positions of the name list, and any data-folder
   * entry it leaves out comes after all of them.
   */
  lemma DeepScanOrder(names: seq<string>) returns (idx: seq<nat>)
    ensures Picks(names, DeepScanFiles(names), idx)
    ensures forall i :: 0 <= i < |names| && DATA_PREFIX <= names[i] && i !in idx ==>
      forall j :: 0 <= j < |idx| ==> idx[j] < i
  {
    var d := DataFiles(names);
    var deep := DeepScanFiles(names);
    var all := DataFilesOrder(names);
    idx := all[..|deep|];
    forall j | 0 <= j < |idx| ensures idx[j] < |names| && deep[j] == names[idx[j]] {
      assert idx[j] == all[j] && deep[j] == d[j];
    }
    assert forall q :: 0 <= q < |idx| ==> idx[q] == all[q];
    forall i | 0 <= i < |names| && DATA_PREFIX <= names[i] && i !in idx
      ensures forall j :: 0 <= j < |idx| ==> idx[j] < i
    {
      var p :| 0 <= p < |all| && all[p] == i;
      assert |idx| <= p;
      forall j | 0 <= j < |idx| ensures idx[j] < i {
        assert idx[j] == all[j];
      }
    }
  }

  /**
   * Each warning names a target whose read failed, with the failure's text,
   * and every target whose read fails gets its warning.
   */
  lemma {:induction false} WarningsSpec(entries: map<string, ReadOutcome>, ts: seq<Target>)
    ensures |Warnings(entries, ts)| <= |ts|
    ensures forall w :: w in Warnings(entries, ts) ==>
      exists t, reason :: t in ts && Read(entries, t.path) == ReadFailure(reason) && w == CouldNotRead(t.displayName, reason)
    ensures forall t :: t in ts && Read(entries, t.path).ReadFailure? ==>
      CouldNotRead(t.displayName, Read(entries, t.path).reason) in Warnings(entries, ts)
    decreases ts
  {
    if ts != [] {
      WarningsSpec(entries, ts[1..]);
      var t := ts[0];
      forall t' | t' in ts && Read(entries, t'.path).ReadFailure?
        ensures CouldNotRead(t'.displayName, Read(entries, t'.path).reason) in Warnings(entries, ts)
      {
        if t' != t {
          assert t' in ts[1..];
        }
      }
      forall w | w in Warnings(entries, ts)
        ensures exists t, reason :: t in ts && Read(entries, t.path) == ReadFailure(reason) && w == CouldNotRead(t.displayName, reason)
      {
        if w in Warnings(entries, ts[1..]) {
          var t', reason :| t' in ts[1..] && Read(entries, t'.path) == ReadFailure(reason) && w == CouldNotRead(t'.displayName, reason);
          assert t' in ts;
        } else {
          assert Read(entries, t.path).ReadFailure?;
          assert w == CouldNotRead(t.displayName, Read(entries, t.path).reason);
        }
      }
    }
  }

  /** A version found in an entry is a valid version spelled inside that entry's bytes. */
  lemma FoundInSound(entries: map<string, ReadOutcome>, name: string)
    ensures FoundIn(entries, name).Some? ==>
      && Read(entries, name).Contents?
      && IsValidUnityVersion(FoundIn(entries, name).value)
      && SpelledWithin(Read(entries, name).bytes, 0, |Read(entries, name).bytes|, FoundIn(entries, name).value)
  {
    if Read(entries, name).Contents? {
      FindVersionSound(Read(entries, name).bytes);
    }
  }

  /** The paths of the present targets are entry names. */
  lemma {:induction false} PresentPathsInNames(names: seq<string>, ts: seq<Target>)
    ensures forall n :: n in Paths(PresentTargets(names, ts)) ==> n in names
    decreases ts
  {
    if ts != [] {
      PresentPathsInNames(names, ts[1..]);
    }
  }

  /** The paths of a prefix are the prefix of the paths. */
  lemma PathsPrefix(ts: seq<Target>, n: nat)
    requires n <= |ts|
    ensures Paths(ts[..n]) == Paths(ts)[..n]
  {
    assert ts == ts[..n] + ts[n..];
    PathsAppend(ts[..n], ts[n..]);
  }

  // The guarantees, stated once as predicates over a run

  /** A found version comes with its source entry and no error; a failure comes with an error and nothing else. */
  predicate Consistent(r: ExtractionResult)
  {
    && (r.success ==> r.isUnity && r.version.Some? && r.sourceFile.Some? && r.error.None?)
    && (!r.success ==> r.error.Some? && r.version.None? && r.sourceFile.None?)
  }

  /**
   * A reported version is valid and spelled in the bytes of the reported
   * source entry, which is an entry of the archive, a priority target or a
   * data-folder file, and the last entry read.
   */
  predicate SoundSource(targets: seq<Target>, names: seq<string>, entries: map<string, ReadOutcome>, run: Run)
  {
    run.result.success && run.result.sourceFile.Some? && run.result.version.Some? ==>
      var src := run.result.sourceFile.value;
      var v := run.result.version.value;
      && src in names
      && Read(entries, src).Contents?
      && IsValidUnityVersion(v)
      && SpelledWithin(Read(entries, src).bytes, 0, |Read(entries, src).bytes|, v)
      && ((exists t :: t in targets && t.path == src) || DATA_PREFIX <= src)
      && run.readLog != [] && run.readLog[|run.readLog| - 1] == src
  }

  /**
   * Every entry read before the last yielded no version; the last one
   * yielded the reported version; after a failure, none yielded one.
   */
  predicate FirstToYield(entries: map<string, ReadOutcome>, run: Run)
  {
    && (forall k :: 0 <= k < |run.readLog| - 1 ==> FoundIn(entries, run.readLog[k]).None?)
    && (run.result.success && run.readLog != [] ==> FoundIn(entries, run.readLog[|run.readLog| - 1]) == run.result.version)
    && (!run.result.success ==> forall k :: 0 <= k < |run.readLog| ==> FoundIn(entries, run.readLog[k]).None?)
  }

  /** Every read in the order the extraction tries them: the present targets, then the deep-scan files. */
  function ReadOrder(targets: seq<Target>, names: seq<string>): seq<string>
  {
    Paths(PresentTargets(names, targets)) + DeepScanFiles(names)
  }

  /**
   * The entries read are a prefix of that order, all of it when no version
   * was found, all entries of the archive, and at most seven targets plus
   * twenty data files.
   */
  predicate LogShape(targets: seq<Target>, names: seq<string>, run: Run)
  {
    && run.readLog <= ReadOrder(targets, names)
    && (!run.result.success ==> run.readLog == ReadOrder(targets, names))
    && (forall n :: n in run.readLog ==> n in names)
    && |run.readLog| <= |targets| + DEEP_SCAN_LIMIT
  }

  /** The read order holds entries of the archive, at most 27 of them. */
  lemma ReadOrderSpec(targets: seq<Target>, names: seq<string>)
    ensures forall n :: n in ReadOrder(targets, names) ==> n in names
    ensures |ReadOrder(targets, names)| <= |targets| + DEEP_SCAN_LIMIT
  {
    PresentPathsInNames(names, targets);
    DeepScanFilesSpec(names);
  }

  /** Case one: a priority target yields the version. */
  lemma PriorityDecides(targets: seq<Target>, names: seq<string>, entries: map<string, ReadOutcome>, indicator: string, i: nat)
    requires FirstFound(entries, Paths(PresentTargets(names, targets))) == Some(i)
    ensures var run := ClosedForm(targets, names, entries, indicator);
      && Consistent(run.result) && SoundSource(targets, names, entries, run)
      && FirstToYield(entries, run) && LogShape(targets, names, run)
  {
    PriorityDecidesSource(targets, names, entries, indicator, i);
    PriorityDecidesLog(targets, names, entries, indicator, i);
  }

  lemma PriorityDecidesSource(targets: seq<Target>, names: seq<string>, entries: map<string, ReadOutcome>, indicator: string, i: nat)
    requires FirstFound(entries, Paths(PresentTargets(names, targets))) == Some(i)
    ensures var run := ClosedForm(targets, names, entries, indicator);
      Consistent(run.result) && SoundSource(targets, names, entries, run)
  {
    var present := PresentTargets(names, targets);
    var paths := Paths(present);
    var run := ClosedForm(targets, names, entries, indicator);
    var src := present[i].path;
    assert FoundIn(entries, src).Some? by {
      FirstFoundSpec(entries, paths);
      PathsAt(present, i);
    }
    assert present[i] in present;
    assert run.readLog == Paths(present[..i + 1]);
    assert run.readLog[|run.readLog| - 1] == src by {
      PathsPrefix(present, i + 1);
      PathsAt(present, i);
    }
    SoundFromSource(targets, names, entries, run, src);
  }

  /** The facts about one source entry that make a run's report sound. */
  lemma SoundFromSource(targets: seq<Target>, names: seq<string>, entries: map<string, ReadOutcome>, run: Run, src: string)
    requires run.result.sourceFile == Some(src) && run.result.version == FoundIn(entries, src)
    requires FoundIn(entries, src).Some?
    requires src in names && ((exists t :: t in targets && t.path == src) || DATA_PREFIX <= src)
    requires run.readLog != [] && run.readLog[|run.readLog| - 1] == src
    ensures SoundSource(targets, names, entries, run)
  {
    FoundInSound(entries, src);
  }

  lemma PriorityDecidesLog(targets: seq<Target>, names: seq<string>, entries: map<string, ReadOutcome>, indicator: string, i: nat)
    requires FirstFound(entries, Paths(PresentTargets(names, targets))) == Some(i)
    ensures var run := ClosedForm(targets, names, entries, indicator);
      FirstToYield(entries, run) && LogShape(targets, names, run)
  {
    var present := PresentTargets(names, targets);
    var paths := Paths(present);
    var run := ClosedForm(targets, names, entries, indicator);
    FirstFoundSpec(entries, paths);
    PathsAt(present, i);
    PathsPrefix(present, i + 1);
    ReadOrderSpec(targets, names);
    assert run.readLog == paths[..i + 1];
    assert paths[..i + 1] <= ReadOrder(targets, names);
    assert forall n :: n in run.readLog ==> n in ReadOrder(targets, names);
  }

  /** Case two: no priority target yields one, and a deep-scan file does. */
  lemma DeepDecides(targets: seq<Target>, names: seq<string>, entries: map<string, ReadOutcome>, indicator: string, j: nat)
    requires FirstFound(entries, Paths(PresentTargets(names, targets))) == None
    requires FirstFound(entries, DeepScanFiles(names)) == Some(j)
    ensures var run := ClosedForm(targets, names, entries, indicator);
      && Consistent(run.result) && SoundSource(targets, names, entries, run)
      && FirstToYield(entries, run) && LogShape(targets, names, run)
  {
    DeepDecidesSource(targets, names, entries, indicator, j);
    DeepDecidesLog(targets, names, entries, indicator, j);
  }

  lemma DeepDecidesSource(targets: seq<Target>, names: seq<string>, entries: map<string, ReadOutcome>, indicator: string, j: nat)
    requires FirstFound(entries, Paths(PresentTargets(names, targets))) == None
    requires FirstFound(entries, DeepScanFiles(names)) == Some(j)
    ensures var run := ClosedForm(targets, names, entries, indicator);
      Consistent(run.result) && SoundSource(targets, names, entries, run)
  {
    var paths := Paths(PresentTargets(names, targets));
    var deep := DeepScanFiles(names);
    var run := ClosedForm(targets, names, entries, indicator);
    var src := deep[j];
    assert FoundIn(entries, src).Some? by {
      FirstFoundSpec(entries, deep);
    }
    assert src in names && DATA_PREFIX <= src by {
      DeepScanFilesSpec(names);
      assert src in deep;
    }
    DeepRun(targets, names, entries, indicator, j);
    assert run.readLog[|run.readLog| - 1] == deep[..j + 1][j];
    SoundFromSource(targets, names, entries, run, src);
  }

  /** The record and the log when the deep scan decides at its `j`-th file. */
  lemma DeepRun(targets: seq<Target>, names: seq<string>, entries: map<string, ReadOutcome>, indicator: string, j: nat)
    requires FirstFound(entries, Paths(PresentTargets(names, targets))) == None
    requires FirstFound(entries, DeepScanFiles(names)) == Some(j)
    ensures j < |DeepScanFiles(names)|
    ensures var run := ClosedForm(targets, names, entries, indicator);
      && run.result.success && run.result.error.None? && run.result.isUnity
      && run.result.sourceFile == Some(DeepScanFiles(names)[j])
      && run.result.version == FoundIn(entries, DeepScanFiles(names)[j])
      && run.readLog == Paths(PresentTargets(names, targets)) + DeepScanFiles(names)[..j + 1]
  {
    FirstFoundSpec(entries, DeepScanFiles(names));
  }

  lemma DeepDecidesLog(targets: seq<Target>, names: seq<string>, entries: map<string, ReadOutcome>, indicator: string, j: nat)
    requires FirstFound(entries, Paths(PresentTargets(names, targets))) == None
    requires FirstFound(entries, DeepScanFiles(names)) == Some(j)
    ensures var run := ClosedForm(targets, names, entries, indicator);
      FirstToYield(entries, run) && LogShape(targets, names, run)
  {
    var paths := Paths(PresentTargets(names, targets));
    var deep := DeepScanFiles(names);
    var run := ClosedForm(targets, names, entries, indicator);
    assert run.readLog == paths + deep[..j + 1];
    assert run.readLog <= ReadOrder(targets, names);
    LogShapeFromPrefix(targets, names, run);
    DeepDecidesYield(entries, paths, deep, j);
  }

  /** Reading the paths, then the deep files up to the first that yields, reads no earlier yielding entry. */
  lemma DeepDecidesYield(entries: map<string, ReadOutcome>, paths: seq<string>, deep: seq<string>, j: nat)
    requires FirstFound(entries, paths) == None
    requires FirstFound(entries, deep) == Some(j)
    ensures var log := paths + deep[..j + 1];
      (forall k :: 0 <= k < |log| - 1 ==> FoundIn(entries, log[k]).None?) && FoundIn(entries, log[|log| - 1]).Some?
  {
    FirstFoundSpec(entries, paths);
    FirstFoundSpec(entries, deep);
    var log := paths + deep[..j + 1];
    forall k | 0 <= k < |log| - 1
      ensures FoundIn(entries, log[k]).None?
    {
      if k >= |paths| {
        assert log[k] == deep[k - |paths|];
      }
    }
    assert log[|log| - 1] == deep[j];
  }

  /** A log that is a prefix of the read order, and all of it after a failure, has the expected shape. */
  lemma LogShapeFromPrefix(targets: seq<Target>, names: seq<string>, run: Run)
    requires run.readLog <= ReadOrder(targets, names)
    requires !run.result.success ==> run.readLog == ReadOrder(targets, names)
    ensures LogShape(targets, names, run)
  {
    ReadOrderSpec(targets, names);
    var order := ReadOrder(targets, names);
    forall n | n in run.readLog
      ensures n in names
    {
      var k :| 0 <= k < |run.readLog| && run.readLog[k] == n;
      assert order[k] == n;
    }
  }

  /** Case three: nothing read yields a version. */
  lemma NothingDecides(targets: seq<Target>, names: seq<string>, entries: map<string, ReadOutcome>, indicator: string)
    requires FirstFound(entries, Paths(PresentTargets(names, targets))) == None
    requires FirstFound(entries, DeepScanFiles(names)) == None
    ensures var run := ClosedForm(targets, names, entries, indicator);
      && Consistent(run.result) && SoundSource(targets, names, entries, run)
      && FirstToYield(entries, run) && LogShape(targets, names, run)
  {
    var paths := Paths(PresentTargets(names, targets));
    var deep := DeepScanFiles(names);
    var run := ClosedForm(targets, names, entries, indicator);
    FirstFoundSpec(entries, paths);
    FirstFoundSpec(entries, deep);
    ReadOrderSpec(targets, names);
    assert run.readLog == ReadOrder(targets, names);
    forall k | 0 <= k < |run.readLog|
      ensures FoundIn(entries, run.readLog[k]).None?
    {
      if k >= |paths| {
        assert run.readLog[k] == deep[k - |paths|];
      }
    }
  }

  /** All four guarantees hold for the closed form, whichever entry decides. */
  lemma ClosedFormFacts(targets: seq<Target>, names: seq<string>, entries: map<string, ReadOutcome>, indicator: string)
    ensures var run := ClosedForm(targets, names, entries, indicator);
      && Consistent(run.result) && SoundSource(targets, names, entries, run)
      && FirstToYield(entries, run) && LogShape(targets, names, run)
      && run.result.isUnity && run.result.details != [] && run.result.details[0] == FoundIndicator(indicator)
  {
    var paths := Paths(PresentTargets(names, targets));
    var deep := DeepScanFiles(names);
    match FirstFound(entries, paths)
    case Some(i) =>
      PriorityDecides(targets, names, entries, indicator, i);
    case None =>
      match FirstFound(entries, deep)
      case Some(j) =>
        DeepDecides(targets, names, entries, indicator, j);
      case None =>
        NothingDecides(targets, names, entries, indicator);
  }

  /**
   * The extraction's guarantees. The result record is consistent; a
   * reported version is valid, spelled in the bytes of the reported source
   * entry, and comes from the first entry read that yields one; the
   * archive counts as Unity exactly when it opened and holds an indicator,
   * and then the first detail line names the indicator and the entries
   * read follow the fixed order; otherwise nothing was read.
   */
  lemma ExtractionGuarantees(a: Archive)
    ensures var run := Extract(a);
      && Consistent(run.result)
      && (a.Opened? ==> SoundSource(TARGET_FILES, a.names, a.entries, run) && FirstToYield(a.entries, run))
      && (run.result.isUnity <==> a.Opened? && FirstIndicator(a.names, UNITY_INDICATORS).Some?)
      && (run.result.isUnity ==>
            && run.result.details != []
            && run.result.details[0] == FoundIndicator(FirstIndicator(a.names, UNITY_INDICATORS).value)
            && LogShape(TARGET_FILES, a.names, run))
      && (!run.result.isUnity ==> run.result.details == [] && run.readLog == [])
  {
    if a.Opened? && FirstIndicator(a.names, UNITY_INDICATORS).Some? {
      ExtractClosed(a.names, a.entries);
      ClosedFormFacts(TARGET_FILES, a.names, a.entries, FirstIndicator(a.names, UNITY_INDICATORS).value);
    }
  }

  /** The stage messages differ from each other, whatever text an unexpected failure carries. */
  lemma MessagesDistinct(f: OpenFailure)
    ensures OpenFailureMessage(f) != NOT_UNITY
    ensures INVALID_APK != NOT_UNITY && INVALID_APK != UNDETERMINED && NOT_UNITY != UNDETERMINED
  {
    var m := OpenFailureMessage(f);
    assert NOT_UNITY[0] == 'T';
    if f.Unexpected? {
      assert m[0] == 'U';
    }
    assert INVALID_APK[0] == 'I';
    assert |NOT_UNITY| < |UNDETERMINED| && |INVALID_APK| < |UNDETERMINED|;
  }

  /**
   * The error names the stage that stopped the extraction: an archive that
   * is not a ZIP or does not open is never read; "not a Unity game"
   * exactly when it opened without an indicator; "could not be determined",
   * for an archive that opened, exactly when it is Unity and no version was
   * found.
   */
  lemma ErrorStages(a: Archive)
    ensures var run := Extract(a);
      && (a.NotAZip? ==> run.result.error == Some(INVALID_APK) && run.readLog == [])
      && (a.OpenFailed? ==> run.result.error == Some(OpenFailureMessage(a.failure)) && run.readLog == [])
      && (run.result.error == Some(NOT_UNITY) <==> a.Opened? && FirstIndicator(a.names, UNITY_INDICATORS).None?)
      && (a.Opened? && run.result.error == Some(UNDETERMINED) <==> run.result.isUnity && !run.result.success)
  {
    ExtractionGuarantees(a);
    if a.OpenFailed? {
      MessagesDistinct(a.failure);
    } else {
      MessagesDistinct(Corrupted);
    }
    if a.Opened? && FirstIndicator(a.names, UNITY_INDICATORS).Some? {
      var indicator := FirstIndicator(a.names, UNITY_INDICATORS).value;
      ExtractClosed(a.names, a.entries);
      UndeterminedOnlyAtEnd(TARGET_FILES, a.names, a.entries, indicator);
    }
  }

  /** In the closed form, the only error is "could not be determined", and only without a version. */
  lemma UndeterminedOnlyAtEnd(targets: seq<Target>, names: seq<string>, entries: map<string, ReadOutcome>, indicator: string)
    ensures var r := ClosedForm(targets, names, entries, indicator).result;
      r.error == (if r.success then None else Some(UNDETERMINED))
  {
  }

  /** A warning names a target the archive holds whose read failed, with the failure's text. */
  predicate IsReadWarning(targets: seq<Target>, names: seq<string>, entries: map<string, ReadOutcome>, w: string)
  {
    exists t :: t in targets && t.path in names && Read(entries, t.path).ReadFailure? &&
      w == CouldNotRead(t.displayName, Read(entries, t.path).reason)
  }

  lemma ClosedFormWarnings(targets: seq<Target>, names: seq<string>, entries: map<string, ReadOutcome>, indicator: string)
    ensures var d := ClosedForm(targets, names, entries, indicator).result.details;
      d != [] && forall k :: 1 <= k < |d| ==> IsReadWarning(targets, names, entries, d[k])
  {
    var present := PresentTargets(names, targets);
    var d := ClosedForm(targets, names, entries, indicator).result.details;
    var read := match FirstFound(entries, Paths(present))
      case Some(i) => present[..i]
      case None => present;
    assert d == [FoundIndicator(indicator)] + Warnings(entries, read);
    assert forall t :: t in read ==> t in present;
    WarningsSpec(entries, read);
    forall k | 1 <= k < |d|
      ensures IsReadWarning(targets, names, entries, d[k])
    {
      assert d[k] in Warnings(entries, read);
    }
  }

  /** After the indicator line, every detail line is a warning about an unreadable priority target. */
  lemma DetailsAreWarnings(a: Archive)
    ensures var r := Extract(a).result;
      r.isUnity ==> a.Opened? && forall k :: 1 <= k < |r.details| ==> IsReadWarning(TARGET_FILES, a.names, a.entries, r.details[k])
  {
    if a.Opened? && FirstIndicator(a.names, UNITY_INDICATORS).Some? {
      ExtractClosed(a.names, a.entries);
      ClosedFormWarnings(TARGET_FILES, a.names, a.entries, FirstIndicator(a.names, UNITY_INDICATORS).value);
    }
  }

  /** An entry yields nothing: reading it fails, or nothing in its bytes passes the validator by any tier. */
  ghost predicate YieldsNothing(entries: map<string, ReadOutcome>, name: string)
  {
    match Read(entries, name)
    case ReadFailure(_) => true
    case Contents(bytes) => NoCandidate(bytes)
  }

  /** An entry yields no version exactly when its read fails or its bytes hold no valid candidate. */
  lemma FoundInNone(entries: map<string, ReadOutcome>, name: string)
    ensures FoundIn(entries, name).None? <==> YieldsNothing(entries, name)
  {
    if Read(entries, name).Contents? {
      FindVersionNone(Read(entries, name).bytes);
    }
  }

  /**
   * "Could not be determined" is reported exactly when the archive is a
   * Unity archive and every entry the extraction read yields nothing.
   */
  lemma UndeterminedMeansNoCandidate(a: Archive)
    ensures var run := Extract(a);
      a.Opened? && run.result.error == Some(UNDETERMINED) <==>
        run.result.isUnity && forall k :: 0 <= k < |run.readLog| ==> YieldsNothing(a.entries, run.readLog[k])
  {
    var run := Extract(a);
    ExtractionGuarantees(a);
    ErrorStages(a);
    if run.result.isUnity {
      forall k | 0 <= k < |run.readLog|
        ensures FoundIn(a.entries, run.readLog[k]).None? <==> YieldsNothing(a.entries, run.readLog[k])
      {
        FoundInNone(a.entries, run.readLog[k]);
      }
      if run.result.success {
        var last := |run.readLog| - 1;
        assert FoundIn(a.entries, run.readLog[last]).Some?;
      }
    }
  }
}
