/**
 Results of the checks on a run's base commit are kept in files and reused, so that a
 candidate is blamed only for failures which the base did not have.

 The digests of one definition and of one selection are modelled by what they are
 taken of.  File names keep only a prefix of the selection digest, so two
 selections may share a file and overwrite each other.
 */
module Baseline {
  import opened Common
  import opened Checks

  /** Two definitions with this in common run the same command under the same rules. */
  datatype Fingerprint = Fingerprint(
    id: string,
    argv: seq<string>,
    cwd: string,
    timeoutSeconds: int,
    preflightArgv: seq<string>,
    required: bool,
    blocking: bool,
    junitXml: string)

  function FingerprintOf(c: CheckConfig): Fingerprint {
    Fingerprint(c.id, c.argv, c.cwd, c.timeoutSeconds, c.preflightArgv, c.required, c.blocking, c.junitXml)
  }

  /** The identity of one selection: its definitions, in order. */
  type Selection = seq<Fingerprint>

  function SelectionOf(checks: seq<CheckConfig>): Selection {
    seq(|checks|, i requires 0 <= i < |checks| => FingerprintOf(checks[i]))
  }

  datatype BaselineStatus = Pass | Fail | Skipped | Unavailable

  datatype CheckBaseline = CheckBaseline(
    checkId: string,
    status: BaselineStatus,
    exitCode: int,
    failureIds: seq<string>,
    parsed: bool,
    detail: string)

  datatype BaselineRecord = BaselineRecord(
    baseSha: string,
    selection: Selection,
    checks: seq<CheckBaseline>,
    fingerprints: map<string, Fingerprint>,
    unavailableReason: string)

  /** What a cache file holds: nothing usable, or the payload of a record. */
  datatype FileContent = Corrupt | Stored(record: BaselineRecord)

  /** A payload with a repeated check ID is refused like a corrupt one. */
  function FromPayload(content: FileContent): Option<BaselineRecord> {
    if content.Stored? &&
       forall i, j :: 0 <= i < j < |content.record.checks| ==>
         content.record.checks[i].checkId != content.record.checks[j].checkId
    then Some(content.record)
    else None
  }

  function IdsOf(entries: seq<CheckBaseline>): seq<string> {
    seq(|entries|, i requires 0 <= i < |entries| => entries[i].checkId)
  }

  lemma DistinctIdsOf(entries: seq<CheckBaseline>)
    ensures Distinct(IdsOf(entries)) <==>
      forall i, j :: 0 <= i < j < |entries| ==> entries[i].checkId != entries[j].checkId
  {
    assert forall i :: 0 <= i < |entries| ==> IdsOf(entries)[i] == entries[i].checkId;
  }

  /** A payload is read as it is, or not at all when some check occurs twice in it. */
  lemma RepeatedIdsAreRefused(content: FileContent, r: BaselineRecord)
    ensures FromPayload(content) == Some(r) <==> content == Stored(r) && Distinct(IdsOf(r.checks))
  {
    DistinctIdsOf(r.checks);
  }

  /** The entry of a check in a record: the last one of its ID. */
  function EntryOf(entries: seq<CheckBaseline>, id: string): (e: Option<CheckBaseline>)
    ensures e.Some? ==> e.value in entries && e.value.checkId == id
    ensures e.None? ==> forall x :: x in entries ==> x.checkId != id
  {
    if entries == [] then None
    else
      var last := |entries| - 1;
      assert entries == entries[..last] + [entries[last]];
      if entries[last].checkId == id then Some(entries[last]) else EntryOf(entries[..last], id)
  }

  predicate Proves(r: BaselineRecord, c: CheckConfig) {
    && EntryOf(r.checks, c.id).Some?
    && c.id in r.fingerprints && r.fingerprints[c.id] == FingerprintOf(c)
  }

  function FingerprintMap(checks: seq<CheckConfig>): map<string, Fingerprint> {
    map c | c in checks :: c.id := FingerprintOf(ById(checks)[c.id])
  }

  // ----------------------------------------------------------------- capturing

  /** The failing IDs a check's report or output names, when it can be parsed. */
  type Parser = (Fingerprint, CheckResult) -> (bool, seq<string>)

  function BaselineOfResult(d: Fingerprint, r: CheckResult, parse: Parser): CheckBaseline {
    if r.failureKind.SkippedInfra? then CheckBaseline(d.id, Skipped, r.exitCode, [], false, "")
    else if r.failureKind.Passed? && r.exitCode == 0 && !r.timedOut then CheckBaseline(d.id, Pass, 0, [], true, "")
    else if r.failureKind.MissingExecutable? || r.failureKind.ProcessStartFailed? then
      CheckBaseline(d.id, Unavailable, r.exitCode, [], false, "")
    else CheckBaseline(d.id, Fail, r.exitCode, parse(d, r).1, parse(d, r).0, "")
  }

  /** What one check did on the base commit: its result, or nothing for want of a capture. */
  datatype Observed = OnBase(result: CheckResult) | NotRun(reason: string)

  function EntryFor(d: Fingerprint, o: Observed, parse: Parser): CheckBaseline {
    match o
    case OnBase(r) => BaselineOfResult(d, r, parse)
    case NotRun(reason) => CheckBaseline(d.id, Unavailable, -1, [], false, reason)
  }

  /** What happened when the checks were run on the base commit: one result per check, or no capture at all. */
  datatype Capture = Ran(results: seq<CheckResult>) | CouldNotRun(reason: string)

  function ObservedAt(capture: Capture, i: nat): Observed
    requires capture.Ran? ==> i < |capture.results|
  {
    if capture.Ran? then OnBase(capture.results[i]) else NotRun(capture.reason)
  }

  function CapturedEntry(c: CheckConfig, capture: Capture, i: nat, parse: Parser): CheckBaseline
    requires capture.Ran? ==> i < |capture.results|
  {
    EntryFor(FingerprintOf(c), ObservedAt(capture, i), parse)
  }

  function CapturedRecord(base: string, checks: seq<CheckConfig>, capture: Capture, parse: Parser): BaselineRecord
    requires capture.Ran? ==> |capture.results| == |checks|
  {
    BaselineRecord(
      base,
      SelectionOf(checks),
      seq(|checks|, i requires 0 <= i < |checks| => CapturedEntry(checks[i], capture, i, parse)),
      FingerprintMap(checks),
      if capture.Ran? then "" else capture.reason)
  }

  // ---------------------------------------------------------------- soundness

  /** What one definition did when it was run, or could not be run, on one base commit. */
  datatype Answer = Answer(base: string, definition: Fingerprint, observed: Observed)

  /** The entry tells something that was observed of this very definition on this base commit. */
  ghost predicate Tells(entry: CheckBaseline, base: string, d: Fingerprint, captured: set<Answer>, parse: Parser) {
    exists o :: Answer(base, d, o) in captured && entry == EntryFor(d, o, parse)
  }

  /** A record answers a selection: one entry per definition, in order, that tells what was observed. */
  ghost predicate AnswersSelection(r: BaselineRecord, base: string, selection: Selection, captured: set<Answer>,
                                   parse: Parser) {
    && r.baseSha == base && r.selection == selection
    && |r.checks| == |selection|
    && forall i :: 0 <= i < |selection| ==>
         r.checks[i].checkId == selection[i].id && Tells(r.checks[i], base, selection[i], captured, parse)
  }

  /** Every stored record answers its own selection, and its fingerprints are that selection's. */
  ghost predicate Sound(r: BaselineRecord, captured: set<Answer>, parse: Parser) {
    && AnswersSelection(r, r.baseSha, r.selection, captured, parse)
    && (forall i :: 0 <= i < |r.selection| ==>
         r.selection[i].id in r.fingerprints && r.fingerprints[r.selection[i].id] == r.selection[i])
  }

  /** A record narrowed to some checks, if it has the entry of each of their definitions. */
  function Slice(r: BaselineRecord, checks: seq<CheckConfig>): Option<BaselineRecord> {
    if forall i :: 0 <= i < |checks| ==> Proves(r, checks[i]) then
      Some(BaselineRecord(
        r.baseSha,
        SelectionOf(checks),
        seq(|checks|, i requires 0 <= i < |checks| => EntryOf(r.checks, checks[i].id).value),
        FingerprintMap(checks),
        r.unavailableReason))
    else None
  }

  lemma FingerprintsOfSelection(checks: seq<CheckConfig>)
    requires DistinctIds(checks)
    ensures forall i :: 0 <= i < |checks| ==>
      checks[i].id in FingerprintMap(checks) && FingerprintMap(checks)[checks[i].id] == FingerprintOf(checks[i])
  {
    forall i | 0 <= i < |checks|
      ensures checks[i].id in FingerprintMap(checks) && FingerprintMap(checks)[checks[i].id] == FingerprintOf(checks[i])
    {
      assert checks[i] in checks;
      var c := ById(checks)[checks[i].id];
      var j :| 0 <= j < |checks| && checks[j] == c;
    }
  }

  /** An entry sliced out of a sound record tells what was observed of the very definition that asks for it. */
  lemma SlicedEntryWasCaptured(r: BaselineRecord, c: CheckConfig, captured: set<Answer>, parse: Parser)
    requires Sound(r, captured, parse) && Proves(r, c)
    ensures Tells(EntryOf(r.checks, c.id).value, r.baseSha, FingerprintOf(c), captured, parse)
  {
    var e := EntryOf(r.checks, c.id).value;
    var i :| 0 <= i < |r.checks| && r.checks[i] == e;
    assert r.selection[i].id == c.id;
  }

  lemma SliceIsSound(r: BaselineRecord, checks: seq<CheckConfig>, captured: set<Answer>, parse: Parser)
    requires Sound(r, captured, parse) && DistinctIds(checks) && Slice(r, checks).Some?
    ensures Sound(Slice(r, checks).value, captured, parse)
    ensures AnswersSelection(Slice(r, checks).value, r.baseSha, SelectionOf(checks), captured, parse)
  {
    var slice := Slice(r, checks).value;
    FingerprintsOfSelection(checks);
    forall i | 0 <= i < |checks|
      ensures slice.checks[i].checkId == checks[i].id
        && Tells(slice.checks[i], r.baseSha, FingerprintOf(checks[i]), captured, parse)
    {
      SlicedEntryWasCaptured(r, checks[i], captured, parse);
    }
  }

  /** The record was taken of each of these definitions, among others. */
  ghost predicate Covers(r: BaselineRecord, checks: seq<CheckConfig>) {
    forall i :: 0 <= i < |checks| ==> FingerprintOf(checks[i]) in r.selection
  }

  /** A sound record of more definitions can be cut down to these. */
  lemma CoveringRecordIsSliced(r: BaselineRecord, checks: seq<CheckConfig>, captured: set<Answer>, parse: Parser)
    requires Sound(r, captured, parse) && Covers(r, checks)
    ensures Slice(r, checks).Some?
  {
    forall i | 0 <= i < |checks| ensures Proves(r, checks[i]) {
      var j :| 0 <= j < |r.selection| && r.selection[j] == FingerprintOf(checks[i]);
      assert r.checks[j] in r.checks && r.checks[j].checkId == checks[i].id;
    }
  }

  /** The answers one capture adds. */
  ghost function AnswersOf(base: string, checks: seq<CheckConfig>, capture: Capture): set<Answer>
    requires capture.Ran? ==> |capture.results| == |checks|
  {
    set i | 0 <= i < |checks| :: AnswerAt(base, checks, capture, i)
  }

  ghost function AnswerAt(base: string, checks: seq<CheckConfig>, capture: Capture, i: nat): Answer
    requires i < |checks| && (capture.Ran? ==> |capture.results| == |checks|)
  {
    Answer(base, FingerprintOf(checks[i]), ObservedAt(capture, i))
  }

  lemma CapturedAt(base: string, checks: seq<CheckConfig>, capture: Capture, parse: Parser, captured: set<Answer>,
                   i: nat)
    requires i < |checks| && (capture.Ran? ==> |capture.results| == |checks|)
    requires AnswersOf(base, checks, capture) <= captured
    ensures CapturedEntry(checks[i], capture, i, parse).checkId == checks[i].id
    ensures Tells(CapturedEntry(checks[i], capture, i, parse), base, FingerprintOf(checks[i]), captured, parse)
  {
    assert AnswerAt(base, checks, capture, i) in AnswersOf(base, checks, capture);
  }

  lemma CaptureIsSound(base: string, checks: seq<CheckConfig>, capture: Capture, parse: Parser, captured: set<Answer>)
    requires DistinctIds(checks) && (capture.Ran? ==> |capture.results| == |checks|)
    requires AnswersOf(base, checks, capture) <= captured
    ensures Sound(CapturedRecord(base, checks, capture, parse), captured, parse)
    ensures AnswersSelection(CapturedRecord(base, checks, capture, parse), base, SelectionOf(checks), captured, parse)
  {
    FingerprintsOfSelection(checks);
    forall i | 0 <= i < |checks|
      ensures CapturedEntry(checks[i], capture, i, parse).checkId == checks[i].id
      ensures Tells(CapturedEntry(checks[i], capture, i, parse), base, FingerprintOf(checks[i]), captured, parse)
    {
      CapturedAt(base, checks, capture, parse, captured, i);
    }
  }

  /** A fresh record is read back from its file. */
  lemma CaptureIsReadBack(base: string, checks: seq<CheckConfig>, capture: Capture, parse: Parser)
    requires DistinctIds(checks) && (capture.Ran? ==> |capture.results| == |checks|)
    ensures var r := CapturedRecord(base, checks, capture, parse); FromPayload(Stored(r)) == Some(r)
  {
    var r := CapturedRecord(base, checks, capture, parse);
    forall i | 0 <= i < |checks| ensures r.checks[i].checkId == checks[i].id {
    }
  }

  // ------------------------------------------------------------------ the cache

  class BaselineCache {
    const digestPrefix: Selection -> string
    const parse: Parser
    // The cache files, named by base commit and digest prefix.
    var files: map<(string, string), FileContent>
    // Every answer ever captured, here or by whoever else wrote a file.
    ghost var captured: set<Answer>

    constructor (digestPrefix: Selection -> string, parse: Parser)
      ensures this.digestPrefix == digestPrefix && this.parse == parse
      ensures files == map[] && captured == {} && Valid()
    {
      this.digestPrefix, this.parse, files, captured := digestPrefix, parse, map[], {};
    }

    ghost predicate Valid()
      reads this
    {
      forall key :: key in files && files[key].Stored? ==> Sound(files[key].record, captured, parse)
    }

    /** The exact cache entry of one selection. */
    function Load(base: string, selection: Selection): Option<BaselineRecord>
      reads this
    {
      var key := (base, digestPrefix(selection));
      if key !in files then None
      else
        match FromPayload(files[key])
        case None => None
        case Some(r) => if r.baseSha == base && r.selection == selection then Some(r) else None
    }

    /** Some readable file of this base was taken of all these definitions. */
    ghost predicate CanReuse(base: string, checks: seq<CheckConfig>)
      reads this
    {
      exists key :: Reusable(key, base, checks)
    }

    ghost predicate Reusable(key: (string, string), base: string, checks: seq<CheckConfig>)
      reads this
    {
      && key in files && key.0 == base && FromPayload(files[key]).Some?
      && files[key].record.baseSha == base && Covers(files[key].record, checks)
    }

    /** Look for a file, in any order, whose record can be narrowed to this selection. */
    method CachedSuperset(base: string, checks: seq<CheckConfig>) returns (r: Option<BaselineRecord>)
      requires Valid() && DistinctIds(checks)
      ensures r.Some? ==> AnswersSelection(r.value, base, SelectionOf(checks), captured, parse)
      ensures r.None? ==> forall key ::
        key in files && key.0 == base && FromPayload(files[key]).Some? && files[key].record.baseSha == base ==>
        Slice(files[key].record, checks).None?
    {
      var todo := set key | key in files && key.0 == base;
      ghost var all := todo;
      while todo != {}
        invariant todo <= all
        invariant forall key ::
          key in all - todo && FromPayload(files[key]).Some? && files[key].record.baseSha == base ==>
          Slice(files[key].record, checks).None?
        decreases |todo|
      {
        var key :| key in todo;
        var record := FromPayload(files[key]);
        if record.Some? && record.value.baseSha == base {
          var slice := Slice(record.value, checks);
          if slice.Some? {
            SliceIsSound(record.value, checks, captured, parse);
            return slice;
          }
        }
        todo := todo - {key};
      }
      return None;
    }

    method Store(r: BaselineRecord)
      requires Valid() && Sound(r, captured, parse)
      modifies this`files
      ensures Valid() && files == old(files)[(r.baseSha, digestPrefix(r.selection)) := Stored(r)]
    {
      files := files[(r.baseSha, digestPrefix(r.selection)) := Stored(r)];
    }

    /**
     Someone else replaces a cache file: by garbage, or by any record of answers
     captured here or, just now, by another process, even under a wrong name.
     */
    method Overwrite(key: (string, string), content: FileContent, ghost elsewhere: set<Answer>)
      requires Valid() && (content.Stored? ==> Sound(content.record, captured + elsewhere, parse))
      modifies this
      ensures Valid() && files == old(files)[key := content] && captured == old(captured) + elsewhere
    {
      captured := captured + elsewhere;
      files := files[key := content];
    }

    /**
     The baseline of the selected checks: an exact entry, a slice of a superset, or a
     fresh capture that is stored.  Whichever it is, each entry tells what was observed,
     or could not be, of this very definition on this base, in the wanted order.
     */
    method EnsureSelected(base: string, checks: seq<CheckConfig>, capture: Capture) returns (r: BaselineRecord)
      requires Valid() && DistinctIds(checks) && (capture.Ran? ==> |capture.results| == |checks|)
      modifies this
      ensures Valid() && AnswersSelection(r, base, SelectionOf(checks), captured, parse)
      ensures var added := AnswersOf(base, checks, capture);
              || (files == old(files) && captured == old(captured))
              || (captured == old(captured) + added && Load(base, SelectionOf(checks)) == Some(r)
                 && r == CapturedRecord(base, checks, capture, parse))
      ensures old(CanReuse(base, checks)) ==> files == old(files) && captured == old(captured)
      ensures old(Load(base, SelectionOf(checks))).Some? ==>
        r == old(Load(base, SelectionOf(checks))).value && files == old(files) && captured == old(captured)
    {
      var cached := Load(base, SelectionOf(checks));
      if cached.Some? {
        return cached.value;
      }
      var covering := CachedSuperset(base, checks);
      if covering.Some? {
        return covering.value;
      }
      forall key | Reusable(key, base, checks) ensures false {
        CoveringRecordIsSliced(files[key].record, checks, captured, parse);
      }
      r := CapturedRecord(base, checks, capture, parse);
      captured := captured + AnswersOf(base, checks, capture);
      CaptureIsSound(base, checks, capture, parse, captured);
      Store(r);
      CaptureIsReadBack(base, checks, capture, parse);
    }

    /** `EnsureSelected` on the trusted definitions of the wanted IDs, or a refusal of the selection. */
    method Ensure(base: string, config: CheckCatalogue, ids: seq<string>, capture: Capture)
      returns (r: Result<BaselineRecord, SelectionError>)
      requires Valid()
      requires SelectChecks(config, Some(ids)).Success? && capture.Ran? ==>
        |capture.results| == |SelectChecks(config, Some(ids)).value|
      modifies this
      ensures Valid() && old(captured) <= captured
      ensures var selected := SelectChecks(config, Some(ids));
              if selected.Failure? then r == Failure(selected.error) && files == old(files) && captured == old(captured)
              else r.Success? && AnswersSelection(r.value, base, SelectionOf(selected.value), captured, parse)
    {
      var selected := SelectChecks(config, Some(ids));
      if selected.Failure? {
        return Failure(selected.error);
      }
      SelectedChecksAreDistinct(config, Some(ids));
      var record := EnsureSelected(base, selected.value, capture);
      return Success(record);
    }
  }

  // ---------------------------------------------------------------- comparison

  datatype Verdict = VerdictPass | Regression | Improved | BaselineWarning | BaselineRed | SkippedInfrastructure

  /** How a candidate result compares with the entry of the base commit, if there is one. */
  function CompareCheck(candidate: CheckBaseline, baseline: Option<CheckBaseline>): Verdict {
    if candidate.status.Skipped? then SkippedInfrastructure
    else if (candidate.status.Pass? || candidate.status.Unavailable?) && candidate.exitCode == 0 then
      if baseline.Some? && baseline.value.status.Fail? then Improved else VerdictPass
    else if baseline.None? then Regression
    else if baseline.value.status.Pass? then Regression
    else if baseline.value.status.Unavailable? || baseline.value.status.Skipped? then BaselineRed
    else if !baseline.value.parsed then BaselineRed
    else if !candidate.parsed then Regression
    else if exists i :: 0 <= i < |candidate.failureIds| && candidate.failureIds[i] !in baseline.value.failureIds then
      Regression
    else BaselineWarning
  }

  /** Whether the base commit gave an explained answer to compare with. */
  predicate Explained(baseline: CheckBaseline) {
    baseline.status.Pass? || (baseline.status.Fail? && baseline.parsed)
  }

  /**
   A failing candidate result blocks exactly when it is new: no baseline at all, or an
   explained one that does not already name every failure.  It is let through only
   against a base that could not explain itself, or that already failed in every case.
   */
  lemma OnlyNewFailuresBlock(d: Fingerprint, r: CheckResult, parse: Parser, baseline: Option<CheckBaseline>)
    requires WellShaped(r) && r.exitCode != 0 && !r.failureKind.SkippedInfra?
    ensures var candidate := BaselineOfResult(d, r, parse);
            var verdict := CompareCheck(candidate, baseline);
            && verdict in {Regression, BaselineRed, BaselineWarning}
            && (verdict == Regression <==>
                || baseline.None?
                || (Explained(baseline.value) &&
                    !(baseline.value.status.Fail? && candidate.parsed &&
                      forall id :: id in candidate.failureIds ==> id in baseline.value.failureIds)))
            && (verdict == BaselineRed <==> baseline.Some? && !Explained(baseline.value))
  {
    var candidate := BaselineOfResult(d, r, parse);
    assert forall id :: id in candidate.failureIds <==>
        exists i :: 0 <= i < |candidate.failureIds| && candidate.failureIds[i] == id;
  }

  /**
   What the base commit did excuses a failing candidate: the base never answered, failed without
   saying how, or already failed in every case the candidate names.
   */
  predicate Excuses(o: Observed, d: Fingerprint, r: CheckResult, parse: Parser) {
    match o
    case NotRun(_) => true
    case OnBase(b) =>
      || b.failureKind.SkippedInfra? || b.failureKind.MissingExecutable? || b.failureKind.ProcessStartFailed?
      || (!CleanPass(b) && !parse(d, b).0)
      || (!CleanPass(b) && parse(d, r).0 && forall id :: id in parse(d, r).1 ==> id in parse(d, b).1)
  }

  predicate CleanPass(r: CheckResult) {
    r.failureKind.Passed? && r.exitCode == 0 && !r.timedOut
  }

  /**
   From result to result: a candidate that exits with a failure is let through exactly when what the base
   commit did excuses it.  In particular a base that passed excuses nothing.
   */
  lemma FailureIsExcusedExactlyWhen(d: Fingerprint, o: Observed, r: CheckResult, parse: Parser)
    requires WellShaped(r) && r.failureKind.NonzeroExit?
    ensures var verdict := CompareCheck(BaselineOfResult(d, r, parse), Some(EntryFor(d, o, parse)));
            verdict == Regression <==> !Excuses(o, d, r, parse)
    ensures o.OnBase? && CleanPass(o.result) ==> !Excuses(o, d, r, parse)
  {
    OnlyNewFailuresBlock(d, r, parse, Some(EntryFor(d, o, parse)));
  }

  /** What an entry records: which status, its check, and failure IDs only of a failure that was understood. */
  lemma EntryMeans(d: Fingerprint, o: Observed, parse: Parser)
    ensures var e := EntryFor(d, o, parse);
            && e.checkId == d.id
            && (e.status.Pass? <==> o.OnBase? && CleanPass(o.result))
            && (e.status.Skipped? <==> o.OnBase? && o.result.failureKind.SkippedInfra?)
            && (e.status.Unavailable? <==>
                 o.OnBase? ==> o.result.failureKind.MissingExecutable? || o.result.failureKind.ProcessStartFailed?)
            && (e.exitCode == match o case OnBase(r) => r.exitCode case NotRun(_) => -1)
            && (e.parsed <==> e.status.Pass? || (e.status.Fail? && parse(d, o.result).0))
            && (e.failureIds == if e.status.Fail? then parse(d, o.result).1 else [])
            && (e.detail == match o case OnBase(_) => "" case NotRun(reason) => reason)
  {
  }

  /** A candidate check that passed is never a regression, and an improvement exactly when the base failed. */
  lemma PassIsNeverBlocked(d: Fingerprint, r: CheckResult, parse: Parser, o: Observed)
    requires CleanPass(r)
    ensures var entry := EntryFor(d, o, parse);
            var verdict := CompareCheck(BaselineOfResult(d, r, parse), Some(entry));
            && verdict in {VerdictPass, Improved}
            && (verdict == Improved <==> entry.status.Fail?)
    ensures CompareCheck(BaselineOfResult(d, r, parse), None) == VerdictPass
  {
  }

  /** Two definitions are the same to the cache exactly when they differ in their description at most. */
  lemma FingerprintsTellApart(c: CheckConfig, d: CheckConfig)
    ensures FingerprintOf(c) == FingerprintOf(d) <==> c.(description := d.description) == d
  {
  }
}
