/** The level domain service (src/lib/levels/domain-service.ts) over in-memory
    stand-ins for its three repositories (src/lib/levels/ports.ts). */
module LevelDomain {
  import opened Wrappers
  import opened LevelOrder
  import opened LevelEngine

  /** `ProfileLevelRecord`; `unlockedAt` is an integer timestamp. */
  datatype ProfileLevelRecord = ProfileLevelRecord(profileId: string, level: Level, data: FieldBag, unlockedAt: int)

  /** What `ProgressRepository.getProgress` returns. */
  datatype RawProgress = RawProgress(xp: real, thresholds: map<Level, real>)

  /** The argument of `ViewRepository.recordView`. */
  datatype ViewRecord = ViewRecord(viewerId: string, targetId: string, levelExposed: Level)

  /** The arguments of one `LevelRepository.saveUnlock` call. */
  datatype SavedUnlock = SavedUnlock(result: UnlockResult, attempt: UnlockAttempt)

  /** Why a `viewSnapshot` call can fail: a repository read that rejects, or the
      progress calculation throwing. */
  datatype ServiceError =
    | LevelNotFound(profileId: string)
    | ProgressNotFound(profileId: string)
    | ProgressFailed(error: ProgressError)

  // ---------------------------------------------------------------------------
  // recordsToFields
  // ---------------------------------------------------------------------------

  /** The payload before any record is applied: empty basic fields, nothing else. */
  const EMPTY_PAYLOAD: ProfileFieldsPayload := ProfileFieldsPayload(map[], None, None, None)

  /** One step of the `forEach`: the record's data goes to the field of its level. */
  function ApplyRecord(payload: ProfileFieldsPayload, record: ProfileLevelRecord): ProfileFieldsPayload {
    match record.level
    case L1 => payload.(basic := record.data)
    case L2 => payload.(vibe := Some(record.data))
    case L3 => payload.(trust := Some(record.data))
    case L4 => payload.(intent := Some(record.data))
  }

  /** The payload after applying all records in list order. */
  function FieldsFromRecords(records: seq<ProfileLevelRecord>): ProfileFieldsPayload
    decreases |records|
  {
    if |records| == 0 then EMPTY_PAYLOAD
    else ApplyRecord(FieldsFromRecords(records[..|records| - 1]), records[|records| - 1])
  }

  /** The payload field that holds a level's data (basic is never absent). */
  function FieldFor(payload: ProfileFieldsPayload, level: Level): Option<FieldBag> {
    match level
    case L1 => Some(payload.basic)
    case L2 => payload.vibe
    case L3 => payload.trust
    case L4 => payload.intent
  }

  /** `recordsToFields`: fills a payload in a `forEach` over the records. */
  method RecordsToFields(records: seq<ProfileLevelRecord>) returns (payload: ProfileFieldsPayload)
    ensures payload == FieldsFromRecords(records)
  {
    payload := EMPTY_PAYLOAD;
    var i := 0;
    while i < |records|
      invariant 0 <= i <= |records|
      invariant payload == FieldsFromRecords(records[..i])
    {
      assert records[..i + 1][..i] == records[..i];
      var record := records[i];
      match record.level {
        case L1 => payload := payload.(basic := record.data);
        case L2 => payload := payload.(vibe := Some(record.data));
        case L3 => payload := payload.(trust := Some(record.data));
        case L4 => payload := payload.(intent := Some(record.data));
      }
      i := i + 1;
    }
    assert records[..i] == records;
  }

  /** A record changes only the field of its own level. */
  lemma ApplyRecordFrame(payload: ProfileFieldsPayload, record: ProfileLevelRecord, level: Level)
    ensures FieldFor(ApplyRecord(payload, record), level) ==
            if level == record.level then Some(record.data) else FieldFor(payload, level)
  {
  }

  /** When several records share a level, the last one in the list wins. */
  lemma {:induction false} LastRecordWins(records: seq<ProfileLevelRecord>, i: nat)
    requires i < |records|
    requires forall j :: i < j < |records| ==> records[j].level != records[i].level
    ensures FieldFor(FieldsFromRecords(records), records[i].level) == Some(records[i].data)
    decreases |records|
  {
    var n := |records|;
    ApplyRecordFrame(FieldsFromRecords(records[..n - 1]), records[n - 1], records[i].level);
    if i < n - 1 {
      var init := records[..n - 1];
      assert init[i] == records[i];
      LastRecordWins(init, i);
    }
  }

  /** A level without any record leaves its field at the default: `{}` for the
      basic fields, absent for the others. */
  lemma {:induction false} NoRecordNoField(records: seq<ProfileLevelRecord>, level: Level)
    requires forall j :: 0 <= j < |records| ==> records[j].level != level
    ensures FieldFor(FieldsFromRecords(records), level) == if level == L1 then Some(map[]) else None
    decreases |records|
  {
    var n := |records|;
    if n > 0 {
      ApplyRecordFrame(FieldsFromRecords(records[..n - 1]), records[n - 1], level);
      NoRecordNoField(records[..n - 1], level);
    }
  }

  // ---------------------------------------------------------------------------
  // Snapshot composition
  // ---------------------------------------------------------------------------

  /** The pure part of `viewSnapshot`: the target's progress from the target's own
      xp, thresholds and level, then the masked snapshot. */
  function ComposeSnapshot(
    profileId: string, viewerLevel: Level, targetLevel: Level,
    records: seq<ProfileLevelRecord>, raw: RawProgress): (r: Result<ProfileSnapshot, ServiceError>)
    ensures r.Err? <==> CalculateProgress(raw.xp, raw.thresholds, targetLevel).Err?
    ensures r.Err? ==> r.error == ProgressFailed(CalculateProgress(raw.xp, raw.thresholds, targetLevel).error)
    ensures r.Ok? ==> r.value == BuildProfileSnapshot(profileId, viewerLevel, targetLevel, FieldsFromRecords(records),
                                                      CalculateProgress(raw.xp, raw.thresholds, targetLevel).value)
  {
    match CalculateProgress(raw.xp, raw.thresholds, targetLevel)
    case Err(e) => Err(ProgressFailed(e))
    case Ok(progress) => Ok(BuildProfileSnapshot(profileId, viewerLevel, targetLevel, FieldsFromRecords(records), progress))
  }

  /** A composed snapshot shows the target's progress at the target's level, and
      shows a tier the target has filled in exactly when both parties reached it. */
  lemma ComposedSnapshotDiscloses(
    profileId: string, viewerLevel: Level, targetLevel: Level,
    records: seq<ProfileLevelRecord>, raw: RawProgress, level: Level)
    requires ComposeSnapshot(profileId, viewerLevel, targetLevel, records, raw).Ok?
    ensures var s := ComposeSnapshot(profileId, viewerLevel, targetLevel, records, raw).value;
            s.reciprocalLevel == MinLevel(viewerLevel, targetLevel) &&
            s.progress.current == targetLevel &&
            (FieldFor(FieldsFromRecords(records), level).Some? ==>
              (Shown(s.fields, level) == FieldFor(FieldsFromRecords(records), level) <==>
               Index(viewerLevel) >= Index(level) && Index(targetLevel) >= Index(level)))
  {
    var progress := CalculateProgress(raw.xp, raw.thresholds, targetLevel).value;
    SnapshotDiscloses(profileId, viewerLevel, targetLevel, FieldsFromRecords(records), progress, level);
  }

  /** A snapshot shows a tier the profile has filled in exactly when both
      parties reached it. */
  lemma SnapshotDiscloses(
    profileId: string, viewerLevel: Level, targetLevel: Level,
    fields: ProfileFieldsPayload, progress: Progress, level: Level)
    ensures var s := BuildProfileSnapshot(profileId, viewerLevel, targetLevel, fields, progress);
            FieldFor(fields, level).Some? ==>
              (Shown(s.fields, level) == FieldFor(fields, level) <==>
               Index(viewerLevel) >= Index(level) && Index(targetLevel) >= Index(level))
  {
    var r := ResolveReciprocalLevel(viewerLevel, targetLevel);
    SnapshotShape(profileId, viewerLevel, targetLevel, fields, progress);
    ShownGated(r, fields, level);
    assert Index(r) >= Index(level) <==> Index(viewerLevel) >= Index(level) && Index(targetLevel) >= Index(level);
  }

  /** Under reciprocal level `r`, a level's field is shown as stored when `r`
      reaches the level, and absent otherwise (basic is always shown). */
  lemma ShownGated(r: Level, fields: ProfileFieldsPayload, level: Level)
    ensures Shown(LevelFields(Some(fields.basic), Gated(r, L2, fields.vibe), Gated(r, L3, fields.trust), Gated(r, L4, fields.intent)), level)
         == if Index(r) >= Index(level) then FieldFor(fields, level) else None
  {
  }

  /** The shown field of a level in a snapshot. */
  function Shown(fields: LevelFields, level: Level): Option<FieldBag> {
    match level
    case L1 => fields.basic
    case L2 => fields.vibe
    case L3 => fields.trust
    case L4 => fields.intent
  }

  // ---------------------------------------------------------------------------
  // The service over in-memory repositories
  // ---------------------------------------------------------------------------

  /** `createLevelService(deps)` with the three repositories kept in memory:
      current levels, level records and progress inputs per profile (read-only
      here), the log of `saveUnlock` calls and the log of `recordView` calls. */
  class LevelService {
    var levels: map<string, Level>
    var levelRecords: map<string, seq<ProfileLevelRecord>>
    var progressData: map<string, RawProgress>
    var savedUnlocks: seq<SavedUnlock>
    var views: seq<ViewRecord>

    constructor(
      levels: map<string, Level>,
      levelRecords: map<string, seq<ProfileLevelRecord>>,
      progressData: map<string, RawProgress>)
      ensures this.levels == levels && this.levelRecords == levelRecords && this.progressData == progressData
      ensures savedUnlocks == [] && views == []
    {
      this.levels := levels;
      this.levelRecords := levelRecords;
      this.progressData := progressData;
      savedUnlocks := [];
      views := [];
    }

    /** `LevelRepository.getProfileLevel`: rejects for an unknown profile. */
    method GetProfileLevel(profileId: string) returns (r: Result<Level, ServiceError>)
      ensures r == if profileId in levels then Ok(levels[profileId]) else Err(LevelNotFound(profileId))
    {
      if profileId in levels {
        r := Ok(levels[profileId]);
      } else {
        r := Err(LevelNotFound(profileId));
      }
    }

    /** `LevelRepository.getProfileLevels`: no records for an unknown profile. */
    method GetProfileLevels(profileId: string) returns (records: seq<ProfileLevelRecord>)
      ensures records == if profileId in levelRecords then levelRecords[profileId] else []
    {
      records := if profileId in levelRecords then levelRecords[profileId] else [];
    }

    /** `ProgressRepository.getProgress`: rejects for an unknown profile. */
    method GetProgress(profileId: string) returns (r: Result<RawProgress, ServiceError>)
      ensures r == if profileId in progressData then Ok(progressData[profileId]) else Err(ProgressNotFound(profileId))
    {
      if profileId in progressData {
        r := Ok(progressData[profileId]);
      } else {
        r := Err(ProgressNotFound(profileId));
      }
    }

    /** `LevelRepository.saveUnlock`. */
    method SaveUnlock(result: UnlockResult, attempt: UnlockAttempt)
      modifies this`savedUnlocks
      ensures savedUnlocks == old(savedUnlocks) + [SavedUnlock(result, attempt)]
    {
      savedUnlocks := savedUnlocks + [SavedUnlock(result, attempt)];
    }

    /** `ViewRepository.recordView`. */
    method RecordView(view: ViewRecord)
      modifies this`views
      ensures views == old(views) + [view]
    {
      views := views + [view];
    }

    /** `unlock`: returns the decision and saves it exactly once when it succeeds. */
    method Unlock(attempt: UnlockAttempt) returns (r: UnlockResult)
      modifies this`savedUnlocks
      ensures r == Evaluated(attempt)
      ensures savedUnlocks == if r.success then old(savedUnlocks) + [SavedUnlock(r, attempt)] else old(savedUnlocks)
    {
      r := EvaluateUnlock(attempt);
      if r.success {
        SaveUnlock(r, attempt);
      }
    }

    /** What `viewSnapshot` resolves to, from the stored data: the first failing
        read in argument order, else the composed snapshot. */
    function ViewOutcome(profileId: string, viewerId: string, targetId: string): Result<ProfileSnapshot, ServiceError>
      reads this
    {
      if viewerId !in levels then Err(LevelNotFound(viewerId))
      else if targetId !in levels then Err(LevelNotFound(targetId))
      else if targetId !in progressData then Err(ProgressNotFound(targetId))
      else ComposeSnapshot(profileId, levels[viewerId], levels[targetId],
                           if targetId in levelRecords then levelRecords[targetId] else [],
                           progressData[targetId])
    }

    /** A view fails on the first unknown profile or missing progress, in
        argument order; otherwise it fails only when the target's progress does,
        and then exposes the lower of the two levels. */
    lemma ViewOutcomeCases(profileId: string, viewerId: string, targetId: string)
      ensures viewerId !in levels ==> ViewOutcome(profileId, viewerId, targetId) == Err(LevelNotFound(viewerId))
      ensures viewerId in levels && targetId !in levels ==>
                ViewOutcome(profileId, viewerId, targetId) == Err(LevelNotFound(targetId))
      ensures viewerId in levels && targetId in levels && targetId !in progressData ==>
                ViewOutcome(profileId, viewerId, targetId) == Err(ProgressNotFound(targetId))
      ensures ViewOutcome(profileId, viewerId, targetId).Ok? ==>
                 viewerId in levels && targetId in levels && targetId in progressData &&
                 ViewOutcome(profileId, viewerId, targetId).value.reciprocalLevel == MinLevel(levels[viewerId], levels[targetId]) &&
                 ViewOutcome(profileId, viewerId, targetId).value.progress.current == levels[targetId]
    {
    }

    /** `viewSnapshot`: the four reads (sequential here), the composition, then one
        view record carrying the EXPOSED level. Any failure leaves the view log as it
        was. */
    method ViewSnapshot(profileId: string, viewerId: string, targetId: string)
      returns (r: Result<ProfileSnapshot, ServiceError>)
      modifies this`views
      ensures r == old(ViewOutcome(profileId, viewerId, targetId))
      ensures views == if r.Ok? then old(views) + [ViewRecord(viewerId, targetId, r.value.reciprocalLevel)] else old(views)
    {
      var viewerLevel := GetProfileLevel(viewerId);
      if viewerLevel.Err? {
        return Err(viewerLevel.error);
      }
      var targetLevel := GetProfileLevel(targetId);
      if targetLevel.Err? {
        return Err(targetLevel.error);
      }
      var profileLevels := GetProfileLevels(targetId);
      var rawProgress := GetProgress(targetId);
      if rawProgress.Err? {
        return Err(rawProgress.error);
      }

      var fields := RecordsToFields(profileLevels);
      var progress := CalculateProgress(rawProgress.value.xp, rawProgress.value.thresholds, targetLevel.value);
      if progress.Err? {
        return Err(ProgressFailed(progress.error));
      }
      var snapshot := BuildProfileSnapshot(profileId, viewerLevel.value, targetLevel.value, fields, progress.value);
      assert ComposeSnapshot(profileId, viewerLevel.value, targetLevel.value, profileLevels, rawProgress.value) == Ok(snapshot);

      RecordView(ViewRecord(viewerId, targetId, snapshot.reciprocalLevel));
      return Ok(snapshot);
    }
  }
}
