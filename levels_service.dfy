/** The level engine's pure core (src/lib/levels/service.ts): the unlock decision,
    the progress interpolation and the reciprocal disclosure snapshot. */
module LevelEngine {
  import opened Wrappers
  import opened LevelOrder
  import Seqs

  // ---------------------------------------------------------------------------
  // Unlock decision
  // ---------------------------------------------------------------------------

  /** The reasons an unlock is refused. The source pushes their string codes
      (`Code`); the codes are pairwise distinct (`CodeInjective`), so removing
      duplicate codes and removing duplicate reasons are the same operation. */
  datatype Reason = TargetNotAboveCurrent | SequentialOnly | Pending(action: string) | BoostRequired

  function Code(r: Reason): string {
    match r
    case TargetNotAboveCurrent => "target-not-above-current"
    case SequentialOnly => "sequential-only"  // DEFAULT_BLOCK_REASON
    case Pending(action) => "pending:" + action
    case BoostRequired => "boost-required"
  }

  datatype UnlockAttempt = UnlockAttempt(
    profileId: string,
    currentLevel: Level,
    targetLevel: Level,
    completedActions: seq<string>,
    requiredActions: seq<string>,
    isBoosted: bool)

  datatype UnlockResult = UnlockResult(success: bool, unlockedLevel: Option<Level>, blockedBy: seq<Reason>)

  /** `requiredActions.filter(a => !completedActions.includes(a))`, written from the
      back so that a left-to-right loop can be checked against it. */
  function PendingRequirements(required: seq<string>, completed: seq<string>): (p: seq<string>)
    ensures forall a :: a in p <==> a in required && a !in completed
    decreases |required|
  {
    if |required| == 0 then []
    else
      var init := PendingRequirements(required[..|required| - 1], completed);
      var last := required[|required| - 1];
      assert required == required[..|required| - 1] + [last];
      if last !in completed then init + [last] else init
  }

  /** `pending.map(a => "pending:" + a)`. */
  function PendingReasons(pending: seq<string>): (rs: seq<Reason>)
    ensures |rs| == |pending|
    ensures forall i :: 0 <= i < |pending| ==> rs[i] == Pending(pending[i])
    decreases |pending|
  {
    if |pending| == 0 then []
    else PendingReasons(pending[..|pending| - 1]) + [Pending(pending[|pending| - 1])]
  }

  /** The reasons of the two ordering rules, in the order the source pushes them. */
  function OrderReasons(current: Level, target: Level): seq<Reason> {
    (if Compare(target, current) <= 0 then [TargetNotAboveCurrent] else [])
    + (if Next(current) != Some(target) then [SequentialOnly] else [])
  }

  /** The boost rule's reason. */
  function BoostReasons(isBoosted: bool, pending: seq<string>): seq<Reason> {
    if !isBoosted && |pending| > 0 then [BoostRequired] else []
  }

  /** All reasons in the order the source pushes them, before deduplication. */
  function RawReasons(a: UnlockAttempt): seq<Reason> {
    var pending := PendingRequirements(a.requiredActions, a.completedActions);
    OrderReasons(a.currentLevel, a.targetLevel) + PendingReasons(pending) + BoostReasons(a.isBoosted, pending)
  }

  /** The decision `evaluateUnlock` computes. */
  function Evaluated(a: UnlockAttempt): UnlockResult {
    var raw := RawReasons(a);
    if |raw| > 0 then UnlockResult(false, None, Seqs.Dedup(raw))
    else UnlockResult(true, Some(a.targetLevel), [])
  }

  /** `Array.from(new Set(s))` as the source runs it: a set of seen reasons and an
      output list filled in one pass. */
  method DistinctInOrder(s: seq<Reason>) returns (d: seq<Reason>)
    ensures d == Seqs.Dedup(s)
  {
    d := [];
    var seen: set<Reason> := {};
    var i := 0;
    while i < |s|
      invariant 0 <= i <= |s|
      invariant d == Seqs.Dedup(s[..i])
      invariant forall x :: x in seen <==> x in d
    {
      assert s[..i + 1][..i] == s[..i];
      if s[i] !in seen {
        d := d + [s[i]];
        seen := seen + {s[i]};
      }
      i := i + 1;
    }
    assert s[..i] == s;
  }

  /** The filter loop behind `pendingRequirements`. */
  method FilterPending(required: seq<string>, completed: seq<string>) returns (pending: seq<string>)
    ensures pending == PendingRequirements(required, completed)
  {
    pending := [];
    var i := 0;
    while i < |required|
      invariant 0 <= i <= |required|
      invariant pending == PendingRequirements(required[..i], completed)
    {
      assert required[..i + 1][..i] == required[..i];
      if required[i] !in completed {
        pending := pending + [required[i]];
      }
      i := i + 1;
    }
    assert required[..i] == required;
  }

  /** `blocked.push(...pending.map(a => "pending:" + a))`. */
  method PushPending(blocked: seq<Reason>, pending: seq<string>) returns (out: seq<Reason>)
    ensures out == blocked + PendingReasons(pending)
  {
    out := blocked;
    var j := 0;
    while j < |pending|
      invariant 0 <= j <= |pending|
      invariant out == blocked + PendingReasons(pending[..j])
    {
      assert pending[..j + 1][..j] == pending[..j];
      out := out + [Pending(pending[j])];
      j := j + 1;
    }
    assert pending[..j] == pending;
  }

  /** `evaluateUnlock`: pushes every applicable reason (none is short-circuited),
      then deduplicates. */
  method EvaluateUnlock(attempt: UnlockAttempt) returns (r: UnlockResult)
    ensures r == Evaluated(attempt)
  {
    var blocked: seq<Reason> := [];
    if Compare(attempt.targetLevel, attempt.currentLevel) <= 0 {
      blocked := blocked + [TargetNotAboveCurrent];
    }
    if Next(attempt.currentLevel) != Some(attempt.targetLevel) {
      blocked := blocked + [SequentialOnly];
    }
    assert blocked == OrderReasons(attempt.currentLevel, attempt.targetLevel);

    var pending := FilterPending(attempt.requiredActions, attempt.completedActions);
    if |pending| > 0 {
      blocked := PushPending(blocked, pending);
    } else {
      assert PendingReasons(pending) == [];
    }
    if !attempt.isBoosted && |pending| > 0 {
      blocked := blocked + [BoostRequired];
    }
    assert blocked == RawReasons(attempt);

    if |blocked| > 0 {
      var distinct := DistinctInOrder(blocked);
      return UnlockResult(false, None, distinct);
    }
    return UnlockResult(true, Some(attempt.targetLevel), []);
  }

  /** Rendering reasons as codes loses nothing: distinct reasons have distinct codes
      (a `pending:` code starts with 'p', the three fixed codes do not, and the
      action is what follows the eight-character prefix). */
  lemma CodeInjective(r1: Reason, r2: Reason)
    ensures Code(r1) == Code(r2) ==> r1 == r2
  {
    if Code(r1) == Code(r2) {
      assert Code(r1)[0] == Code(r2)[0];
      if r1.Pending? && r2.Pending? {
        assert Code(r1)[8..] == r1.action;
        assert Code(r2)[8..] == r2.action;
      }
    }
  }

  /** The pending reasons are exactly one `Pending(x)` per pending action. */
  lemma PendingReasonMembers(pending: seq<string>)
    ensures forall r :: r in PendingReasons(pending) ==> r.Pending?
    ensures forall x :: Pending(x) in PendingReasons(pending) <==> x in pending
  {
    var rs := PendingReasons(pending);
    forall x ensures Pending(x) in rs <==> x in pending {
      if x in pending {
        var i :| 0 <= i < |pending| && pending[i] == x;
        assert rs[i] == Pending(x);
      }
    }
  }

  /** The ordering rules give only their own two reasons, each when its rule fails. */
  lemma OrderReasonMembers(current: Level, target: Level)
    ensures forall r :: r in OrderReasons(current, target) ==> r == TargetNotAboveCurrent || r == SequentialOnly
    ensures TargetNotAboveCurrent in OrderReasons(current, target) <==> Index(target) <= Index(current)
    ensures SequentialOnly in OrderReasons(current, target) <==> Next(current) != Some(target)
  {
  }

  /** Membership in a concatenation of three lists. */
  lemma ConcatMembers(o: seq<Reason>, p: seq<Reason>, b: seq<Reason>)
    ensures forall r :: r in o + p + b <==> r in o || r in p || r in b
  {
  }

  /** Membership in the raw reason list, reason by reason. */
  lemma RawReasonMembers(a: UnlockAttempt)
    ensures TargetNotAboveCurrent in RawReasons(a) <==> Index(a.targetLevel) <= Index(a.currentLevel)
    ensures SequentialOnly in RawReasons(a) <==> Next(a.currentLevel) != Some(a.targetLevel)
    ensures BoostRequired in RawReasons(a) <==>
              !a.isBoosted && |PendingRequirements(a.requiredActions, a.completedActions)| > 0
    ensures forall x :: Pending(x) in RawReasons(a) <==> x in a.requiredActions && x !in a.completedActions
  {
    var pending := PendingRequirements(a.requiredActions, a.completedActions);
    var o := OrderReasons(a.currentLevel, a.targetLevel);
    var p := PendingReasons(pending);
    var b := BoostReasons(a.isBoosted, pending);
    assert RawReasons(a) == o + p + b;
    OrderReasonMembers(a.currentLevel, a.targetLevel);
    PendingReasonMembers(pending);
    ConcatMembers(o, p, b);
  }

  /** An attempt succeeds exactly when it targets the next level and every required
      action is completed; the boost flag plays no part in success. */
  lemma UnlockSucceedsIff(a: UnlockAttempt)
    ensures Evaluated(a).success <==>
              Next(a.currentLevel) == Some(a.targetLevel) &&
              forall x :: x in a.requiredActions ==> x in a.completedActions
    ensures Evaluated(a).success == Evaluated(a.(isBoosted := !a.isBoosted)).success
  {
    RawReasonMembers(a);
    RawReasonMembers(a.(isBoosted := !a.isBoosted));
    var pending := PendingRequirements(a.requiredActions, a.completedActions);
    if Next(a.currentLevel) == Some(a.targetLevel) && forall x :: x in a.requiredActions ==> x in a.completedActions {
      assert pending == [];
      assert PendingReasons(pending) == [];
      assert RawReasons(a) == [];
      assert RawReasons(a.(isBoosted := !a.isBoosted)) == [];
    } else if Next(a.currentLevel) != Some(a.targetLevel) {
      assert SequentialOnly in RawReasons(a);
      assert SequentialOnly in RawReasons(a.(isBoosted := !a.isBoosted));
    } else {
      var x :| x in a.requiredActions && x !in a.completedActions;
      assert Pending(x) in RawReasons(a);
      assert Pending(x) in RawReasons(a.(isBoosted := !a.isBoosted));
    }
  }

  /** A successful result unlocks the target and lists no reason; a failed one
      unlocks nothing and lists at least one reason. */
  lemma ResultShape(a: UnlockAttempt)
    ensures Evaluated(a).success ==> Evaluated(a).unlockedLevel == Some(a.targetLevel) && Evaluated(a).blockedBy == []
    ensures !Evaluated(a).success ==> Evaluated(a).unlockedLevel.None? && |Evaluated(a).blockedBy| > 0
  {
    var raw := RawReasons(a);
    if |raw| > 0 {
      assert raw[0] in Seqs.Dedup(raw);
    }
  }

  /** What `blockedBy` contains: each rule's reason exactly when the rule fires, a
      pending reason for each missing action and nothing else, each reason once and
      in the order its rule first pushed it. */
  lemma BlockedByReasons(a: UnlockAttempt)
    ensures var b := Evaluated(a).blockedBy;
      && (TargetNotAboveCurrent in b <==> Index(a.targetLevel) <= Index(a.currentLevel))
      && (TargetNotAboveCurrent in b ==> SequentialOnly in b)
      && (SequentialOnly in b <==> Next(a.currentLevel) != Some(a.targetLevel))
      && (forall x :: Pending(x) in b <==> x in a.requiredActions && x !in a.completedActions)
      && (BoostRequired in b <==>
            !a.isBoosted && exists x :: x in a.requiredActions && x !in a.completedActions)
      && Seqs.NoDuplicates(b)
      && (forall i, j :: 0 <= i < j < |b| ==> Seqs.IndexOf(RawReasons(a), b[i]) < Seqs.IndexOf(RawReasons(a), b[j]))
  {
    RawReasonMembers(a);
    var raw := RawReasons(a);
    var pending := PendingRequirements(a.requiredActions, a.completedActions);
    if |pending| > 0 {
      assert pending[0] in pending;
    }
    if Index(a.targetLevel) <= Index(a.currentLevel) {
      assert Next(a.currentLevel) != Some(a.targetLevel);
    }
  }

  /** Test cases of src/lib/levels/service.test.ts, stated about the model. */
  lemma UnlockTestCases()
    ensures Evaluated(UnlockAttempt("viewer-1", L1, L2, ["answer-today-question"], ["answer-today-question"], false))
            == UnlockResult(true, Some(L2), [])
    ensures SequentialOnly in
            Evaluated(UnlockAttempt("viewer-1", L1, L3, ["answer-today-question"], ["answer-today-question"], false)).blockedBy
    ensures Pending("answer-today-question") in
            Evaluated(UnlockAttempt("viewer-1", L1, L2, [], ["answer-today-question"], false)).blockedBy
  {
    BlockedByReasons(UnlockAttempt("viewer-1", L1, L3, ["answer-today-question"], ["answer-today-question"], false));
    BlockedByReasons(UnlockAttempt("viewer-1", L1, L2, [], ["answer-today-question"], false));
    var ok := UnlockAttempt("viewer-1", L1, L2, ["answer-today-question"], ["answer-today-question"], false);
    assert PendingRequirements(ok.requiredActions, ok.completedActions) == [];
  }

  // ---------------------------------------------------------------------------
  // Progress toward the next level
  // ---------------------------------------------------------------------------

  datatype Progress = Progress(current: Level, next: Option<Level>, percent: real, requiredActions: seq<string>)

  /** `calculateProgress` throws when the next level has no threshold. */
  datatype ProgressError = MissingThreshold(level: Level)

  /** `clamp(value, min, max) = Math.min(Math.max(value, min), max)`. */
  function Clamp(value: real, min: real, max: real): (r: real)
    ensures min <= max ==> min <= r <= max
    ensures min <= value <= max ==> r == value
    ensures min <= max && value <= min ==> r == min
    ensures min <= max && max <= value ==> r == max
  {
    var low := if value > min then value else min;
    if low < max then low else max
  }

  /** `Math.max(nextThreshold - currentThreshold, 1)`: never below 1, so the
      division that follows is by a positive number. */
  function ProgressRange(currentThreshold: real, nextThreshold: real): (r: real)
    ensures r >= 1.0 && r >= nextThreshold - currentThreshold
    ensures r == nextThreshold - currentThreshold || r == 1.0
  {
    if nextThreshold - currentThreshold > 1.0 then nextThreshold - currentThreshold else 1.0
  }

  /** The upper bound of the clamp while a next level exists: 100 is reserved for L4. */
  const MAX_PERCENT_BEFORE_NEXT: real := 99.99

  /** `calculateProgress`: percent of the way from the current level's threshold
      (0 when it has none) to the next level's, clamped to [0, 99.99]; at L4,
      100 percent and no next level. */
  function CalculateProgress(xp: real, thresholds: map<Level, real>, current: Level): (r: Result<Progress, ProgressError>)
    ensures Next(current).None? ==> r == Ok(Progress(current, None, 100.0, []))
    ensures Next(current).Some? ==> (r.Err? <==> Next(current).value !in thresholds)
    ensures r.Err? ==> Next(current).Some? && r.error == MissingThreshold(Next(current).value)
    ensures r.Ok? ==> r.value.current == current && r.value.next == Next(current) && r.value.requiredActions == []
    ensures r.Ok? && Next(current).Some? ==> 0.0 <= r.value.percent <= MAX_PERCENT_BEFORE_NEXT
  {
    match Next(current)
    case None => Ok(Progress(current, None, 100.0, []))
    case Some(next) =>
      var currentThreshold := if current in thresholds then thresholds[current] else 0.0;
      if next !in thresholds then Err(MissingThreshold(next))
      else
        var range := ProgressRange(currentThreshold, thresholds[next]);
        var raw := ((xp - currentThreshold) / range) * 100.0;
        Ok(Progress(current, Some(next), Clamp(raw, 0.0, MAX_PERCENT_BEFORE_NEXT), []))
  }

  /** More experience never shows less progress. */
  lemma ProgressMonotone(xp1: real, xp2: real, thresholds: map<Level, real>, current: Level)
    requires xp1 <= xp2
    ensures CalculateProgress(xp1, thresholds, current).Ok? <==> CalculateProgress(xp2, thresholds, current).Ok?
    ensures CalculateProgress(xp1, thresholds, current).Ok? ==>
              CalculateProgress(xp1, thresholds, current).value.percent <= CalculateProgress(xp2, thresholds, current).value.percent
  {
    if Next(current).Some? && Next(current).value in thresholds {
      var next := Next(current).value;
      var lo := if current in thresholds then thresholds[current] else 0.0;
      var range := ProgressRange(lo, thresholds[next]);
      var d1, d2 := xp1 - lo, xp2 - lo;
      assert d1 <= d2;
      assert d1 / range <= d2 / range by {
        assert (d2 - d1) / range >= 0.0;
        assert d2 / range - d1 / range == (d2 - d1) / range;
      }
    }
  }

  /** An absent threshold for the current level counts as 0. */
  lemma MissingCurrentThresholdIsZero(xp: real, thresholds: map<Level, real>, current: Level)
    requires current !in thresholds
    ensures CalculateProgress(xp, thresholds, current) == CalculateProgress(xp, thresholds[current := 0.0], current)
  {
    if Next(current).Some? {
      assert Next(current).value != current;
    }
  }

  /** Sign and size of a quotient by a positive divisor. */
  lemma QuotientBounds(a: real, b: real)
    requires b > 0.0
    ensures a >= b ==> a / b >= 1.0
    ensures a <= 0.0 ==> a / b <= 0.0
  {
    var q := a / b;
    assert q * b == a;
  }

  /** A profile sitting at (or past) the next threshold still reads 99.99 percent;
      one at (or below) its own threshold reads 0. */
  lemma ProgressSaturates(xp: real, thresholds: map<Level, real>, current: Level)
    requires Next(current).Some? && current in thresholds && Next(current).value in thresholds
    requires thresholds[Next(current).value] - thresholds[current] >= 1.0
    ensures xp >= thresholds[Next(current).value] ==>
              CalculateProgress(xp, thresholds, current) == Ok(Progress(current, Next(current), MAX_PERCENT_BEFORE_NEXT, []))
    ensures xp <= thresholds[current] ==>
              CalculateProgress(xp, thresholds, current) == Ok(Progress(current, Next(current), 0.0, []))
  {
    var lo, hi := thresholds[current], thresholds[Next(current).value];
    QuotientBounds(xp - lo, hi - lo);
  }

  /** The test case of src/lib/levels/service.test.ts: 150 xp at L2 with thresholds
      0/100/250/500 is a third of the way to L3; at L4 it is 100 percent. */
  lemma ProgressTestCases()
    ensures CalculateProgress(150.0, map[L1 := 0.0, L2 := 100.0, L3 := 250.0, L4 := 500.0], L2)
            == Ok(Progress(L2, Some(L3), 100.0 / 3.0, []))
    ensures CalculateProgress(999.0, map[L1 := 0.0, L2 := 100.0, L3 := 250.0, L4 := 500.0], L4)
            == Ok(Progress(L4, None, 100.0, []))
  {
  }

  // ---------------------------------------------------------------------------
  // Reciprocal disclosure
  // ---------------------------------------------------------------------------

  /** An open key-value field bag (`Record<string, unknown>`); values are kept as text. */
  type FieldBag = map<string, string>

  /** What a profile has stored at each level (`ProfileFieldsPayload`). */
  datatype ProfileFieldsPayload = ProfileFieldsPayload(
    basic: FieldBag, vibe: Option<FieldBag>, trust: Option<FieldBag>, intent: Option<FieldBag>)

  /** What a viewer is shown of each level (`LevelFields`), None for null. */
  datatype LevelFields = LevelFields(
    basic: Option<FieldBag>, vibe: Option<FieldBag>, trust: Option<FieldBag>, intent: Option<FieldBag>)

  datatype ProfileSnapshot = ProfileSnapshot(
    profileId: string, reciprocalLevel: Level, fields: LevelFields, lockedLevels: seq<Level>, progress: Progress)

  /** `resolveReciprocalLevel`: the lower of the two parties' levels. */
  function ResolveReciprocalLevel(viewerLevel: Level, targetLevel: Level): (r: Level)
    ensures r == viewerLevel || r == targetLevel
    ensures Index(r) <= Index(viewerLevel) && Index(r) <= Index(targetLevel)
  {
    MinLevel(viewerLevel, targetLevel)
  }

  /** `computeLockedLevels`: `LEVEL_ORDER.slice(indexOf(reciprocal) + 1)`. */
  function ComputeLockedLevels(reciprocalLevel: Level): (locked: seq<Level>)
    ensures forall l :: l in locked <==> Index(l) > Index(reciprocalLevel)
    ensures forall i, j :: 0 <= i < j < |locked| ==> Index(locked[i]) < Index(locked[j])
    ensures |locked| == |LEVEL_ORDER| - 1 - Index(reciprocalLevel)
  {
    IndexIsPosition(reciprocalLevel);
    LevelsAbove(reciprocalLevel);
    LEVEL_ORDER[Seqs.IndexOf(LEVEL_ORDER, reciprocalLevel) + 1..]
  }

  /** The locked levels are the suffix of the order after the reciprocal level. */
  lemma LockedLevelsSuffix(reciprocalLevel: Level)
    ensures ComputeLockedLevels(reciprocalLevel) == LEVEL_ORDER[Index(reciprocalLevel) + 1..]
  {
    IndexIsPosition(reciprocalLevel);
  }

  /** The levels after `level` in the order are exactly those above it, ascending. */
  lemma LevelsAbove(level: Level)
    ensures var above := LEVEL_ORDER[Index(level) + 1..];
            && (forall l :: l in above <==> Index(l) > Index(level))
            && (forall i, j :: 0 <= i < j < |above| ==> Index(above[i]) < Index(above[j]))
            && |above| == |LEVEL_ORDER| - 1 - Index(level)
  {
    match level
    case L1 => assert LEVEL_ORDER[1..] == [L2, L3, L4];
    case L2 => assert LEVEL_ORDER[2..] == [L3, L4];
    case L3 => assert LEVEL_ORDER[3..] == [L4];
    case L4 => assert LEVEL_ORDER[4..] == [];
  }

  /** A field gated at `gate`: shown only when the reciprocal level reaches it. */
  function Gated(reciprocalLevel: Level, gate: Level, field: Option<FieldBag>): (r: Option<FieldBag>)
    ensures r.Some? <==> Index(reciprocalLevel) >= Index(gate) && field.Some?
    ensures r.Some? ==> r == field
  {
    if Compare(reciprocalLevel, gate) >= 0 then field else None
  }

  /** `buildProfileSnapshot`: masks every field above the reciprocal level and passes
      the basic fields and the progress through. */
  function BuildProfileSnapshot(
    profileId: string, viewerLevel: Level, targetLevel: Level,
    fields: ProfileFieldsPayload, progress: Progress): (s: ProfileSnapshot)
    ensures s.profileId == profileId && s.progress == progress
    ensures s.reciprocalLevel == MinLevel(viewerLevel, targetLevel)
    ensures s.fields.basic == Some(fields.basic)
    ensures s.fields.vibe.Some? <==> Index(s.reciprocalLevel) >= Index(L2) && fields.vibe.Some?
    ensures s.fields.trust.Some? <==> Index(s.reciprocalLevel) >= Index(L3) && fields.trust.Some?
    ensures s.fields.intent.Some? <==> Index(s.reciprocalLevel) >= Index(L4) && fields.intent.Some?
    ensures s.fields.vibe.Some? ==> s.fields.vibe == fields.vibe
    ensures s.fields.trust.Some? ==> s.fields.trust == fields.trust
    ensures s.fields.intent.Some? ==> s.fields.intent == fields.intent
    ensures s.lockedLevels == ComputeLockedLevels(s.reciprocalLevel)
  {
    var reciprocalLevel := ResolveReciprocalLevel(viewerLevel, targetLevel);
    ProfileSnapshot(
      profileId,
      reciprocalLevel,
      LevelFields(
        Some(fields.basic),
        Gated(reciprocalLevel, L2, fields.vibe),
        Gated(reciprocalLevel, L3, fields.trust),
        Gated(reciprocalLevel, L4, fields.intent)),
      ComputeLockedLevels(reciprocalLevel),
      progress)
  }

  /** Disclosure is symmetric: swapping viewer and target changes nothing. */
  lemma SnapshotSymmetric(
    profileId: string, viewerLevel: Level, targetLevel: Level,
    fields: ProfileFieldsPayload, progress: Progress)
    ensures BuildProfileSnapshot(profileId, viewerLevel, targetLevel, fields, progress)
         == BuildProfileSnapshot(profileId, targetLevel, viewerLevel, fields, progress)
  {
    MinMaxCommute(viewerLevel, targetLevel);
  }

  /** A gated field is shown only when BOTH parties have reached its level. */
  lemma DisclosureBoundedByBothParties(
    profileId: string, viewerLevel: Level, targetLevel: Level,
    fields: ProfileFieldsPayload, progress: Progress, gate: Level)
    requires gate != L1
    ensures var f := BuildProfileSnapshot(profileId, viewerLevel, targetLevel, fields, progress).fields;
            var shown := match gate
              case L2 => f.vibe.Some?
              case L3 => f.trust.Some?
              case L4 => f.intent.Some?
              case L1 => true;
            shown ==> Index(viewerLevel) >= Index(gate) && Index(targetLevel) >= Index(gate)
  {
  }

  /** A snapshot spelled out: the reciprocal level, each field gated at its
      level, and the levels above the reciprocal one. */
  lemma SnapshotShape(profileId: string, viewerLevel: Level, targetLevel: Level, fields: ProfileFieldsPayload, progress: Progress)
    ensures var r := ResolveReciprocalLevel(viewerLevel, targetLevel);
            BuildProfileSnapshot(profileId, viewerLevel, targetLevel, fields, progress) ==
              ProfileSnapshot(profileId, r,
                LevelFields(Some(fields.basic), Gated(r, L2, fields.vibe), Gated(r, L3, fields.trust), Gated(r, L4, fields.intent)),
                ComputeLockedLevels(r), progress)
  {
  }

  /** The first snapshot test of src/lib/levels/service.test.ts: an L1 viewer of an
      L3 profile (`target-1` there, any profile here) sees only the basic fields. */
  lemma SnapshotMasksAboveReciprocal(profileId: string, fields: ProfileFieldsPayload, progress: Progress)
    ensures var s := BuildProfileSnapshot(profileId, L1, L3, fields, progress);
            s.reciprocalLevel == L1 && s.fields == LevelFields(Some(fields.basic), None, None, None)
            && s.lockedLevels == [L2, L3, L4]
  {
    SnapshotShape(profileId, L1, L3, fields, progress);
    GatesAt(L1, L3, fields);
  }

  /** The second snapshot test: an L3 viewer of an L4 profile sees up to trust. */
  lemma SnapshotRevealsUpToReciprocal(profileId: string, fields: ProfileFieldsPayload, progress: Progress)
    ensures var s := BuildProfileSnapshot(profileId, L3, L4, fields, progress);
            s.reciprocalLevel == L3 && s.fields == LevelFields(Some(fields.basic), fields.vibe, fields.trust, None)
            && s.lockedLevels == [L4]
  {
    SnapshotShape(profileId, L3, L4, fields, progress);
    GatesAt(L3, L4, fields);
  }

  /** The reciprocal level of a viewer below the target, and what it gates and
      locks, computed for the two level pairs of the snapshot tests and for no
      other: it is a helper of the two lemmas above, whose own contracts hold for
      every profile. It is kept apart so that each of them unfolds the level
      order once, in this small context. */
  lemma GatesAt(viewerLevel: Level, targetLevel: Level, fields: ProfileFieldsPayload)
    requires (viewerLevel, targetLevel) in {(L1, L3), (L3, L4)}
    ensures ResolveReciprocalLevel(viewerLevel, targetLevel) == viewerLevel
    ensures viewerLevel == L1 ==>
              Gated(L1, L2, fields.vibe) == None && Gated(L1, L3, fields.trust) == None &&
              Gated(L1, L4, fields.intent) == None && ComputeLockedLevels(L1) == [L2, L3, L4]
    ensures viewerLevel == L3 ==>
              Gated(L3, L2, fields.vibe) == fields.vibe && Gated(L3, L3, fields.trust) == fields.trust &&
              Gated(L3, L4, fields.intent) == None && ComputeLockedLevels(L3) == [L4]
  {
    LockedLevelsSuffix(viewerLevel);
    if viewerLevel == L1 {
      assert LEVEL_ORDER[1..] == [L2, L3, L4];
    } else {
      assert LEVEL_ORDER[3..] == [L4];
    }
  }
}
