/** What one sync checkpoint holds and how each transaction changes it. */
module SyncState {
  import opened Wrappers
  import opened Text

  const VERSION: nat := 1

  datatype Observed = Observed(resourceId: string, objectId: string, davUid: string, revision: U64, etag: string,
                               modifiedAt: U64, archived: bool)

  datatype Tombstone = Tombstone(resourceId: string, objectId: string, davUid: string, revision: U64, etag: string,
                                 modifiedAt: U64)

  datatype OperationKind = Create | Update | Archive | Delete

  datatype Operation = Operation(operationId: string, kind: OperationKind, resourceId: string,
                                 expectedEtag: Option<string>, expectedRevision: Option<U64>,
                                 envelope: Option<string>, attempts: nat)

  datatype Scope = Scope(domainId: string, bindingFingerprint: string, endpointFingerprint: string,
                         accountFingerprint: string, spaceId: string)

  datatype State = State(version: nat, generation: U64, scope: Option<Scope>, observed: map<string, Observed>,
                         pending: map<string, Operation>, tombstones: map<string, Tombstone>)

  datatype StoreError = Io | Corrupt | Invalid(reason: string) | Resurrection(id: string)

  const Initial: State := State(VERSION, 0, None, map[], map[], map[])

  // ----- validation -------------------------------------------------------

  predicate ScopeValueOk(value: string) {
    Trim(value) != "" && forall c :: c in value ==> !IsControl(c)
  }

  predicate ScopeOk(s: Scope) {
    ScopeValueOk(s.domainId) && ScopeValueOk(s.bindingFingerprint) && ScopeValueOk(s.endpointFingerprint) &&
    ScopeValueOk(s.accountFingerprint) && ScopeValueOk(s.spaceId)
  }

  predicate ValidState(s: State) {
    s.version == VERSION &&
    (s.scope.Some? ==> ScopeOk(s.scope.value)) &&
    forall id :: id in s.pending ==> s.pending[id].operationId == id
  }

  function Validate(s: State): Result<(), StoreError> {
    if s.version != VERSION then Err(Corrupt)
    else if s.scope.Some? && !ScopeOk(s.scope.value) then Err(Invalid("invalid sync scope"))
    else if exists id :: id in s.pending && s.pending[id].operationId != id then Err(Corrupt)
    else Ok(())
  }

  predicate PlainText(value: string) {
    !IsBlankText(value) && forall c :: c in value ==> !IsControl(c)
  }

  /** Exactly which scopes are well formed: five texts, none blank, without control characters. */
  lemma ScopeAccepted(s: Scope)
    ensures ScopeOk(s) <==>
            PlainText(s.domainId) && PlainText(s.bindingFingerprint) && PlainText(s.endpointFingerprint) &&
            PlainText(s.accountFingerprint) && PlainText(s.spaceId)
  {
    ScopeValueIs(s.domainId);
    ScopeValueIs(s.bindingFingerprint);
    ScopeValueIs(s.endpointFingerprint);
    ScopeValueIs(s.accountFingerprint);
    ScopeValueIs(s.spaceId);
    hide PlainText, ScopeValueOk;
  }

  lemma ScopeValueIs(value: string)
    ensures ScopeValueOk(value) <==> PlainText(value)
  {
    TrimCuts(value);
  }

  /** A checkpoint with a scope opens only for that scope; one without adopts a scope only while it is blank. */
  function BindScope(s: State, expected: Option<Scope>): Result<State, StoreError> {
    match (s.scope, expected)
    case (Some(_), None) => Err(Invalid("scoped checkpoint requires an expected binding scope"))
    case (Some(actual), Some(wanted)) =>
      if actual != wanted then Err(Invalid("sync checkpoint binding scope mismatch")) else Ok(s)
    case (None, None) => Ok(s)
    case (None, Some(wanted)) =>
      if s.generation != 0 || s.observed != map[] || s.pending != map[] || s.tombstones != map[] then
        Err(Invalid("unscoped checkpoint with existing state cannot adopt a binding"))
      else Ok(s.(scope := Some(wanted)))
  }

  /** Exactly when a checkpoint opens for a scope, or for none: it is the checkpoint's own, or the
      checkpoint has none and is blank. It then has that scope, and is otherwise as it was. */
  lemma BindsExactly(s: State, expected: Option<Scope>)
    ensures BindScope(s, expected).Ok? <==>
            s.scope == expected ||
            (s.scope.None? && s.generation == 0 && |s.observed| == 0 && |s.pending| == 0 && |s.tombstones| == 0)
    ensures BindScope(s, expected).Ok? ==> BindScope(s, expected).value == s.(scope := expected)
    ensures BindScope(s, expected).Err? ==> BindScope(s, expected).error.Invalid?
  {
  }

  // ----- transactions -----------------------------------------------------

  datatype Change =
    | Observing(item: Observed)
    | Replacing(items: seq<Observed>, resurrect: bool)
    | Enqueueing(operation: Operation)
    | Applying(operationId: string, outcome: Option<Observed>)
    | Burying(tombstone: Tombstone)

  /** What a call does before any file is touched: refuse, leave things as they are, or publish a candidate. */
  datatype Decision = Refuse(error: StoreError) | Keep | Publish(candidate: State)

  function BuryObserved(id: string, o: Observed): Tombstone {
    Tombstone(id, o.objectId, o.davUid, o.revision, o.etag, o.modifiedAt)
  }

  /** The items by resource id; a later item with the same id wins. */
  function ById(items: seq<Observed>): map<string, Observed> {
    if items == [] then map[]
    else ById(items[..|items| - 1])[items[|items| - 1].resourceId := items[|items| - 1]]
  }

  function Omitted(s: State, replacement: map<string, Observed>): map<string, Tombstone> {
    map id | id in s.observed && id !in replacement :: BuryObserved(id, s.observed[id])
  }

  function Replaced(s: State, replacement: map<string, Observed>, resurrect: bool): State {
    var kept := if resurrect then s.tombstones - replacement.Keys else s.tombstones;
    s.(observed := replacement, tombstones := kept + Omitted(s, replacement))
  }

  function Applied(s: State, id: string, outcome: Option<Observed>): State
    requires id in s.pending
  {
    var operation := s.pending[id];
    var seen := if outcome.Some? then s.observed[outcome.value.resourceId := outcome.value] else s.observed;
    var done := s.(pending := s.pending - {id}, observed := seen);
    if operation.kind in {Archive, Delete} && operation.resourceId in seen then
      var last := seen[operation.resourceId];
      done.(observed := seen - {operation.resourceId},
            tombstones := s.tombstones[operation.resourceId := BuryObserved(last.resourceId, last)])
    else done
  }

  function Tick(s: State): State {
    s.(generation := if s.generation < MAX_U64 then s.generation + 1 else MAX_U64)
  }

  function Decide(s: State, change: Change): Decision {
    match change
    case Observing(item) => Publish(Tick(s.(observed := s.observed[item.resourceId := item])))
    case Replacing(items, resurrect) =>
      var back := ById(items).Keys * s.tombstones.Keys;
      if !resurrect && back != {} then Refuse(Resurrection(Least(back)))
      else Publish(Tick(Replaced(s, ById(items), resurrect)))
    case Enqueueing(operation) =>
      if Trim(operation.operationId) == "" then Refuse(Invalid("operation ID is empty"))
      else if operation.operationId in s.pending then
        if s.pending[operation.operationId] != operation then
          Refuse(Invalid("operation ID reused with different operation"))
        else Keep
      else Publish(Tick(s.(pending := s.pending[operation.operationId := operation])))
    case Applying(id, outcome) =>
      if id !in s.pending then Refuse(Invalid("unknown operation ID")) else Publish(Tick(Applied(s, id, outcome)))
    case Burying(tombstone) =>
      Publish(Tick(s.(observed := s.observed - {tombstone.resourceId},
                      tombstones := s.tombstones[tombstone.resourceId := tombstone])))
  }

  // ----- what transactions keep -------------------------------------------

  lemma ValidateMeansValid(s: State)
    ensures Validate(s).Ok? <==> ValidState(s)
  {
  }

  lemma InitialIsValid()
    ensures ValidState(Initial)
  {
  }

  /** The validation inside a transaction never refuses what the transaction built. */
  lemma DecideKeepsValid(s: State, change: Change)
    requires ValidState(s)
    ensures Decide(s, change).Publish? ==> ValidState(Decide(s, change).candidate)
    ensures Decide(s, change).Publish? ==> Decide(s, change).candidate.scope == s.scope
  {
    hide ById, Omitted, BuryObserved, ScopeOk, Trim, Least;
  }

  /** Every resource the checkpoint knows: as present, or as deleted. */
  function Identities(s: State): set<string> {
    s.observed.Keys + s.tombstones.Keys
  }

  lemma {:induction false} ByIdKeys(items: seq<Observed>)
    ensures forall id :: id in ById(items) <==> exists k :: 0 <= k < |items| && items[k].resourceId == id
    ensures forall id :: id in ById(items) ==>
              ById(items)[id].resourceId == id && ById(items)[id] in items
  {
    if items != [] {
      var last := |items| - 1;
      ByIdKeys(items[..last]);
      forall id | id in ById(items)
        ensures exists k :: 0 <= k < |items| && items[k].resourceId == id
      {
        if id == items[last].resourceId {
        } else {
          assert id in ById(items[..last]);
          var k :| 0 <= k < |items[..last]| && items[..last][k].resourceId == id;
          assert items[k].resourceId == id;
        }
      }
      forall k | 0 <= k < |items|
        ensures items[k].resourceId in ById(items)
      {
        if k < last { assert items[..last][k] == items[k]; }
      }
    }
  }

  /** Of two items with one id the later is kept. */
  lemma {:induction false} ByIdLastWins(items: seq<Observed>, k: nat)
    requires k < |items|
    requires forall j :: k < j < |items| ==> items[j].resourceId != items[k].resourceId
    ensures items[k].resourceId in ById(items) && ById(items)[items[k].resourceId] == items[k]
  {
    var last := |items| - 1;
    if k < last {
      ByIdLastWins(items[..last], k);
    }
  }

  /** No transaction forgets an identity, and a tombstone is lifted only by an explicit
      resurrection that makes the resource observed again. */
  lemma IdentitiesConserved(s: State, change: Change)
    requires Decide(s, change).Publish?
    ensures Identities(s) <= Identities(Decide(s, change).candidate)
    ensures forall id :: id in s.tombstones && id !in Decide(s, change).candidate.tombstones ==>
              change.Replacing? && change.resurrect && id in ById(change.items) &&
              id in Decide(s, change).candidate.observed
  {
    var next := Decide(s, change).candidate;
    if change.Replacing? {
      var replacement := ById(change.items);
      assert next.tombstones.Keys ==
             (if change.resurrect then s.tombstones.Keys - replacement.Keys else s.tombstones.Keys) +
             Omitted(s, replacement).Keys;
    }
  }

  /** Every publication counts one generation, up to the largest 64-bit number. */
  lemma DecideTicks(s: State, change: Change)
    requires Decide(s, change).Publish?
    ensures Decide(s, change).candidate.generation == if s.generation < MAX_U64 then s.generation + 1 else MAX_U64
  {
  }

  /** A snapshot is refused exactly when it would silently bring back a deleted resource. */
  lemma ReplaceRefusal(s: State, items: seq<Observed>, resurrect: bool)
    ensures Decide(s, Replacing(items, resurrect)).Refuse? <==>
            !resurrect && exists k :: 0 <= k < |items| && items[k].resourceId in s.tombstones
    ensures Decide(s, Replacing(items, resurrect)).Refuse? ==>
              Decide(s, Replacing(items, resurrect)).error.Resurrection? &&
              Decide(s, Replacing(items, resurrect)).error.id in s.tombstones
  {
    ByIdKeys(items);
    var back := ById(items).Keys * s.tombstones.Keys;
    if k :| 0 <= k < |items| && items[k].resourceId in s.tombstones {
      assert items[k].resourceId in back;
    }
  }

  /** After a snapshot no resource is both observed and deleted: the snapshot is what is observed,
      and everything else ever known is a tombstone. */
  lemma ReplaceSeparates(s: State, items: seq<Observed>, resurrect: bool)
    requires Decide(s, Replacing(items, resurrect)).Publish?
    ensures var next := Decide(s, Replacing(items, resurrect)).candidate;
            next.observed == ById(items) &&
            next.observed.Keys !! next.tombstones.Keys &&
            next.tombstones.Keys == Identities(s) - ById(items).Keys &&
            next.pending == s.pending
  {
    var next := Decide(s, Replacing(items, resurrect)).candidate;
    var replacement := ById(items);
    var back := replacement.Keys * s.tombstones.Keys;
    assert !resurrect ==> back == {};
    forall id
      ensures id in next.tombstones <==> id in Identities(s) && id !in replacement
    {
      assert id in back <==> id in replacement && id in s.tombstones;
    }
  }

  // ----- what each transaction does ---------------------------------------

  /** The tombstone has the id and everything else that was known of the resource. */
  predicate TombstoneOf(t: Tombstone, id: string, o: Observed) {
    t.resourceId == id && t.objectId == o.objectId && t.davUid == o.davUid && t.revision == o.revision &&
    t.etag == o.etag && t.modifiedAt == o.modifiedAt
  }

  /** A snapshot shows of every resource its last item, and buries what was known besides. */
  ghost predicate Snapshotted(s: State, items: seq<Observed>, next: State) {
    (forall k :: 0 <= k < |items| && (forall j :: k < j < |items| ==> items[j].resourceId != items[k].resourceId) ==>
      items[k].resourceId in next.observed && next.observed[items[k].resourceId] == items[k]) &&
    (forall id :: id in next.observed ==> exists k :: 0 <= k < |items| && items[k].resourceId == id) &&
    (forall id :: id in next.tombstones <==> id !in next.observed && (id in s.observed || id in s.tombstones)) &&
    (forall id :: id in next.tombstones ==>
      if id in s.observed then TombstoneOf(next.tombstones[id], id, s.observed[id])
      else next.tombstones[id] == s.tombstones[id])
  }

  /** What was known of a resource when an operation on it was applied. */
  function Known(s: State, id: string, outcome: Option<Observed>): Option<Observed> {
    if outcome.Some? && outcome.value.resourceId == id then outcome
    else if id in s.observed then Some(s.observed[id]) else None
  }

  /** An applied archive or delete turns what is known of its target into a tombstone; everything else
      is as known, with what the outcome shows. */
  ghost predicate Settled(s: State, operation: Operation, outcome: Option<Observed>, next: State) {
    var gone := operation.kind == Archive || operation.kind == Delete;
    var target := operation.resourceId;
    (forall id :: id in next.observed <==> Known(s, id, outcome).Some? && !(gone && id == target)) &&
    (forall id :: id in next.observed ==> next.observed[id] == Known(s, id, outcome).value) &&
    (forall id :: id in next.tombstones <==>
      id in s.tombstones || (gone && id == target && Known(s, id, outcome).Some?)) &&
    (forall id :: id in next.tombstones ==>
      if gone && id == target && Known(s, id, outcome).Some? then
        TombstoneOf(next.tombstones[id], Known(s, id, outcome).value.resourceId, Known(s, id, outcome).value)
      else next.tombstones[id] == s.tombstones[id])
  }

  /** The whole effect of an accepted change on what a checkpoint holds. */
  ghost predicate Effect(s: State, change: Change, next: State) {
    next.version == s.version && next.scope == s.scope &&
    match change
    case Observing(item) =>
      next.observed == s.observed[item.resourceId := item] && next.pending == s.pending && next.tombstones == s.tombstones
    case Replacing(items, resurrect) =>
      next.pending == s.pending && Snapshotted(s, items, next) &&
      (resurrect || forall k :: 0 <= k < |items| ==> items[k].resourceId !in s.tombstones)
    case Enqueueing(operation) =>
      next.pending == s.pending[operation.operationId := operation] &&
      next.observed == s.observed && next.tombstones == s.tombstones
    case Applying(id, outcome) =>
      id in s.pending && next.pending == s.pending - {id} && Settled(s, s.pending[id], outcome, next)
    case Burying(tombstone) =>
      next.observed == s.observed - {tombstone.resourceId} && next.pending == s.pending &&
      next.tombstones == s.tombstones[tombstone.resourceId := tombstone]
  }

  lemma ReplacedBuries(s: State, replacement: map<string, Observed>, resurrect: bool)
    requires resurrect || replacement.Keys !! s.tombstones.Keys
    ensures var next := Replaced(s, replacement, resurrect);
            (forall id :: id in next.tombstones <==> id !in replacement && (id in s.observed || id in s.tombstones)) &&
            forall id :: id in next.tombstones ==>
              if id in s.observed then TombstoneOf(next.tombstones[id], id, s.observed[id])
              else next.tombstones[id] == s.tombstones[id]
  {
  }

  lemma ReplacedIsSnapshot(s: State, items: seq<Observed>, resurrect: bool)
    requires Decide(s, Replacing(items, resurrect)).Publish?
    ensures Effect(s, Replacing(items, resurrect), Decide(s, Replacing(items, resurrect)).candidate)
  {
    hide ById, Omitted;
    ByIdKeys(items);
    ReplaceRefusal(s, items, resurrect);
    assert !resurrect ==> ById(items).Keys !! s.tombstones.Keys;
    hide Snapshotted;
    SnapshotIs(s, items, resurrect);
  }

  lemma SnapshotIs(s: State, items: seq<Observed>, resurrect: bool)
    requires resurrect || ById(items).Keys !! s.tombstones.Keys
    ensures Snapshotted(s, items, Tick(Replaced(s, ById(items), resurrect)))
  {
    hide ById, Omitted, TombstoneOf;
    var next := Tick(Replaced(s, ById(items), resurrect));
    ByIdKeys(items);
    ReplacedBuries(s, ById(items), resurrect);
    forall k | 0 <= k < |items| && (forall j :: k < j < |items| ==> items[j].resourceId != items[k].resourceId)
      ensures items[k].resourceId in next.observed && next.observed[items[k].resourceId] == items[k]
    {
      ByIdLastWins(items, k);
    }
  }

  lemma AppliedSettles(s: State, id: string, outcome: Option<Observed>)
    requires id in s.pending
    ensures Settled(s, s.pending[id], outcome, Applied(s, id, outcome))
  {
  }

  /** Every accepted change has its effect, and counts one generation. */
  lemma EffectIs(s: State, change: Change)
    requires Decide(s, change).Publish?
    ensures Effect(s, change, Decide(s, change).candidate)
    ensures Decide(s, change).candidate.generation == if s.generation < MAX_U64 then s.generation + 1 else MAX_U64
  {
    hide Settled;
    if change.Replacing? {
      ReplacedIsSnapshot(s, change.items, change.resurrect);
    } else if change.Applying? {
      AppliedSettles(s, change.operationId, change.outcome);
      assert Settled(s, s.pending[change.operationId], change.outcome, Tick(Applied(s, change.operationId, change.outcome))) by {
        TickSettles(s, s.pending[change.operationId], change.outcome, Applied(s, change.operationId, change.outcome));
      }
    }
  }

  lemma TickSettles(s: State, operation: Operation, outcome: Option<Observed>, next: State)
    requires Settled(s, operation, outcome, next)
    ensures Settled(s, operation, outcome, Tick(next))
  {
  }

  /** Exactly when a change is refused, and when it is one that was made before. */
  lemma DecidesExactly(s: State, change: Change)
    ensures Decide(s, change).Refuse? <==>
            match change
            case Replacing(items, resurrect) => !resurrect && exists k :: 0 <= k < |items| && items[k].resourceId in s.tombstones
            case Enqueueing(operation) =>
              IsBlankText(operation.operationId) ||
              (operation.operationId in s.pending && s.pending[operation.operationId] != operation)
            case Applying(id, _) => id !in s.pending
            case _ => false
    ensures Decide(s, change).Keep? <==>
            change.Enqueueing? && !IsBlankText(change.operation.operationId) &&
            change.operation.operationId in s.pending && s.pending[change.operation.operationId] == change.operation
  {
    match change
    case Replacing(items, resurrect) => ReplaceRefusal(s, items, resurrect);
    case Enqueueing(operation) => TrimCuts(operation.operationId);
    case _ =>
  }

  // ----- separation -------------------------------------------------------

  predicate Separate(s: State) {
    s.observed.Keys * s.tombstones.Keys == {}
  }

  /** The id that a change shows as present without asking whether it is deleted: `observe` never
      asks, and `mark_applied` only takes back what its own archive or delete buries again. */
  function ShownUnasked(s: State, change: Change): set<string> {
    match change
    case Observing(item) => {item.resourceId}
    case Applying(id, outcome) =>
      if outcome.None? ||
         (id in s.pending && s.pending[id].kind in {Archive, Delete} &&
          s.pending[id].resourceId == outcome.value.resourceId)
      then {} else {outcome.value.resourceId}
    case _ => {}
  }

  lemma AppliedOverlap(s: State, id: string, outcome: Option<Observed>)
    requires Separate(s) && id in s.pending
    ensures Applied(s, id, outcome).observed.Keys * Applied(s, id, outcome).tombstones.Keys ==
            ShownUnasked(s, Applying(id, outcome)) * s.tombstones.Keys
  {
    var operation := s.pending[id];
    var seen := if outcome.Some? then s.observed[outcome.value.resourceId := outcome.value] else s.observed;
    assert seen.Keys == s.observed.Keys + (if outcome.Some? then {outcome.value.resourceId} else {});
    if operation.kind in {Archive, Delete} && operation.resourceId in seen {
      assert Applied(s, id, outcome).observed.Keys == seen.Keys - {operation.resourceId};
      assert Applied(s, id, outcome).tombstones.Keys == s.tombstones.Keys + {operation.resourceId};
    }
  }

  lemma OverlapIs(s: State, change: Change)
    requires Separate(s) && Decide(s, change).Publish?
    ensures var next := Decide(s, change).candidate;
            next.observed.Keys * next.tombstones.Keys == ShownUnasked(s, change) * s.tombstones.Keys
  {
    var next := Decide(s, change).candidate;
    match change
    case Replacing(items, resurrect) => ReplaceSeparates(s, items, resurrect);
    case Observing(item) => assert next.observed.Keys == s.observed.Keys + {item.resourceId};
    case Applying(id, outcome) =>
      AppliedOverlap(s, id, outcome);
      assert next == Tick(Applied(s, id, outcome));
    case Enqueueing(_) =>
    case Burying(tombstone) =>
      assert next.observed.Keys == s.observed.Keys - {tombstone.resourceId};
      assert next.tombstones.Keys == s.tombstones.Keys + {tombstone.resourceId};
  }

  /** From a state in which no resource is both observed and deleted, a transaction leads to another
      one exactly when what it shows unasked is not deleted; otherwise that id is the one in both. */
  lemma SeparateExactly(s: State, change: Change)
    requires Separate(s) && Decide(s, change).Publish?
    ensures Separate(Decide(s, change).candidate) <==> ShownUnasked(s, change) * s.tombstones.Keys == {}
    ensures var next := Decide(s, change).candidate;
            next.observed.Keys * next.tombstones.Keys == ShownUnasked(s, change) * s.tombstones.Keys
  {
    OverlapIs(s, change);
  }

  /** Applying an archive or a delete moves the resource, if it is observed, among the tombstones. */
  lemma ApplyingBuries(s: State, id: string, outcome: Option<Observed>)
    requires id in s.pending && s.pending[id].kind in {Archive, Delete}
    ensures var next := Decide(s, Applying(id, outcome)).candidate;
            var target := s.pending[id].resourceId;
            id !in next.pending && target !in next.observed &&
            (target in s.observed || (outcome.Some? && outcome.value.resourceId == target) ==>
               target in next.tombstones)
  {
  }

  // ----- runs of transactions ---------------------------------------------

  /** The state after a list of calls, none of which fails on disk. */
  function RunChanges(s: State, changes: seq<Change>): State {
    if changes == [] then s
    else
      var last := RunChanges(s, changes[..|changes| - 1]);
      var decision := Decide(last, changes[|changes| - 1]);
      if decision.Publish? then decision.candidate else last
  }

  function Publications(s: State, changes: seq<Change>): nat {
    if changes == [] then 0
    else
      var n := |changes| - 1;
      Publications(s, changes[..n]) + (if Decide(RunChanges(s, changes[..n]), changes[n]).Publish? then 1 else 0)
  }

  /** The generation counts publications and stays at the largest 64-bit number once there. */
  lemma {:induction false} GenerationCounts(s: State, changes: seq<Change>)
    ensures var counted := s.generation + Publications(s, changes);
            RunChanges(s, changes).generation == if counted < MAX_U64 then counted else MAX_U64
  {
    if changes != [] {
      GenerationCounts(s, changes[..|changes| - 1]);
    }
  }

  /** Over every run a pending operation stays as it was enqueued until it is applied, whatever else
      happens; and nothing is pending that was not enqueued as it is. */
  lemma {:induction false} PendingUntilApplied(s: State, changes: seq<Change>, id: string)
    ensures id in s.pending && (forall c :: c in changes ==> !(c.Applying? && c.operationId == id)) ==>
              id in RunChanges(s, changes).pending && RunChanges(s, changes).pending[id] == s.pending[id]
    ensures id in RunChanges(s, changes).pending ==>
              (id in s.pending && RunChanges(s, changes).pending[id] == s.pending[id]) ||
              Enqueueing(RunChanges(s, changes).pending[id]) in changes
  {
    hide Effect, Decide;
    if changes != [] {
      var n := |changes| - 1;
      var before, last := RunChanges(s, changes[..n]), changes[n];
      PendingUntilApplied(s, changes[..n], id);
      assert last in changes && forall c :: c in changes[..n] ==> c in changes;
      var now := RunChanges(s, changes);
      if Decide(before, last).Publish? {
        PendingIs(before, last);
        assert now == Decide(before, last).candidate;
      } else {
        assert now == before;
      }
    }
  }

  lemma PendingIs(s: State, change: Change)
    requires Decide(s, change).Publish?
    ensures var pending := Decide(s, change).candidate.pending;
            pending == if change.Enqueueing? then s.pending[change.operation.operationId := change.operation]
                       else if change.Applying? then s.pending - {change.operationId}
                       else s.pending
    ensures change.Enqueueing? ==> change.operation.operationId !in s.pending
  {
    hide Settled, Snapshotted;
    EffectIs(s, change);
  }

  /** An operation whose enqueueing was accepted, now or before, is pending after every later run that
      does not apply it. */
  lemma EnqueuedStays(s: State, operation: Operation, later: seq<Change>)
    requires !Decide(s, Enqueueing(operation)).Refuse?
    requires forall c :: c in later ==> !(c.Applying? && c.operationId == operation.operationId)
    ensures var now := RunChanges(RunChanges(s, [Enqueueing(operation)]), later);
            operation.operationId in now.pending && now.pending[operation.operationId] == operation
  {
    hide RunChanges, Decide;
    var enqueued := RunChanges(s, [Enqueueing(operation)]);
    EnqueuedIsPending(s, operation);
    PendingUntilApplied(enqueued, later, operation.operationId);
  }

  lemma EnqueuedIsPending(s: State, operation: Operation)
    requires !Decide(s, Enqueueing(operation)).Refuse?
    ensures RunChanges(s, [Enqueueing(operation)]).pending == s.pending[operation.operationId := operation]
  {
    hide Effect;
    assert [Enqueueing(operation)][..0] == [];
    assert RunChanges(s, []) == s;
    if Decide(s, Enqueueing(operation)).Publish? {
      PendingIs(s, Enqueueing(operation));
    }
  }

  predicate Resurrects(change: Change, id: string) {
    change.Replacing? && change.resurrect && id in ById(change.items)
  }

  /** Over every run: identities only accumulate, and a tombstone lasts as long as nobody
      resurrects it. */
  lemma {:induction false} RunConserves(s: State, changes: seq<Change>)
    requires ValidState(s)
    ensures ValidState(RunChanges(s, changes))
    ensures Identities(s) <= Identities(RunChanges(s, changes))
    ensures forall id :: id in s.tombstones && (forall c :: c in changes ==> !Resurrects(c, id)) ==>
              id in RunChanges(s, changes).tombstones
  {
    if changes != [] {
      var n := |changes| - 1;
      var before, last := RunChanges(s, changes[..n]), changes[n];
      RunConserves(s, changes[..n]);
      DecideKeepsValid(before, last);
      if Decide(before, last).Publish? {
        IdentitiesConserved(before, last);
      }
      forall id | id in s.tombstones && (forall c :: c in changes ==> !Resurrects(c, id))
        ensures id in RunChanges(s, changes).tombstones
      {
        assert last in changes;
        assert forall c :: c in changes[..n] ==> c in changes;
        assert id in before.tombstones;
      }
    }
  }

  /** Once an archive or a delete of a resource that is observed, or shown by its outcome, was applied,
      the resource is a tombstone over every later run, until somebody resurrects it. */
  lemma AppliedStaysBuried(s: State, id: string, outcome: Option<Observed>, later: seq<Change>)
    requires ValidState(s) && id in s.pending && s.pending[id].kind in {Archive, Delete}
    requires var target := s.pending[id].resourceId;
             target in s.observed || (outcome.Some? && outcome.value.resourceId == target)
    requires forall c :: c in later ==> !Resurrects(c, s.pending[id].resourceId)
    ensures Decide(s, Applying(id, outcome)).Publish?
    ensures s.pending[id].resourceId in RunChanges(Decide(s, Applying(id, outcome)).candidate, later).tombstones
  {
    ApplyingBuries(s, id, outcome);
    DecideKeepsValid(s, Applying(id, outcome));
    RunConserves(Decide(s, Applying(id, outcome)).candidate, later);
  }
}
