/** Whole lives of a checkpoint: openings, transactions that may fail or be cut off, crashes and reopenings. */
module SyncRuns {
  import opened Wrappers
  import opened SyncState
  import opened SyncDisk
  import opened SyncStore

  datatype Session = Session(state: State, recovered: bool)

  /** The files and, while a store is open, what it holds in memory. */
  datatype World = World(disk: Disk, session: Option<Session>)

  datatype Event =
    | Start(expected: Option<Scope>)
    | Stop
    /** A publication that returned: `acknowledged` tells whether it reported success. */
    | Publishing(candidate: State, saves: bool, acknowledged: bool)
    /** The process dies between two file actions of a publication, or idle; an unsettled rename may be undone. */
    | Crash(candidate: State, saves: bool, point: Disk)

  const Genesis: World := World(BlankDisk, None)

  /** The publications an open store can attempt: a decided transaction, which saves the primary
      when it should, or an export of the same scope, which does not. */
  ghost predicate Attempts(w: World, candidate: State, saves: bool) {
    w.session.Some? && ValidState(candidate) &&
    ((saves == Copies(w.disk, w.session.value.recovered) &&
      exists change :: Decide(w.session.value.state, change) == Publish(candidate)) ||
     (!saves && candidate.scope == w.session.value.state.scope))
  }

  ghost predicate Next(w: World, e: Event, after: World) {
    match e
    case Start(expected) =>
      w.session.None? && (expected.Some? ==> ScopeOk(expected.value)) && after.disk == w.disk &&
      after.session == (match Opening(w.disk, expected)
                        case Ok((state, recovered)) => Some(Session(state, recovered))
                        case Err(_) => None)
    case Stop => w.session.Some? && after == World(w.disk, None)
    case Publishing(candidate, saves, acknowledged) =>
      Attempts(w, candidate, saves) && PublicationPoint(w.disk, saves, candidate, after.disk) &&
      if acknowledged then
        after.disk.primary == Whole(candidate) && after.disk.unsettled == {} &&
        after.session == Some(Session(candidate, false))
      else after.session == w.session
    case Crash(candidate, saves, point) =>
      (point == w.disk || (Attempts(w, candidate, saves) && PublicationPoint(w.disk, saves, candidate, point))) &&
      after.session.None? && after.disk.backup == point.backup && after.disk.unsettled == {} &&
      after.disk.primary in Versions(point)
  }

  /** A crash that loses no rename. */
  predicate KeepsRenames(e: Event, after: World) {
    e.Crash? ==> after.disk.primary == e.point.primary
  }

  ghost predicate StepAt(worlds: seq<World>, events: seq<Event>, i: nat)
    requires |worlds| == |events| + 1 && i < |events|
  {
    Next(worlds[i], events[i], worlds[i + 1])
  }

  ghost predicate IsRun(worlds: seq<World>, events: seq<Event>) {
    |worlds| == |events| + 1 && worlds[0] == Genesis &&
    forall i :: 0 <= i < |events| ==> StepAt(worlds, events, i)
  }

  // ----- when no rename is lost -------------------------------------------

  predicate Healthy(w: World) {
    ValidDisk(w.disk) && Read(w.disk).Ok? &&
    (w.session.Some? ==> ValidState(w.session.value.state) && Guarded(w.disk, w.session.value.recovered))
  }

  predicate ReadsOldOrNew(w: World, e: Event, after: World) {
    Read(after.disk) == Read(w.disk) ||
    (e.Publishing? && Read(after.disk) == Ok(e.candidate)) ||
    (e.Crash? && Read(after.disk) == Ok(e.candidate))
  }

  lemma ReadableIsGuarded(d: Disk)
    requires Read(d).Ok?
    ensures Guarded(d, !d.primary.Whole? && d.backup.Whole?)
  {
  }

  lemma PointStaysHealthy(w: World, candidate: State, saves: bool, point: Disk)
    requires Healthy(w) && Attempts(w, candidate, saves) && PublicationPoint(w.disk, saves, candidate, point)
    ensures ValidDisk(point) && Read(point).Ok? && Guarded(point, w.session.value.recovered)
    ensures Read(point) == Read(w.disk) || Read(point) == Ok(candidate)
  {
    var recovered := w.session.value.recovered;
    PublicationKeepsValid(w.disk, saves, candidate, point);
    PublicationIsSafe(w.disk, recovered, saves, candidate, point);
  }

  lemma StartIsSafe(w: World, e: Event, after: World)
    requires Healthy(w) && e.Start? && Next(w, e, after)
    ensures Healthy(after)
    ensures after.session.Some? ==>
              after.session.value.state.(scope := None) == Read(w.disk).value.(scope := None)
  {
    ReadableIsGuarded(w.disk);
    OpeningSucceeds(w.disk, !w.disk.primary.Whole? && w.disk.backup.Whole?, e.expected);
  }

  lemma PublishingIsSafe(w: World, e: Event, after: World)
    requires Healthy(w) && e.Publishing? && Next(w, e, after)
    ensures Healthy(after) && ReadsOldOrNew(w, e, after)
    ensures e.acknowledged ==> Outcomes(after.disk) == {Ok(e.candidate)}
  {
    PointStaysHealthy(w, e.candidate, e.saves, after.disk);
    if e.acknowledged {
      SettledIsDurable(after.disk, e.candidate);
    }
  }

  lemma CrashIsSafe(w: World, e: Event, after: World)
    requires Healthy(w) && e.Crash? && Next(w, e, after) && KeepsRenames(e, after)
    ensures Healthy(after) && ReadsOldOrNew(w, e, after)
  {
    if e.point != w.disk {
      PointStaysHealthy(w, e.candidate, e.saves, e.point);
    }
    assert Versions(after.disk) == {e.point.primary};
  }

  /** Every step, crashes included, keeps the checkpoint readable, shows the state from before or
      the candidate, and shows the candidate when it was acknowledged. */
  lemma StepIsSafe(w: World, e: Event, after: World)
    requires Healthy(w) && Next(w, e, after) && KeepsRenames(e, after)
    ensures Healthy(after)
    ensures ReadsOldOrNew(w, e, after)
    ensures e.Publishing? && e.acknowledged ==> Outcomes(after.disk) == {Ok(e.candidate)}
    ensures e.Start? ==> Read(after.disk) == Read(w.disk) &&
                         (after.session.Some? ==>
                            after.session.value.state.(scope := None) == Read(w.disk).value.(scope := None))
  {
    match e
    case Start(expected) => StartIsSafe(w, e, after);
    case Stop =>
    case Publishing(candidate, saves, acknowledged) => PublishingIsSafe(w, e, after);
    case Crash(candidate, saves, point) => CrashIsSafe(w, e, after);
  }

  /** Over every life of a checkpoint, of any length: it is never found corrupt. */
  lemma {:induction false} NeverCorrupt(worlds: seq<World>, events: seq<Event>, k: nat)
    requires IsRun(worlds, events) && k < |worlds|
    requires forall i :: 0 <= i < |events| ==> KeepsRenames(events[i], worlds[i + 1])
    ensures Healthy(worlds[k])
  {
    if k == 0 {
      InitialIsValid();
    } else {
      NeverCorrupt(worlds, events, k - 1);
      assert StepAt(worlds, events, k - 1) && KeepsRenames(events[k - 1], worlds[k]);
      StepIsSafe(worlds[k - 1], events[k - 1], worlds[k]);
    }
  }

  /** Anything but a publication: opening, closing, or dying idle. */
  predicate Quiet(w: World, e: Event) {
    !e.Publishing? && (e.Crash? ==> e.point == w.disk)
  }

  /** A settled candidate stays settled: a crash has no rename left that it could undo. */
  lemma QuietStep(w: World, e: Event, after: World, candidate: State)
    requires Next(w, e, after) && Quiet(w, e)
    requires w.disk.primary == Whole(candidate) && w.disk.unsettled == {}
    ensures after.disk.primary == Whole(candidate) && after.disk.unsettled == {}
  {
  }

  lemma {:induction false} SettledSurvives(worlds: seq<World>, events: seq<Event>, i: nat, k: nat)
    requires IsRun(worlds, events) && i < k < |worlds|
    requires events[i].Publishing? && events[i].acknowledged
    requires forall j :: i < j < k ==> Quiet(worlds[j], events[j])
    ensures worlds[k].disk.primary == Whole(events[i].candidate) && worlds[k].disk.unsettled == {}
    decreases k
  {
    assert StepAt(worlds, events, k - 1);
    if i < k - 1 {
      SettledSurvives(worlds, events, i, k - 1);
      QuietStep(worlds[k - 1], events[k - 1], worlds[k], events[i].candidate);
    }
  }

  /** What an acknowledged publication made durable is the only thing that can be read, whatever
      renames crashes undo, until another publication is attempted. */
  lemma AcknowledgedSurvives(worlds: seq<World>, events: seq<Event>, i: nat, k: nat)
    requires IsRun(worlds, events) && i < k < |worlds|
    requires events[i].Publishing? && events[i].acknowledged
    requires forall j :: i < j < k ==> Quiet(worlds[j], events[j])
    ensures Outcomes(worlds[k].disk) == {Ok(events[i].candidate)} && worlds[k].disk.unsettled == {}
    ensures Read(worlds[k].disk) == Ok(events[i].candidate)
  {
    SettledSurvives(worlds, events, i, k);
    SettledIsDurable(worlds[k].disk, events[i].candidate);
  }

  // ----- when crashes may undo unsettled renames --------------------------

  /** No crash from here on finds the checkpoint corrupt. */
  ghost predicate Durable(w: World) {
    Healthy(w) && Err(Corrupt) !in Outcomes(w.disk)
  }

  ghost predicate CarefulEvent(w: World, e: Event) {
    match e
    case Publishing(_, saves, _) => Careful(w.disk, saves)
    case Crash(_, saves, _) => Careful(w.disk, saves)
    case _ => true
  }

  lemma CarefulStep(w: World, e: Event, after: World)
    requires Durable(w) && Next(w, e, after) && CarefulEvent(w, e)
    ensures Durable(after)
    ensures Outcomes(after.disk) <= Outcomes(w.disk) +
              (match e case Publishing(c, _, _) => {Ok(c)} case Crash(c, _, _) => {Ok(c)} case _ => {})
  {
    match e
    case Start(expected) =>
      StepIsSafe(w, e, after);
    case Stop =>
    case Publishing(candidate, saves, acknowledged) =>
      StepIsSafe(w, e, after);
      PublicationOutcomes(w.disk, w.session.value.recovered, saves, candidate, after.disk);
    case Crash(candidate, saves, point) =>
      if point != w.disk {
        PointStaysHealthy(w, candidate, saves, point);
        PublicationOutcomes(w.disk, w.session.value.recovered, saves, candidate, point);
      }
      assert ReadFiles(after.disk.primary, point.backup) in Outcomes(point);
      assert Versions(after.disk) == {after.disk.primary};
  }

  /** Even when crashes undo renames: as long as no copy is made over unsettled missing or torn
      primaries, no life of a checkpoint ever finds it corrupt. */
  lemma {:induction false} NeverCorruptWhenCareful(worlds: seq<World>, events: seq<Event>, k: nat)
    requires IsRun(worlds, events) && k < |worlds|
    requires forall i :: 0 <= i < |events| ==> CarefulEvent(worlds[i], events[i])
    ensures Durable(worlds[k])
  {
    if k == 0 {
      InitialIsValid();
      assert Versions(BlankDisk) == {Absent};
    } else {
      NeverCorruptWhenCareful(worlds, events, k - 1);
      assert StepAt(worlds, events, k - 1) && CarefulEvent(worlds[k - 1], events[k - 1]);
      CarefulStep(worlds[k - 1], events[k - 1], worlds[k]);
    }
  }

  /** Every publication that starts with a settled directory is careful. */
  lemma SettledIsCareful(w: World, e: Event)
    requires w.disk.unsettled == {}
    ensures CarefulEvent(w, e)
  {
  }

  lemma FirstObserved(item: Observed) returns (candidate: State)
    ensures Decide(Initial, Observing(item)) == Publish(candidate) && ValidState(candidate)
    ensures Identities(candidate) == {item.resourceId}
    ensures Opening(BlankDisk, None) == Ok((Initial, false))
  {
    InitialIsValid();
    ValidateMeansValid(Initial);
    DecideKeepsValid(Initial, Observing(item));
    candidate := Decide(Initial, Observing(item)).candidate;
  }

  /** The condition is needed: a first commit whose directory sync fails, then a second commit cut
      off while it copies, and the loss of the first rename leave a checkpoint that cannot be opened. */
  lemma LostRenameCorrupts(item: Observed)
    ensures exists worlds: seq<World>, events: seq<Event> :: IsRun(worlds, events) && Opening(worlds[|events|].disk, None) == Err(Corrupt)
  {
    var candidate := FirstObserved(item);
    var w1 := World(BlankDisk, Some(Session(Initial, false)));
    var renamed := Disk(Absent, Whole(candidate), {Absent}, Absent);
    var w2 := World(renamed, w1.session);
    var copying := renamed.(backup := Torn);
    var w3 := World(Disk(Absent, Absent, {}, Torn), None);
    var worlds := [Genesis, w1, w2, w3];
    var events := [Start(None), Publishing(candidate, false, false), Crash(candidate, true, copying)];
    assert StepAt(worlds, events, 0);
    assert StepAt(worlds, events, 1);
    assert StepAt(worlds, events, 2);
    assert IsRun(worlds, events);
  }

  // ----- memory and disk --------------------------------------------------

  /** A failed directory sync leaves the disk ahead of memory, and the next commit then takes back
      an identity that the disk already knew. */
  lemma AheadOfMemory(item: Observed, other: Observed)
    requires item.resourceId != other.resourceId
    ensures exists worlds: seq<World>, events: seq<Event>, k: nat ::
              IsRun(worlds, events) && k < |events| && events[k].Publishing? && !events[k].acknowledged &&
              Read(worlds[k + 1].disk) == Ok(events[k].candidate) &&
              worlds[k + 1].session != Some(Session(events[k].candidate, false)) &&
              Read(worlds[|events|].disk).Ok? &&
              !(Identities(events[k].candidate) <= Identities(Read(worlds[|events|].disk).value))
  {
    var first := FirstObserved(item);
    var second := FirstObserved(other);
    var w1 := World(BlankDisk, Some(Session(Initial, false)));
    var w2 := World(Disk(Absent, Whole(first), {Absent}, Absent), w1.session);
    var w3 := World(Disk(Absent, Whole(second), {}, Whole(first)), Some(Session(second, false)));
    var worlds := [Genesis, w1, w2, w3];
    var events := [Start(None), Publishing(first, false, false), Publishing(second, true, true)];
    assert StepAt(worlds, events, 0);
    assert StepAt(worlds, events, 1);
    assert StepAt(worlds, events, 2);
    assert IsRun(worlds, events);
    assert item.resourceId in Identities(first) && item.resourceId !in Identities(second);
    assert events[1].Publishing?;
  }

  /** The exact condition under which the next publications cannot take back an identity that the
      disk knows: memory knows it too. */
  lemma KeepsIdentitiesExactly(w: World)
    requires Healthy(w) && w.session.Some?
    ensures var s, known := w.session.value.state, Identities(Read(w.disk).value);
            (forall change :: Decide(s, change).Publish? ==> known <= Identities(Decide(s, change).candidate)) <==>
            known <= Identities(s)
  {
    var s, known := w.session.value.state, Identities(Read(w.disk).value);
    if known <= Identities(s) {
      forall change | Decide(s, change).Publish?
        ensures known <= Identities(Decide(s, change).candidate)
      {
        IdentitiesConserved(s, change);
      }
    } else {
      var lost :| lost in known && lost !in Identities(s);
      var change := Observing(Observed(lost + "'", "", "", 0, "", 0, false));
      assert Decide(s, change).Publish? && lost !in Identities(Decide(s, change).candidate);
    }
  }

  // ----- lives in which no commit fails after its rename ------------------

  ghost predicate DecidesTo(w: World, candidate: State) {
    w.session.Some? && exists change :: Decide(w.session.value.state, change) == Publish(candidate)
  }

  /** What is published, or cut off while being published, is a decided transaction, not an export. */
  ghost predicate Decided(w: World, e: Event) {
    match e
    case Publishing(candidate, _, _) => DecidesTo(w, candidate)
    case Crash(candidate, _, point) => point == w.disk || DecidesTo(w, candidate)
    case _ => true
  }

  /** A commit that returned a failure had not renamed. */
  predicate FailsEarly(w: World, e: Event, after: World) {
    e.Publishing? && !e.acknowledged ==> Staging(w.disk, e.saves, after.disk)
  }

  ghost predicate OrdinaryAt(worlds: seq<World>, events: seq<Event>, i: nat)
    requires |worlds| == |events| + 1 && i < |events|
  {
    Decided(worlds[i], events[i]) && FailsEarly(worlds[i], events[i], worlds[i + 1])
  }

  /** The directory is settled, and memory holds what the disk holds, up to an adopted scope. */
  ghost predicate InStep(w: World) {
    Durable(w) && w.disk.unsettled == {} &&
    (w.session.Some? ==> w.session.value.state.(scope := None) == Read(w.disk).value.(scope := None))
  }

  /** The state that opening would read. */
  function OnDisk(w: World): State
    requires Read(w.disk).Ok?
  {
    Read(w.disk).value
  }

  /** A commit that fails after its rename endangers an identity exactly when it would have added one. */
  lemma LateFailureExactly(w: World, e: Event, after: World)
    requires InStep(w) && Next(w, e, after) && e.Publishing? && !e.acknowledged && DecidesTo(w, e.candidate)
    requires Published(w.disk, e.saves, e.candidate, after.disk)
    ensures var s, known := w.session.value.state, Identities(e.candidate);
            after.session == w.session && OnDisk(after) == e.candidate &&
            ((forall change :: Decide(s, change).Publish? ==> known <= Identities(Decide(s, change).candidate)) <==>
             known == Identities(OnDisk(w)))
  {
    StepIsSafe(w, e, after);
    KeepsIdentitiesExactly(after);
    var change :| Decide(w.session.value.state, change) == Publish(e.candidate);
    IdentitiesConserved(w.session.value.state, change);
    assert Identities(w.session.value.state) == Identities(OnDisk(w));
  }

  lemma PublishedInStep(w: World, e: Event, after: World)
    requires InStep(w) && Next(w, e, after) && e.Publishing? && FailsEarly(w, e, after)
    ensures InStep(after) && (Read(after.disk) == Read(w.disk) || Read(after.disk) == Ok(e.candidate))
  {
    SettledIsCareful(w, e);
    CarefulStep(w, e, after);
    StepIsSafe(w, e, after);
    if !e.acknowledged {
      PublicationIsSafe(w.disk, w.session.value.recovered, e.saves, e.candidate, after.disk);
    }
  }

  lemma CrashedInStep(w: World, e: Event, after: World)
    requires InStep(w) && Next(w, e, after) && e.Crash?
    ensures InStep(after) && (Read(after.disk) == Read(w.disk) || Read(after.disk) == Ok(e.candidate))
  {
    SettledIsCareful(w, e);
    CarefulStep(w, e, after);
  }

  /** Each step keeps memory and disk in step, crashes that undo renames included, and the disk
      moves only to a transaction decided on what it held. */
  lemma InStepStays(w: World, e: Event, after: World)
    requires InStep(w) && Next(w, e, after) && Decided(w, e) && FailsEarly(w, e, after)
    ensures InStep(after)
    ensures Read(after.disk) == Read(w.disk) || (DecidesTo(w, OnDisk(after)) && (e.Publishing? || e.Crash?))
  {
    match e
    case Start(expected) =>
      SettledIsCareful(w, e);
      CarefulStep(w, e, after);
      StepIsSafe(w, e, after);
    case Stop =>
    case Publishing(_, _, _) => PublishedInStep(w, e, after);
    case Crash(_, _, _) => CrashedInStep(w, e, after);
  }

  /** The disk changed in this step. */
  predicate Lands(w: World, after: World) {
    Read(after.disk) != Read(w.disk)
  }

  function Landings(worlds: seq<World>, i: nat, k: nat): nat
    requires i <= k < |worlds|
  {
    if i == k then 0 else Landings(worlds, i, k - 1) + (if Lands(worlds[k - 1], worlds[k]) then 1 else 0)
  }

  /** A step in which a snapshot brings the id back on purpose. */
  ghost predicate Lifts(w: World, after: World, id: string) {
    w.session.Some? && Read(after.disk).Ok? &&
    exists change :: Decide(w.session.value.state, change) == Publish(OnDisk(after)) && Resurrects(change, id)
  }

  ghost predicate LiftedBetween(worlds: seq<World>, id: string, i: nat, k: nat)
    requires i <= k < |worlds|
  {
    exists j :: i <= j < k && Lifts(worlds[j], worlds[j + 1], id)
  }

  lemma DiskStep(w: World, e: Event, after: World)
    requires InStep(w) && Next(w, e, after) && Decided(w, e) && FailsEarly(w, e, after)
    ensures InStep(after)
    ensures Identities(OnDisk(w)) <= Identities(OnDisk(after))
    ensures forall id :: id in OnDisk(w).tombstones && !Lifts(w, after, id) ==> id in OnDisk(after).tombstones
    ensures OnDisk(after).generation ==
            if Lands(w, after) && OnDisk(w).generation < MAX_U64 then OnDisk(w).generation + 1 else OnDisk(w).generation
  {
    InStepStays(w, e, after);
    if Read(after.disk) != Read(w.disk) {
      var s := w.session.value.state;
      var change :| Decide(s, change) == Publish(OnDisk(after));
      IdentitiesConserved(s, change);
      DecideTicks(s, change);
      assert s.observed == OnDisk(w).observed && s.tombstones == OnDisk(w).tombstones && s.generation == OnDisk(w).generation;
      forall id | id in OnDisk(w).tombstones && id !in OnDisk(after).tombstones
        ensures Lifts(w, after, id)
      {
        assert Resurrects(change, id);
      }
    }
  }

  lemma {:induction false} InStepRun(worlds: seq<World>, events: seq<Event>, k: nat)
    requires IsRun(worlds, events) && k < |worlds|
    requires forall j :: 0 <= j < |events| ==> OrdinaryAt(worlds, events, j)
    ensures InStep(worlds[k])
  {
    if k == 0 {
      InitialIsValid();
      assert Versions(BlankDisk) == {Absent};
    } else {
      InStepRun(worlds, events, k - 1);
      assert StepAt(worlds, events, k - 1) && OrdinaryAt(worlds, events, k - 1);
      InStepStays(worlds[k - 1], events[k - 1], worlds[k]);
    }
  }

  /** Over every life in which no commit fails after its rename, whatever crashes cut off or undo:
      the disk forgets no identity, a tombstone goes only by a resurrection, and the generation
      counts the times that the disk changed. */
  lemma {:induction false} DiskRemembers(worlds: seq<World>, events: seq<Event>, i: nat, k: nat)
    requires IsRun(worlds, events) && i <= k < |worlds|
    requires forall j :: 0 <= j < |events| ==> OrdinaryAt(worlds, events, j)
    ensures InStep(worlds[i]) && InStep(worlds[k])
    ensures Identities(OnDisk(worlds[i])) <= Identities(OnDisk(worlds[k]))
    ensures forall id :: id in OnDisk(worlds[i]).tombstones && !LiftedBetween(worlds, id, i, k) ==>
              id in OnDisk(worlds[k]).tombstones
    ensures var counted := OnDisk(worlds[i]).generation + Landings(worlds, i, k);
            OnDisk(worlds[k]).generation == if counted < MAX_U64 then counted else MAX_U64
    decreases k
  {
    InStepRun(worlds, events, i);
    if i < k {
      DiskRemembers(worlds, events, i, k - 1);
      assert StepAt(worlds, events, k - 1) && OrdinaryAt(worlds, events, k - 1);
      DiskStep(worlds[k - 1], events[k - 1], worlds[k]);
      forall id | id in OnDisk(worlds[i]).tombstones && !LiftedBetween(worlds, id, i, k)
        ensures id in OnDisk(worlds[k]).tombstones
      {
        assert !LiftedBetween(worlds, id, i, k - 1);
        assert !Lifts(worlds[k - 1], worlds[k], id);
      }
    }
  }

  /** A step in which the operation is applied. */
  ghost predicate Discharges(w: World, after: World, id: string) {
    w.session.Some? && Read(after.disk).Ok? &&
    exists change :: Decide(w.session.value.state, change) == Publish(OnDisk(after)) &&
                     change.Applying? && change.operationId == id
  }

  ghost predicate DischargedBetween(worlds: seq<World>, id: string, i: nat, k: nat)
    requires i <= k < |worlds|
  {
    exists j :: i <= j < k && Discharges(worlds[j], worlds[j + 1], id)
  }

  predicate HasOperation(s: State, id: string, operation: Operation) {
    id in s.pending && s.pending[id] == operation
  }

  lemma OperationStep(w: World, e: Event, after: World, id: string, operation: Operation)
    requires InStep(w) && Next(w, e, after) && Decided(w, e) && FailsEarly(w, e, after)
    requires HasOperation(OnDisk(w), id, operation) && !Discharges(w, after, id)
    ensures InStep(after) && HasOperation(OnDisk(after), id, operation)
  {
    hide Decide;
    InStepStays(w, e, after);
    if Read(after.disk) != Read(w.disk) {
      var s := w.session.value.state;
      var change :| Decide(s, change) == Publish(OnDisk(after));
      assert s.pending == OnDisk(w).pending;
      PendingIs(s, change);
    }
  }

  /** Over every such life: an operation that is pending on disk stays there, as it is, until it is applied. */
  lemma {:induction false} DiskKeepsOperation(worlds: seq<World>, events: seq<Event>, i: nat, k: nat, id: string, operation: Operation)
    requires IsRun(worlds, events) && i <= k < |worlds|
    requires forall j :: 0 <= j < |events| ==> OrdinaryAt(worlds, events, j)
    requires InStep(worlds[i]) && HasOperation(OnDisk(worlds[i]), id, operation) && !DischargedBetween(worlds, id, i, k)
    ensures InStep(worlds[k]) && HasOperation(OnDisk(worlds[k]), id, operation)
    decreases k
  {
    hide InStep, Next, Decided, FailsEarly, Discharges, HasOperation;
    if i < k {
      DiskKeepsOperation(worlds, events, i, k - 1, id, operation);
      assert StepAt(worlds, events, k - 1) && OrdinaryAt(worlds, events, k - 1);
      OperationStep(worlds[k - 1], events[k - 1], worlds[k], id, operation);
    }
  }

  /** An acknowledged enqueueing is never lost: whatever crashes come, the operation is pending on
      disk until it is applied. */
  lemma EnqueuedIsKept(worlds: seq<World>, events: seq<Event>, i: nat, k: nat, operation: Operation)
    requires IsRun(worlds, events) && i < k < |worlds|
    requires forall j :: 0 <= j < |events| ==> OrdinaryAt(worlds, events, j)
    requires worlds[i].session.Some? && events[i].Publishing? && events[i].acknowledged &&
             Decide(worlds[i].session.value.state, Enqueueing(operation)) == Publish(events[i].candidate)
    requires !DischargedBetween(worlds, operation.operationId, i + 1, k)
    ensures InStep(worlds[k]) && HasOperation(OnDisk(worlds[k]), operation.operationId, operation)
  {
    InStepRun(worlds, events, i + 1);
    assert StepAt(worlds, events, i);
    PendingIs(worlds[i].session.value.state, Enqueueing(operation));
    hide Decide, InStep, Next;
    DiskKeepsOperation(worlds, events, i + 1, k, operation.operationId, operation);
  }

  // ----- the calls of a store are these steps -----------------------------

  function WorldOf(now: Snapshot): World {
    World(now.disk, Some(Session(now.state, now.recovered)))
  }

  /** The world after a crash at `point` that leaves `primary`. */
  function Crashed(point: Disk, primary: File): World {
    World(Disk(point.temporary, primary, {}, point.backup), None)
  }

  /** A publication is one step, and every moment on its way is the point of a crash. */
  ghost predicate IsPublication(before: Snapshot, saves: bool, candidate: State, r: Result<(), StoreError>, after: Snapshot) {
    Next(WorldOf(before), Publishing(candidate, saves, r.Ok?), WorldOf(after)) &&
    forall d, primary :: d in after.seen && d !in before.seen && primary in Versions(d) ==>
      Next(WorldOf(before), Crash(candidate, saves, d), Crashed(d, primary))
  }

  lemma AttemptedIsStep(before: Snapshot, saves: bool, candidate: State, r: Result<(), StoreError>, after: Snapshot)
    requires Attempts(WorldOf(before), candidate, saves) && Attempted(before, saves, candidate, r, after)
    requires after.state == if r.Ok? then candidate else before.state
    ensures IsPublication(before, saves, candidate, r, after)
  {
  }

  /** Every transaction of a store is a step of a life, or changes nothing at all. */
  lemma CarriedIsStep(before: Snapshot, change: Change, r: Result<(), StoreError>, after: Snapshot)
    requires ValidState(before.state) && Carried(before, change, r, after)
    ensures match Decide(before.state, change)
            case Publish(candidate) =>
              IsPublication(before, Copies(before.disk, before.recovered), candidate, r, after) &&
              DecidesTo(WorldOf(before), candidate)
            case _ => after == before
  {
    DecideKeepsValid(before.state, change);
    match Decide(before.state, change)
    case Publish(candidate) => AttemptedIsStep(before, Copies(before.disk, before.recovered), candidate, r, after);
    case _ =>
  }

  lemma RestoredIsStep(before: Snapshot, export_: Export, r: Result<(), StoreError>, after: Snapshot)
    requires Restored(before, export_, r, after)
    ensures after == before || IsPublication(before, false, export_.payload, r, after)
  {
    if ValidateExport(export_).Ok? && export_.payload.scope == before.state.scope {
      ValidateMeansValid(export_.payload);
      AttemptedIsStep(before, false, export_.payload, r, after);
    }
  }

  /** Opening a free lock is the step that the files and the scope determine; closing gives the lock back. */
  lemma OpenedIsStep(d: Disk, expected: Option<Scope>, r: Result<(State, bool), StoreError>, locked: bool)
    requires Opened(d, false, expected, r, locked)
    ensures expected.Some? && !ScopeOk(expected.value) ==> r.Err? && !locked
    ensures (expected.Some? ==> ScopeOk(expected.value)) ==>
              Next(World(d, None), Start(expected), if r.Ok? then WorldOf(Snapshot(r.value.0, r.value.1, d, {})) else World(d, None))
    ensures r.Ok? <==> locked
    ensures r.Ok? ==> Next(WorldOf(Snapshot(r.value.0, r.value.1, d, {})), Stop, World(d, None))
  {
  }
}
