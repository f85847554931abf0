/** The audit writer: any number of concurrent appends, a bounded queue, and one worker on the journal. */
module AuditWriter {
  import opened Wrappers
  import opened AuditJournal

  datatype Answer = Persisted(sequence: nat) | Refused

  /** One call of `append`: not begun, counted as accepted, waiting in the queue, or answered. */
  datatype Phase = Begin | Counted | Queued | Done(answer: Answer)

  datatype Client = Client(event: string, phase: Phase)

  datatype Health = Health(accepted: nat, persisted: nat, failed: nat, queued: nat, lastSequence: Option<nat>)

  datatype System = System(clients: seq<Client>, queue: seq<nat>, capacity: nat, journal: Journal, health: Health)

  function Start(events: seq<string>, capacity: nat, journal: Journal): System {
    System(seq(|events|, i requires 0 <= i < |events| => Client(events[i], Begin)), [], capacity, journal,
           Health(0, 0, 0, 0, None))
  }

  datatype Step =
    | Count(client: nat)
    | Send(client: nat)
    /** The worker takes the first queued event; a failed write may have reached the disk all the same. */
    | Work(failed: bool, written: bool)

  predicate Enabled(s: System, step: Step) {
    match step
    case Count(i) => i < |s.clients| && s.clients[i].phase == Begin
    case Send(i) => i < |s.clients| && s.clients[i].phase == Counted && |s.queue| < s.capacity
    case Work(failed, written) =>
      s.queue != [] && s.queue[0] < |s.clients| && Appended(s.journal, s.clients[s.queue[0]].event).Ok?
  }

  function SetPhase(s: System, i: nat, phase: Phase): seq<Client>
    requires i < |s.clients|
  {
    s.clients[i := s.clients[i].(phase := phase)]
  }

  function Take(s: System, step: Step): System
    requires Enabled(s, step)
  {
    match step
    case Count(i) =>
      s.(clients := SetPhase(s, i, Counted),
         health := s.health.(accepted := s.health.accepted + 1, queued := s.health.queued + 1))
    case Send(i) => s.(clients := SetPhase(s, i, Queued), queue := s.queue + [i])
    case Work(failed, written) =>
      var i := s.queue[0];
      var (journal, sequence) := Appended(s.journal, s.clients[i].event).value;
      var queued := if s.health.queued > 0 then s.health.queued - 1 else 0;
      if failed then
        s.(clients := SetPhase(s, i, Done(Refused)), queue := s.queue[1..],
           journal := if written then journal else s.journal,
           health := s.health.(failed := s.health.failed + 1, queued := queued))
      else
        s.(clients := SetPhase(s, i, Done(Persisted(sequence))), queue := s.queue[1..], journal := journal,
           health := s.health.(persisted := s.health.persisted + 1, queued := queued, lastSequence := Some(sequence)))
  }

  // ----- the invariant ----------------------------------------------------

  /** The callers that the health figures count. */
  datatype Group = Accepted | Sending | Kept | Turned

  predicate In(c: Client, g: Group) {
    match g
    case Accepted => c.phase != Begin
    case Sending => c.phase == Counted
    case Kept => IsPersisted(c)
    case Turned => c.phase == Done(Refused)
  }

  function Tally(clients: seq<Client>, g: Group): nat {
    if clients == [] then 0
    else Tally(clients[..|clients| - 1], g) + (if In(clients[|clients| - 1], g) then 1 else 0)
  }

  lemma {:induction false} TallyChanges(clients: seq<Client>, i: nat, c: Client, g: Group)
    requires i < |clients|
    ensures Tally(clients[i := c], g) == Tally(clients, g) - (if In(clients[i], g) then 1 else 0) + (if In(c, g) then 1 else 0)
  {
    hide In;
    var n := |clients| - 1;
    if i == n {
      assert clients[i := c][..n] == clients[..n];
    } else {
      assert clients[i := c][..n] == clients[..n][i := c];
      TallyChanges(clients[..n], i, c, g);
    }
  }

  lemma AllChange(clients: seq<Client>, i: nat, c: Client)
    requires i < |clients|
    ensures forall g :: Tally(clients[i := c], g) ==
              Tally(clients, g) - (if In(clients[i], g) then 1 else 0) + (if In(c, g) then 1 else 0)
  {
    forall g ensures Tally(clients[i := c], g) ==
              Tally(clients, g) - (if In(clients[i], g) then 1 else 0) + (if In(c, g) then 1 else 0) {
      TallyChanges(clients, i, c, g);
    }
  }

  predicate Distinct(queue: seq<nat>) {
    forall a, b :: 0 <= a < b < |queue| ==> queue[a] != queue[b]
  }

  /** The clients in the queue are those that have sent and wait. */
  predicate QueueOk(s: System) {
    Distinct(s.queue) && |s.queue| <= s.capacity &&
    (forall k :: 0 <= k < |s.queue| ==> s.queue[k] < |s.clients| && s.clients[s.queue[k]].phase == Queued) &&
    forall i :: 0 <= i < |s.clients| && s.clients[i].phase == Queued ==> i in s.queue
  }

  /** Every accepted event is waiting, persisted or failed; each figure counts exactly the callers it
      is about, and the last number is the greatest that a caller was told. */
  predicate HealthOk(s: System) {
    s.health.accepted == s.health.queued + s.health.persisted + s.health.failed &&
    s.health.accepted == Tally(s.clients, Accepted) && s.health.queued == Tally(s.clients, Sending) + |s.queue| &&
    s.health.persisted == Tally(s.clients, Kept) && s.health.failed == Tally(s.clients, Turned)
  }

  ghost predicate LastOk(s: System) {
    match s.health.lastSequence
    case None => forall i :: 0 <= i < |s.clients| ==> !IsPersisted(s.clients[i])
    case Some(n) =>
      n <= |Contents(s.journal)| &&
      (exists i :: 0 <= i < |s.clients| && s.clients[i].phase == Done(Persisted(n))) &&
      forall i :: 0 <= i < |s.clients| && IsPersisted(s.clients[i]) ==> s.clients[i].phase.answer.sequence <= n
  }

  predicate IsPersisted(c: Client) {
    c.phase.Done? && c.phase.answer.Persisted?
  }

  /** A persisted event is in the journal at the number that its caller was told. */
  ghost predicate Told(s: System, i: nat)
    requires i < |s.clients|
  {
    var c := s.clients[i];
    IsPersisted(c) ==>
      var n := c.phase.answer.sequence;
      1 <= n <= |Contents(s.journal)| && Contents(s.journal)[n - 1] == Record(n, c.event)
  }

  predicate NumbersDiffer(s: System) {
    forall i, j :: 0 <= i < j < |s.clients| && IsPersisted(s.clients[i]) && IsPersisted(s.clients[j]) ==>
      s.clients[i].phase.answer.sequence != s.clients[j].phase.answer.sequence
  }

  ghost predicate Ok(s: System) {
    Valid(s.journal) && QueueOk(s) && HealthOk(s) && LastOk(s) && NumbersDiffer(s) &&
    forall i :: 0 <= i < |s.clients| ==> Told(s, i)
  }

  lemma {:induction false} NobodyCounted(clients: seq<Client>, g: Group)
    requires forall i :: 0 <= i < |clients| ==> clients[i].phase == Begin
    ensures Tally(clients, g) == 0
  {
    if clients != [] {
      NobodyCounted(clients[..|clients| - 1], g);
    }
  }

  lemma StartIsOk(events: seq<string>, capacity: nat, journal: Journal)
    requires Valid(journal)
    ensures Ok(Start(events, capacity, journal))
  {
    forall g ensures Tally(Start(events, capacity, journal).clients, g) == 0 {
      NobodyCounted(Start(events, capacity, journal).clients, g);
    }
  }

  lemma SubmitKeepsQueue(s: System, step: Step)
    requires QueueOk(s) && Enabled(s, step) && !step.Work?
    ensures QueueOk(Take(s, step))
  {
    var next, i := Take(s, step), step.client;
    forall k | 0 <= k < |s.queue| ensures s.queue[k] != i && next.queue[k] == s.queue[k] {
    }
    forall k | 0 <= k < |next.clients| && next.clients[k].phase == Queued ensures k in next.queue {
      if k == i {
        assert next.queue[|next.queue| - 1] == i;
      }
    }
  }

  lemma SubmitKeepsLast(s: System, step: Step)
    requires LastOk(s) && Enabled(s, step) && !step.Work?
    ensures LastOk(Take(s, step))
  {
    hide Contents;
    var next, i := Take(s, step), step.client;
    assert forall k :: 0 <= k < |s.clients| && k != i ==> next.clients[k] == s.clients[k];
    if s.health.lastSequence.Some? {
      var n := s.health.lastSequence.value;
      var k :| 0 <= k < |s.clients| && s.clients[k].phase == Done(Persisted(n));
      assert next.clients[k].phase == Done(Persisted(n));
    }
  }

  lemma NumbersStay(s: System, next: System, i: nat)
    requires NumbersDiffer(s) && i < |s.clients| && |next.clients| == |s.clients| && !IsPersisted(next.clients[i])
    requires forall k :: 0 <= k < |s.clients| && k != i ==> next.clients[k] == s.clients[k]
    ensures NumbersDiffer(next)
  {
  }

  lemma SubmitKeepsOk(s: System, step: Step)
    requires Ok(s) && Enabled(s, step) && !step.Work?
    ensures Ok(Take(s, step))
  {
    hide AllRecords, SegmentRecords, ActiveRecords, Contents, QueueOk;
    var next, i := Take(s, step), step.client;
    SubmitKeepsQueue(s, step);
    AllChange(s.clients, i, next.clients[i]);
    assert next.clients == s.clients[i := next.clients[i]];
    SubmitKeepsLast(s, step);
    hide LastOk, Tally, NumbersDiffer;
    NumbersStay(s, next, i);
    forall k | 0 <= k < |next.clients| ensures Told(next, k) {
      assert Told(s, k);
    }
  }

  lemma QueueMoves(s: System, step: Step)
    requires QueueOk(s) && Enabled(s, step) && step.Work?
    ensures QueueOk(Take(s, step))
  {
    var next, i := Take(s, step), s.queue[0];
    assert s.queue == [i] + next.queue;
    forall k | 0 <= k < |next.queue|
      ensures next.queue[k] < |next.clients| && next.clients[next.queue[k]].phase == Queued
    {
      assert next.queue[k] == s.queue[k + 1] && s.queue[k + 1] != s.queue[0];
    }
    forall k | 0 <= k < |next.clients| && next.clients[k].phase == Queued ensures k in next.queue {
      assert k != i && s.clients[k].phase == Queued && k in s.queue;
    }
  }

  lemma WorkKeepsHealth(s: System, step: Step)
    requires HealthOk(s) && QueueOk(s) && Enabled(s, step) && step.Work?
    ensures HealthOk(Take(s, step))
  {
    hide Appended, Tally;
    var next, i := Take(s, step), s.queue[0];
    AllChange(s.clients, i, next.clients[i]);
    assert next.clients == s.clients[i := next.clients[i]];
  }

  lemma WorkKeepsLast(s: System, step: Step)
    requires Ok(s) && Enabled(s, step) && step.Work? && |Contents(s.journal)| + 1 < MAX_U64
    ensures LastOk(Take(s, step))
  {
    hide AllRecords, Appended, SegmentRecords, ActiveRecords, Contents, HealthOk, Valid;
    var next, i := Take(s, step), s.queue[0];
    AppendAdds(s.journal, s.clients[i].event);
    assert forall k :: 0 <= k < |s.clients| && k != i ==> next.clients[k] == s.clients[k];
    if step.failed && s.health.lastSequence.Some? {
      var n := s.health.lastSequence.value;
      var k :| 0 <= k < |s.clients| && s.clients[k].phase == Done(Persisted(n));
      assert next.clients[k].phase == Done(Persisted(n));
    }
    if !step.failed {
      assert next.clients[i].phase == Done(Persisted(|Contents(s.journal)| + 1));
      forall k | 0 <= k < |next.clients| && IsPersisted(next.clients[k])
        ensures next.clients[k].phase.answer.sequence <= |Contents(s.journal)| + 1
      {
        assert Told(s, k);
      }
    }
  }

  /** One turn of the worker: the event that was sent first is answered, with its number if it was
      written, and is in the journal exactly if the write reached it; everything else stays. */
  lemma WorkWrites(s: System, step: Step)
    requires Ok(s) && Enabled(s, step) && step.Work? && |Contents(s.journal)| + 1 < MAX_U64
    ensures var next, i, n := Take(s, step), s.queue[0], |Contents(s.journal)| + 1;
            next.queue == s.queue[1..] &&
            next.clients == s.clients[i := Client(s.clients[i].event, Done(if step.failed then Refused else Persisted(n)))] &&
            Contents(next.journal) ==
            if step.failed && !step.written then Contents(s.journal)
            else Contents(s.journal) + [Record(n, s.clients[i].event)]
  {
    hide AllRecords, Appended, SegmentRecords, ActiveRecords, Contents, HealthOk, Valid;
    AppendAdds(s.journal, s.clients[s.queue[0]].event);
  }

  lemma WorkKeepsNumbers(s: System, step: Step)
    requires Ok(s) && Enabled(s, step) && step.Work? && |Contents(s.journal)| + 1 < MAX_U64
    ensures NumbersDiffer(Take(s, step)) && Valid(Take(s, step).journal)
    ensures forall k :: 0 <= k < |s.clients| ==> Told(Take(s, step), k)
    ensures !step.failed ==>
              Take(s, step).clients[s.queue[0]].phase == Done(Persisted(|Contents(s.journal)| + 1))
  {
    hide AllRecords, Appended, SegmentRecords, ActiveRecords, Contents, HealthOk;
    var next, i := Take(s, step), s.queue[0];
    AppendAdds(s.journal, s.clients[i].event);
    forall k | 0 <= k < |next.clients| ensures Told(next, k) {
      assert Told(s, k);
    }
    forall a, b | 0 <= a < b < |next.clients| && IsPersisted(next.clients[a]) && IsPersisted(next.clients[b])
      ensures next.clients[a].phase.answer.sequence != next.clients[b].phase.answer.sequence
    {
      assert Told(s, a) && Told(s, b);
    }
  }

  /** The worker answers with the number at which it put the event. */
  lemma WorkKeepsOk(s: System, step: Step)
    requires Ok(s) && Enabled(s, step) && step.Work? && |Contents(s.journal)| + 1 < MAX_U64
    ensures Ok(Take(s, step))
  {
    hide AllRecords, Appended, SegmentRecords, ActiveRecords, Contents, HealthOk, QueueOk, NumbersDiffer, LastOk;
    assert QueueOk(s) && HealthOk(s);
    WorkKeepsLast(s, step);
    QueueMoves(s, step);
    WorkKeepsHealth(s, step);
    WorkKeepsNumbers(s, step);
  }

  // ----- runs -------------------------------------------------------------

  predicate CanRun(s: System, steps: seq<Step>)
    decreases |steps|
  {
    steps == [] || (Enabled(s, steps[0]) && CanRun(Take(s, steps[0]), steps[1..]))
  }

  function Run(s: System, steps: seq<Step>): System
    requires CanRun(s, steps)
    decreases |steps|
  {
    if steps == [] then s else Run(Take(s, steps[0]), steps[1..])
  }

  lemma ContentsGrow(s: System, step: Step)
    requires Ok(s) && Enabled(s, step) && |Contents(s.journal)| + 1 < MAX_U64
    ensures |Contents(Take(s, step).journal)| <= |Contents(s.journal)| + 1
    ensures Contents(s.journal) <= Contents(Take(s, step).journal)
  {
    if step.Work? {
      AppendAdds(s.journal, s.clients[s.queue[0]].event);
    }
  }

  /** Under every interleaving of callers and worker: each accepted event is counted once as waiting,
      persisted or failed, the queue stays within its capacity, and every number that was returned
      names the caller's own event in the journal and no other caller's. */
  lemma {:induction false} EveryRunIsOk(s: System, steps: seq<Step>)
    requires Ok(s) && CanRun(s, steps) && |Contents(s.journal)| + |steps| < MAX_U64
    ensures Ok(Run(s, steps))
    decreases |steps|
  {
    if steps != [] {
      hide AllRecords, Appended, SegmentRecords, ActiveRecords, Contents;
      ContentsGrow(s, steps[0]);
      if steps[0].Work? {
        WorkKeepsOk(s, steps[0]);
      } else {
        SubmitKeepsOk(s, steps[0]);
      }
      EveryRunIsOk(Take(s, steps[0]), steps[1..]);
    }
  }

  /** One caller's event was sent before another's, and what has become of both. */
  ghost predicate SentBefore(s: System, a: nat, b: nat) {
    a < |s.clients| && b < |s.clients| && a != b &&
    match (s.clients[a].phase, s.clients[b].phase)
    case (Queued, Queued) => exists x, y :: 0 <= x < y < |s.queue| && s.queue[x] == a && s.queue[y] == b
    case (Done(answer), Queued) => answer.Persisted? ==> answer.sequence <= |Contents(s.journal)|
    case (Done(first), Done(second)) => first.Persisted? && second.Persisted? ==> first.sequence < second.sequence
    case _ => false
  }

  lemma WorkKeepsSent(s: System, step: Step, a: nat, b: nat)
    requires Ok(s) && Enabled(s, step) && step.Work? && |Contents(s.journal)| + 1 < MAX_U64 && SentBefore(s, a, b)
    ensures SentBefore(Take(s, step), a, b)
  {
    hide AllRecords, Appended, SegmentRecords, ActiveRecords, Contents, Valid, Take, HealthOk, LastOk, NumbersDiffer, Told;
    var next := Take(s, step);
    WorkWrites(s, step);
    var i := s.queue[0];
    assert s.clients[i].phase == Queued && forall k :: 0 < k < |s.queue| ==> s.queue[k] != i;
    hide Ok, QueueOk, Enabled;
    if s.clients[a].phase == Queued {
      var x, y :| 0 <= x < y < |s.queue| && s.queue[x] == a && s.queue[y] == b;
      if x > 0 {
        assert next.queue[x - 1] == a && next.queue[y - 1] == b;
      }
    }
  }

  lemma SubmitKeepsSent(s: System, step: Step, a: nat, b: nat)
    requires Enabled(s, step) && !step.Work? && SentBefore(s, a, b)
    ensures SentBefore(Take(s, step), a, b)
  {
    hide Contents;
    var next := Take(s, step);
    if s.clients[a].phase == Queued {
      var x, y :| 0 <= x < y < |s.queue| && s.queue[x] == a && s.queue[y] == b;
      assert next.queue[x] == a && next.queue[y] == b;
    }
  }

  /** Over every run: of two events that were written, the one that was sent first has the smaller number. */
  lemma {:induction false} SentOrderIsNumberOrder(s: System, steps: seq<Step>, a: nat, b: nat)
    requires Ok(s) && CanRun(s, steps) && |Contents(s.journal)| + |steps| < MAX_U64 && SentBefore(s, a, b)
    ensures SentBefore(Run(s, steps), a, b)
    decreases |steps|
  {
    if steps != [] {
      hide AllRecords, Appended, SegmentRecords, ActiveRecords, Contents, Ok, SentBefore, Enabled, Take;
      if steps[0].Work? {
        WorkKeepsSent(s, steps[0], a, b);
      } else {
        SubmitKeepsSent(s, steps[0], a, b);
      }
      OneStep(s, steps[0]);
      SentOrderIsNumberOrder(Take(s, steps[0]), steps[1..], a, b);
    }
  }

  lemma OneStep(s: System, step: Step)
    requires Ok(s) && Enabled(s, step) && |Contents(s.journal)| + 1 < MAX_U64
    ensures Ok(Take(s, step)) && |Contents(Take(s, step).journal)| <= |Contents(s.journal)| + 1
  {
    hide AllRecords, Appended, SegmentRecords, ActiveRecords, Contents;
    ContentsGrow(s, step);
    if step.Work? {
      WorkKeepsOk(s, step);
    } else {
      SubmitKeepsOk(s, step);
    }
  }

  /** While a caller has no answer, somebody can go on; a positive capacity is all it takes. */
  lemma NeverStuck(s: System, i: nat)
    requires Ok(s) && s.capacity > 0 && i < |s.clients| && !s.clients[i].phase.Done?
    ensures exists step :: Enabled(s, step)
  {
    hide AllRecords, SegmentRecords, ActiveRecords, Contents, Told, NumbersDiffer, HealthOk;
    if s.queue != [] {
      AllRecordsAreContents(s.journal);
      WorkerReady(s);
    } else if s.clients[i].phase == Begin {
      assert Enabled(s, Count(i));
    } else {
      assert s.clients[i].phase != Queued;
      assert Enabled(s, Send(i));
    }
  }

  lemma WorkerReady(s: System)
    requires s.queue != [] && s.queue[0] < |s.clients|
    requires Valid(s.journal) && AllRecords(s.journal).Ok?
    ensures Enabled(s, Work(false, true))
  {
    hide AllRecords, SegmentRecords, Contents;
  }

  // ----- the work that is left --------------------------------------------

  /** The steps that one call still takes. */
  function StepsLeft(c: Client): nat {
    match c.phase
    case Begin => 3
    case Counted => 2
    case Queued => 1
    case Done(_) => 0
  }

  function WorkLeft(clients: seq<Client>): nat {
    if clients == [] then 0 else WorkLeft(clients[..|clients| - 1]) + StepsLeft(clients[|clients| - 1])
  }

  lemma {:induction false} WorkChanges(clients: seq<Client>, i: nat, c: Client)
    requires i < |clients|
    ensures WorkLeft(clients[i := c]) == WorkLeft(clients) - StepsLeft(clients[i]) + StepsLeft(c)
  {
    var n := |clients| - 1;
    if i == n {
      assert clients[i := c][..n] == clients[..n];
    } else {
      assert clients[i := c][..n] == clients[..n][i := c];
      WorkChanges(clients[..n], i, c);
    }
  }

  lemma {:induction false} FreshWork(clients: seq<Client>)
    requires forall i :: 0 <= i < |clients| ==> clients[i].phase == Begin
    ensures WorkLeft(clients) == 3 * |clients|
  {
    if clients != [] {
      FreshWork(clients[..|clients| - 1]);
    }
  }

  /** Every step, of a caller or of the worker, failed or not, does one unit of the work. */
  lemma StepWorks(s: System, step: Step)
    requires QueueOk(s) && Enabled(s, step)
    ensures WorkLeft(s.clients) == WorkLeft(Take(s, step).clients) + 1
    ensures Take(s, step).capacity == s.capacity && |Take(s, step).clients| == |s.clients|
  {
    hide Appended, WorkLeft;
    var next := Take(s, step);
    var i := match step case Count(i) => i case Send(i) => i case Work(_, _) => s.queue[0];
    WorkChanges(s.clients, i, next.clients[i]);
    assert next.clients == s.clients[i := next.clients[i]];
  }

  lemma {:induction false} RunWorks(s: System, steps: seq<Step>)
    requires Ok(s) && CanRun(s, steps) && |Contents(s.journal)| + WorkLeft(s.clients) < MAX_U64
    ensures WorkLeft(s.clients) == WorkLeft(Run(s, steps).clients) + |steps|
    ensures Run(s, steps).capacity == s.capacity && |Run(s, steps).clients| == |s.clients|
    ensures Ok(Run(s, steps))
    decreases |steps|
  {
    if steps != [] {
      hide AllRecords, Appended, SegmentRecords, ActiveRecords, Contents, WorkLeft, Ok, Enabled, Take;
      StepStaysOk(s, steps[0]);
      RunWorks(Take(s, steps[0]), steps[1..]);
    }
  }

  lemma StepStaysOk(s: System, step: Step)
    requires Ok(s) && Enabled(s, step) && |Contents(s.journal)| + WorkLeft(s.clients) < MAX_U64
    ensures var next := Take(s, step);
            Ok(next) && WorkLeft(s.clients) == WorkLeft(next.clients) + 1 && next.capacity == s.capacity &&
            |next.clients| == |s.clients| && |Contents(next.journal)| + WorkLeft(next.clients) < MAX_U64
  {
    hide AllRecords, Appended, SegmentRecords, ActiveRecords, Contents, WorkLeft;
    StepWorks(s, step);
    ContentsGrow(s, step);
    if step.Work? {
      WorkKeepsOk(s, step);
    } else {
      SubmitKeepsOk(s, step);
    }
  }

  predicate AllAnswered(clients: seq<Client>) {
    forall i :: 0 <= i < |clients| ==> clients[i].phase.Done?
  }

  lemma {:induction false} NoWorkLeft(clients: seq<Client>)
    ensures WorkLeft(clients) == 0 <==> AllAnswered(clients)
  {
    if clients != [] {
      var n := |clients| - 1;
      NoWorkLeft(clients[..n]);
      assert forall i :: 0 <= i < n ==> clients[i] == clients[..n][i];
    }
  }

  lemma EnabledIsUnanswered(s: System, step: Step)
    requires QueueOk(s) && Enabled(s, step)
    ensures !AllAnswered(s.clients)
  {
    var i := match step case Count(i) => i case Send(i) => i case Work(_, _) => s.queue[0];
    assert !s.clients[i].phase.Done?;
  }

  /** No run is longer than the work there was, and a run that cannot go on, which is one that did it
      all, has answered every caller. */
  lemma EveryRunFinishes(s: System, steps: seq<Step>)
    requires Ok(s) && s.capacity > 0 && |Contents(s.journal)| + WorkLeft(s.clients) < MAX_U64
    requires CanRun(s, steps)
    ensures |steps| <= WorkLeft(s.clients)
    ensures (forall step :: !Enabled(Run(s, steps), step)) <==> |steps| == WorkLeft(s.clients)
    ensures |steps| == WorkLeft(s.clients) <==> AllAnswered(Run(s, steps).clients)
  {
    hide AllRecords, SegmentRecords, ActiveRecords, Contents, WorkLeft, Appended, CanRun, Run, Told, HealthOk, NumbersDiffer, Enabled;
    RunWorks(s, steps);
    var last := Run(s, steps);
    NoWorkLeft(last.clients);
    if AllAnswered(last.clients) {
      forall step ensures !Enabled(last, step) {
        if Enabled(last, step) {
          EnabledIsUnanswered(last, step);
        }
      }
    } else {
      var i :| 0 <= i < |last.clients| && !last.clients[i].phase.Done?;
      NeverStuck(last, i);
    }
  }

  /** From the start that is three steps a caller: counted, sent, answered. */
  lemma StartFinishes(events: seq<string>, capacity: nat, journal: Journal, steps: seq<Step>)
    requires Valid(journal) && capacity > 0 && |Contents(journal)| + 3 * |events| < MAX_U64
    requires CanRun(Start(events, capacity, journal), steps)
    ensures |steps| <= 3 * |events|
    ensures |steps| == 3 * |events| <==> AllAnswered(Run(Start(events, capacity, journal), steps).clients)
  {
    StartIsOk(events, capacity, journal);
    FreshWork(Start(events, capacity, journal).clients);
    EveryRunFinishes(Start(events, capacity, journal), steps);
  }
}
