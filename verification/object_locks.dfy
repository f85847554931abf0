/** Per-object locks taken in one canonical order, as a protocol of any number of threads. */
module ObjectLocks {
  import opened Wrappers
  import opened Text

  // ----- canonical order --------------------------------------------------

  predicate Ascending(keys: seq<string>) {
    forall i, j :: 0 <= i < j < |keys| ==> AtMost(keys[i], keys[j])
  }

  function Insert(key: string, sorted: seq<string>): seq<string> {
    if sorted == [] then [key]
    else if AtMost(key, sorted[0]) then [key] + sorted
    else [sorted[0]] + Insert(key, sorted[1..])
  }

  function Sort(keys: seq<string>): seq<string> {
    if keys == [] then [] else Insert(keys[0], Sort(keys[1..]))
  }

  /** Drops every key equal to the one before it. */
  function Dedup(keys: seq<string>): seq<string> {
    if |keys| < 2 then keys
    else if keys[0] == keys[1] then Dedup(keys[1..])
    else [keys[0]] + Dedup(keys[1..])
  }

  function CanonicalOrder(keys: seq<string>): seq<string> {
    Dedup(Sort(keys))
  }

  lemma {:induction false} InsertKeepsOrder(key: string, sorted: seq<string>)
    requires Ascending(sorted)
    ensures Ascending(Insert(key, sorted))
    ensures forall k :: k in Insert(key, sorted) <==> k == key || k in sorted
  {
    if sorted != [] {
      LessTrichotomy(key, sorted[0]);
      var rest := sorted[1..];
      assert sorted == [sorted[0]] + rest;
      if AtMost(key, sorted[0]) {
        forall k | k in sorted ensures AtMost(key, k) {
          if key != sorted[0] && sorted[0] != k {
            LessTransitive(key, sorted[0], k);
          }
        }
      } else {
        InsertKeepsOrder(key, rest);
        forall k | k in Insert(key, rest) ensures AtMost(sorted[0], k) {
        }
      }
    }
  }

  lemma {:induction false} SortSorts(keys: seq<string>)
    ensures Ascending(Sort(keys))
    ensures forall k :: k in Sort(keys) <==> k in keys
  {
    if keys != [] {
      SortSorts(keys[1..]);
      InsertKeepsOrder(keys[0], Sort(keys[1..]));
      assert keys == [keys[0]] + keys[1..];
    }
  }

  lemma {:induction false} DedupStrict(keys: seq<string>)
    requires Ascending(keys)
    ensures StrictlySorted(Dedup(keys))
    ensures forall k :: k in Dedup(keys) <==> k in keys
    ensures keys != [] ==> Dedup(keys) != [] && Dedup(keys)[0] == keys[0]
  {
    if |keys| >= 2 {
      var rest := keys[1..];
      assert keys == [keys[0]] + rest;
      DedupStrict(rest);
      if keys[0] != keys[1] {
        assert Less(keys[0], rest[0]);
        forall k | k in Dedup(rest) ensures Less(keys[0], k) {
          assert k in rest;
          if k != rest[0] {
            LessTransitive(keys[0], rest[0], k);
          }
        }
      }
    }
  }

  /** The canonical order of a request: its keys, each once, ascending. */
  lemma CanonicalOrderIs(keys: seq<string>)
    ensures StrictlySorted(CanonicalOrder(keys))
    ensures forall k :: k in CanonicalOrder(keys) <==> k in keys
  {
    SortSorts(keys);
    DedupStrict(Sort(keys));
  }

  lemma HeadIsFirst(keys: seq<string>)
    requires StrictlySorted(keys) && keys != []
    ensures keys == [keys[0]] + keys[1..]
    ensures forall k :: k in keys[1..] <==> k in keys && k != keys[0]
  {
    LessTrichotomy(keys[0], keys[0]);
    forall k | k in keys[1..] ensures k != keys[0] {
      var j :| 0 < j < |keys| && keys[j] == k;
      assert Less(keys[0], keys[j]);
    }
  }

  lemma {:induction false} StrictlySortedIsUnique(a: seq<string>, b: seq<string>)
    requires StrictlySorted(a) && StrictlySorted(b) && forall k :: k in a <==> k in b
    ensures a == b
  {
    assert b != [] ==> b[0] in b;
    if a != [] {
      assert a[0] in b;
      assert b[0] in a;
      LessTrichotomy(a[0], b[0]);
      assert a[0] == b[0];
      HeadIsFirst(a);
      HeadIsFirst(b);
      StrictlySortedIsUnique(a[1..], b[1..]);
    }
  }

  /** Requests for the same keys, in any order and with repetitions, lock in the same order. */
  lemma SameKeysSameOrder(a: seq<string>, b: seq<string>)
    requires forall k :: k in a <==> k in b
    ensures CanonicalOrder(a) == CanonicalOrder(b)
  {
    CanonicalOrderIs(a);
    CanonicalOrderIs(b);
    StrictlySortedIsUnique(CanonicalOrder(a), CanonicalOrder(b));
  }

  // ----- the lock table ---------------------------------------------------

  /** Mutexes are numbered in the order in which their keys were first asked for. */
  function Registered(table: map<string, nat>, key: string): map<string, nat> {
    if key in table then table else table[key := |table|]
  }

  ghost predicate TableOk(table: map<string, nat>) {
    (forall k :: k in table ==> table[k] < |table|) &&
    forall j, k :: j in table && k in table && table[j] == table[k] ==> j == k
  }

  lemma RegisteredIsOk(table: map<string, nat>, key: string)
    requires TableOk(table)
    ensures TableOk(Registered(table, key)) && key in Registered(table, key)
    ensures forall k :: k in table ==> k in Registered(table, key) && Registered(table, key)[k] == table[k]
  {
    if key !in table {
      assert Registered(table, key).Keys == table.Keys + {key};
      assert |table.Keys + {key}| == |table.Keys| + 1;
    }
  }

  class LockTable {
    var locks: map<string, nat>

    constructor ()
      ensures locks == map[] && TableOk(locks)
    {
      locks := map[];
    }

    /** One mutex for a key, for ever. */
    method LockFor(key: string) returns (mutex: nat)
      requires TableOk(locks)
      modifies this
      ensures TableOk(locks) && locks == Registered(old(locks), key)
      ensures key in locks && mutex == locks[key]
      ensures forall k :: k in old(locks) ==> k in locks && locks[k] == old(locks)[k]
    {
      RegisteredIsOk(locks, key);
      if key !in locks {
        locks := locks[key := |locks|];
      }
      mutex := locks[key];
    }
  }

  // ----- threads ----------------------------------------------------------

  /** Where a thread stands: between calls, before the table, inside it, before the mutex of its
      next key, inside the operation, or letting go of its locks in reverse order. */
  datatype Stage = Ready | AtTable | InTable | AtMutex | Working | Releasing

  /** `program` lists the calls still to be made; `held` of the current call's keys are locked. */
  datatype Thread = Thread(program: seq<seq<string>>, request: seq<string>, keys: seq<string>, held: nat, stage: Stage)

  datatype System = System(threads: seq<Thread>, tableHolder: Option<nat>, table: map<string, nat>,
                           holders: map<nat, nat>)

  predicate Finished(t: Thread) {
    t.stage == Ready && t.program == []
  }

  function Start(programs: seq<seq<seq<string>>>): System {
    System(seq(|programs|, i requires 0 <= i < |programs| => Thread(programs[i], [], [], 0, Ready)), None, map[], map[])
  }

  function Advanced(t: Thread): Thread {
    t.(stage := if t.held == |t.keys| then Working else AtTable)
  }

  /** Whether thread `i` can take its next step now. */
  predicate Enabled(s: System, i: nat)
    requires i < |s.threads|
  {
    var t := s.threads[i];
    match t.stage
    case Ready => t.program != []
    case AtTable => s.tableHolder.None? && t.held < |t.keys|
    case InTable => t.held < |t.keys|
    case AtMutex => t.held < |t.keys| && t.keys[t.held] in s.table && s.table[t.keys[t.held]] !in s.holders
    case Working => true
    case Releasing => 0 < t.held <= |t.keys| && t.keys[t.held - 1] in s.table
  }

  function Step(s: System, i: nat): System
    requires i < |s.threads| && Enabled(s, i)
  {
    var t := s.threads[i];
    match t.stage
    case Ready =>
      var keys := CanonicalOrder(t.program[0]);
      s.(threads := s.threads[i := Advanced(Thread(t.program[1..], t.program[0], keys, 0, Ready))])
    case AtTable => s.(threads := s.threads[i := t.(stage := InTable)], tableHolder := Some(i))
    case InTable =>
      s.(threads := s.threads[i := t.(stage := AtMutex)], tableHolder := None,
         table := Registered(s.table, t.keys[t.held]))
    case AtMutex =>
      s.(threads := s.threads[i := Advanced(t.(held := t.held + 1))],
         holders := s.holders[s.table[t.keys[t.held]] := i])
    case Working => s.(threads := s.threads[i := t.(stage := if t.held == 0 then Ready else Releasing)])
    case Releasing =>
      s.(threads := s.threads[i := t.(held := t.held - 1, stage := if t.held == 1 then Ready else Releasing)],
         holders := s.holders - {s.table[t.keys[t.held - 1]]})
  }

  // ----- the invariant ----------------------------------------------------

  ghost predicate ThreadOk(t: Thread) {
    t.held <= |t.keys| && StrictlySorted(t.keys) && (forall k :: k in t.keys <==> k in t.request) &&
    match t.stage
    case Ready => t.held == 0
    case Working => t.held == |t.keys|
    case Releasing => t.held > 0
    case _ => t.held < |t.keys|
  }

  predicate Holds(t: Thread, key: string) {
    t.held <= |t.keys| && key in t.keys[..t.held]
  }

  ghost predicate Owns(s: System, i: nat)
    requires i < |s.threads| && ThreadOk(s.threads[i])
  {
    var t := s.threads[i];
    (forall key :: Holds(t, key) ==> key in s.table && s.table[key] in s.holders && s.holders[s.table[key]] == i) &&
    (t.stage == AtMutex ==> t.keys[t.held] in s.table) &&
    (t.stage == InTable <==> s.tableHolder == Some(i))
  }

  /** Every locked mutex is the mutex of a key that its holder has taken. */
  ghost predicate Accounted(s: System, m: nat)
    requires m in s.holders
  {
    s.holders[m] < |s.threads| &&
    exists key :: key in s.table && s.table[key] == m && Holds(s.threads[s.holders[m]], key)
  }

  ghost predicate Ok(s: System) {
    TableOk(s.table) &&
    (s.tableHolder.Some? ==> s.tableHolder.value < |s.threads|) &&
    (forall i :: 0 <= i < |s.threads| ==> ThreadOk(s.threads[i])) &&
    (forall i :: 0 <= i < |s.threads| ==> Owns(s, i)) &&
    forall m :: m in s.holders ==> Accounted(s, m)
  }

  lemma StartIsOk(programs: seq<seq<seq<string>>>)
    ensures Ok(Start(programs))
  {
  }

  /** No key ever has two holders. */
  lemma Exclusive(s: System, i: nat, j: nat, key: string)
    requires Ok(s) && i < |s.threads| && j < |s.threads|
    requires Holds(s.threads[i], key) && Holds(s.threads[j], key)
    ensures i == j
  {
    assert Owns(s, i) && Owns(s, j);
  }

  // ----- every step keeps the invariant -----------------------------------

  /** A step that changes no lock and no registration. */
  lemma QuietStepKeepsOk(s: System, i: nat)
    requires Ok(s) && i < |s.threads| && Enabled(s, i)
    requires s.threads[i].stage in {Ready, AtTable, Working}
    ensures Ok(Step(s, i))
  {
    var t, next := s.threads[i], Step(s, i);
    if t.stage == Ready {
      CanonicalOrderIs(t.program[0]);
    }
    assert Owns(s, i);
    forall j | 0 <= j < |next.threads| ensures ThreadOk(next.threads[j]) && Owns(next, j) {
      assert ThreadOk(s.threads[j]) && Owns(s, j);
    }
    forall m | m in next.holders ensures Accounted(next, m) {
      assert Accounted(s, m);
    }
  }

  lemma RegisterKeepsOk(s: System, i: nat)
    requires Ok(s) && i < |s.threads| && Enabled(s, i) && s.threads[i].stage == InTable
    ensures Ok(Step(s, i))
  {
    var t, next := s.threads[i], Step(s, i);
    RegisteredIsOk(s.table, t.keys[t.held]);
    assert Owns(s, i);
    forall j | 0 <= j < |next.threads| ensures ThreadOk(next.threads[j]) && Owns(next, j) {
      assert ThreadOk(s.threads[j]) && Owns(s, j);
    }
    forall m | m in next.holders ensures Accounted(next, m) {
      RegisterAccounts(s, i, m);
    }
  }

  lemma RegisterAccounts(s: System, i: nat, m: nat)
    requires Ok(s) && i < |s.threads| && Enabled(s, i) && s.threads[i].stage == InTable && m in s.holders
    ensures Accounted(Step(s, i), m)
  {
    hide Owns, ThreadOk;
    var t, next := s.threads[i], Step(s, i);
    RegisteredIsOk(s.table, t.keys[t.held]);
    assert Accounted(s, m);
    var key :| key in s.table && s.table[key] == m && Holds(s.threads[s.holders[m]], key);
    assert key in next.table && next.table[key] == m && Holds(next.threads[next.holders[m]], key);
  }

  lemma AcquireKeepsOk(s: System, i: nat)
    requires Ok(s) && i < |s.threads| && Enabled(s, i) && s.threads[i].stage == AtMutex
    ensures Ok(Step(s, i))
  {
    var t, next := s.threads[i], Step(s, i);
    var wanted := t.keys[t.held];
    var taken := s.table[wanted];
    assert t.keys[..t.held + 1] == t.keys[..t.held] + [wanted];
    assert Owns(s, i);
    forall j | 0 <= j < |next.threads| ensures ThreadOk(next.threads[j]) && Owns(next, j) {
      assert ThreadOk(s.threads[j]) && Owns(s, j);
      forall key | Holds(next.threads[j], key)
        ensures key in next.table && next.table[key] in next.holders && next.holders[next.table[key]] == j
      {
        if j == i && key == wanted {
        } else {
          assert Holds(s.threads[j], key);
        }
      }
    }
    forall m | m in next.holders ensures Accounted(next, m) {
      if m == taken {
        assert Holds(next.threads[i], wanted);
      } else {
        assert Accounted(s, m);
        var key :| key in s.table && s.table[key] == m && Holds(s.threads[s.holders[m]], key);
        assert Holds(next.threads[next.holders[m]], key);
      }
    }
  }

  /** Other threads keep what they hold, and the releasing thread keeps the rest. */
  lemma ReleaseOwns(s: System, i: nat, j: nat, key: string)
    requires Ok(s) && i < |s.threads| && Enabled(s, i) && s.threads[i].stage == Releasing
    requires j < |s.threads| && Holds(Step(s, i).threads[j], key)
    ensures Holds(s.threads[j], key) && key != s.threads[i].keys[s.threads[i].held - 1]
  {
    var t := s.threads[i];
    var last := t.keys[t.held - 1];
    assert t.keys[..t.held] == t.keys[..t.held - 1] + [last];
    assert Holds(t, last);
    LessTrichotomy(last, last);
    if j == i {
      assert ThreadOk(t);
      var k :| 0 <= k < t.held - 1 && t.keys[..t.held - 1][k] == key;
      assert Less(t.keys[k], last);
    } else if key == last {
      Exclusive(s, i, j, key);
    }
  }

  lemma ReleaseThread(s: System, i: nat, j: nat)
    requires Ok(s) && i < |s.threads| && Enabled(s, i) && s.threads[i].stage == Releasing && j < |s.threads|
    ensures ThreadOk(Step(s, i).threads[j]) && Owns(Step(s, i), j)
  {
    var next := Step(s, i);
    assert ThreadOk(s.threads[j]) && Owns(s, j) && Owns(s, i);
    forall key | Holds(next.threads[j], key)
      ensures key in next.table && next.table[key] in next.holders && next.holders[next.table[key]] == j
    {
      ReleaseOwns(s, i, j, key);
    }
  }

  lemma ReleaseKeepsOk(s: System, i: nat)
    requires Ok(s) && i < |s.threads| && Enabled(s, i) && s.threads[i].stage == Releasing
    ensures Ok(Step(s, i))
  {
    var t, next := s.threads[i], Step(s, i);
    var last := t.keys[t.held - 1];
    assert t.keys[..t.held] == t.keys[..t.held - 1] + [last];
    forall j | 0 <= j < |next.threads| ensures ThreadOk(next.threads[j]) && Owns(next, j) {
      ReleaseThread(s, i, j);
    }
    forall m | m in next.holders ensures Accounted(next, m) {
      assert Accounted(s, m);
      var key :| key in s.table && s.table[key] == m && Holds(s.threads[s.holders[m]], key);
      assert Holds(next.threads[next.holders[m]], key);
    }
  }

  lemma StepKeepsOk(s: System, i: nat)
    requires Ok(s) && i < |s.threads| && Enabled(s, i)
    ensures Ok(Step(s, i))
  {
    match s.threads[i].stage
    case Ready => QuietStepKeepsOk(s, i);
    case AtTable => QuietStepKeepsOk(s, i);
    case Working => QuietStepKeepsOk(s, i);
    case InTable => RegisterKeepsOk(s, i);
    case AtMutex => AcquireKeepsOk(s, i);
    case Releasing => ReleaseKeepsOk(s, i);
  }

  // ----- mutual exclusion -------------------------------------------------

  /** An operation runs while its thread holds every key it asked for. */
  lemma WorksUnderItsLocks(s: System, i: nat, key: string)
    requires Ok(s) && i < |s.threads| && s.threads[i].stage == Working && key in s.threads[i].request
    ensures Holds(s.threads[i], key)
    ensures forall j :: 0 <= j < |s.threads| && j != i ==> !Holds(s.threads[j], key)
  {
    var t := s.threads[i];
    assert t.keys[..t.held] == t.keys && key in t.keys;
    forall j | 0 <= j < |s.threads| && j != i ensures !Holds(s.threads[j], key) {
      if Holds(s.threads[j], key) {
        Exclusive(s, i, j, key);
      }
    }
  }

  // ----- deadlock freedom -------------------------------------------------

  predicate Blocked(t: Thread) {
    t.stage == AtMutex && t.held < |t.keys|
  }

  function Wanted(t: Thread): string
    requires Blocked(t)
  {
    t.keys[t.held]
  }

  /** Among the blocked threads below `n`, one that wants the greatest key. */
  lemma {:induction false} GreatestWanted(s: System, n: nat) returns (g: nat)
    requires 0 < n <= |s.threads|
    requires exists i :: 0 <= i < n && Blocked(s.threads[i])
    ensures g < n && Blocked(s.threads[g])
    ensures forall i :: 0 <= i < n && Blocked(s.threads[i]) ==> AtMost(Wanted(s.threads[i]), Wanted(s.threads[g]))
  {
    if exists i :: 0 <= i < n - 1 && Blocked(s.threads[i]) {
      g := GreatestWanted(s, n - 1);
      if Blocked(s.threads[n - 1]) {
        var best, last := Wanted(s.threads[g]), Wanted(s.threads[n - 1]);
        LessTrichotomy(best, last);
        if Less(best, last) {
          forall i | 0 <= i < n && Blocked(s.threads[i]) ensures AtMost(Wanted(s.threads[i]), last) {
            if i < n - 1 && Wanted(s.threads[i]) != best {
              LessTransitive(Wanted(s.threads[i]), best, last);
            }
          }
          g := n - 1;
        }
      }
    } else {
      g := n - 1;
    }
  }

  /** Whoever holds the greatest wanted key cannot itself be blocked: its own want would be greater. */
  lemma GreatestIsFree(s: System, g: nat)
    requires Ok(s) && g < |s.threads| && Blocked(s.threads[g])
    requires forall i :: 0 <= i < |s.threads| && Blocked(s.threads[i]) ==> AtMost(Wanted(s.threads[i]), Wanted(s.threads[g]))
    requires forall i :: 0 <= i < |s.threads| ==> Finished(s.threads[i]) || Blocked(s.threads[i])
    ensures Enabled(s, g)
  {
    var wanted := Wanted(s.threads[g]);
    assert Owns(s, g) && ThreadOk(s.threads[g]);
    var m := s.table[wanted];
    if m in s.holders {
      assert Accounted(s, m);
      var u := s.holders[m];
      var key :| key in s.table && s.table[key] == m && Holds(s.threads[u], key);
      assert key == wanted && ThreadOk(s.threads[u]);
      var other := s.threads[u];
      var k :| 0 <= k < other.held && other.keys[..other.held][k] == wanted;
      assert other.keys[k] == wanted;
      assert Blocked(other) && Less(wanted, Wanted(other));
      LessTrichotomy(wanted, Wanted(other));
      assert false;
    }
  }

  /** Deadlock freedom: while a thread is unfinished, some thread can take a step. */
  lemma Progress(s: System)
    requires Ok(s) && exists i :: 0 <= i < |s.threads| && !Finished(s.threads[i])
    ensures exists i :: 0 <= i < |s.threads| && Enabled(s, i)
  {
    var i :| 0 <= i < |s.threads| && !Finished(s.threads[i]);
    if j :| 0 <= j < |s.threads| && !Finished(s.threads[j]) && !Blocked(s.threads[j]) {
      assert ThreadOk(s.threads[j]) && Owns(s, j);
      var t := s.threads[j];
      if t.stage == AtTable && s.tableHolder.Some? {
        var h := s.tableHolder.value;
        assert ThreadOk(s.threads[h]) && Owns(s, h) && Enabled(s, h);
      } else {
        if t.stage == Releasing {
          assert t.keys[t.held - 1] in t.keys[..t.held] && Holds(t, t.keys[t.held - 1]);
        }
        assert Enabled(s, j);
      }
    } else {
      assert Blocked(s.threads[i]);
      var g := GreatestWanted(s, |s.threads|);
      GreatestIsFree(s, g);
    }
  }

  // ----- the length of a run ----------------------------------------------

  function ProgramCost(program: seq<seq<string>>): nat {
    if program == [] then 0 else 2 + 4 * |CanonicalOrder(program[0])| + ProgramCost(program[1..])
  }

  /** The steps that a thread still has to take. */
  function ThreadCost(t: Thread): int {
    ProgramCost(t.program) +
    match t.stage
    case Ready => 0
    case AtTable => 4 * (|t.keys| - t.held) + 1 + t.held
    case InTable => 4 * (|t.keys| - t.held) + t.held
    case AtMutex => 4 * (|t.keys| - t.held) - 1 + t.held
    case Working => 1 + t.held
    case Releasing => t.held
  }

  function TotalCost(threads: seq<Thread>): int {
    if threads == [] then 0 else ThreadCost(threads[0]) + TotalCost(threads[1..])
  }

  lemma {:induction false} CostOfChange(threads: seq<Thread>, i: nat, t: Thread)
    requires i < |threads|
    ensures TotalCost(threads[i := t]) == TotalCost(threads) - ThreadCost(threads[i]) + ThreadCost(t)
  {
    if i == 0 {
      assert threads[0 := t][1..] == threads[1..];
    } else {
      assert threads[i := t][1..] == threads[1..][i - 1 := t];
      CostOfChange(threads[1..], i - 1, t);
    }
  }

  lemma {:induction false} CostIsNatural(threads: seq<Thread>)
    requires forall t :: t in threads ==> ThreadOk(t)
    ensures TotalCost(threads) >= 0
    ensures TotalCost(threads) == 0 <==> forall t :: t in threads ==> Finished(t)
  {
    if threads != [] {
      assert threads[0] in threads && forall t :: t in threads[1..] ==> t in threads;
      assert ThreadOk(threads[0]);
      CostIsNatural(threads[1..]);
      assert ThreadCost(threads[0]) >= 0;
      assert ThreadCost(threads[0]) == 0 <==> Finished(threads[0]);
      assert threads == [threads[0]] + threads[1..];
    }
  }

  lemma StepCosts(s: System, i: nat)
    requires Ok(s) && i < |s.threads| && Enabled(s, i)
    ensures TotalCost(Step(s, i).threads) == TotalCost(s.threads) - 1
  {
    assert ThreadOk(s.threads[i]);
    CostOfChange(s.threads, i, Step(s, i).threads[i]);
    assert Step(s, i).threads == s.threads[i := Step(s, i).threads[i]];
  }

  // ----- runs -------------------------------------------------------------

  predicate CanRun(s: System, schedule: seq<nat>)
    decreases |schedule|
  {
    schedule == [] ||
    (schedule[0] < |s.threads| && Enabled(s, schedule[0]) && CanRun(Step(s, schedule[0]), schedule[1..]))
  }

  function Run(s: System, schedule: seq<nat>): System
    requires CanRun(s, schedule)
    decreases |schedule|
  {
    if schedule == [] then s else Run(Step(s, schedule[0]), schedule[1..])
  }

  lemma {:induction false} RunKeepsOk(s: System, schedule: seq<nat>)
    requires Ok(s) && CanRun(s, schedule)
    ensures Ok(Run(s, schedule))
    ensures TotalCost(Run(s, schedule).threads) == TotalCost(s.threads) - |schedule|
    ensures |Run(s, schedule).threads| == |s.threads|
    decreases |schedule|
  {
    if schedule != [] {
      StepKeepsOk(s, schedule[0]);
      StepCosts(s, schedule[0]);
      RunKeepsOk(Step(s, schedule[0]), schedule[1..]);
    }
  }

  /** Over every schedule: no run is longer than the work there is, a run that cannot go on has
      finished every thread, and one as long as the work has finished. */
  lemma EveryRunFinishes(programs: seq<seq<seq<string>>>, schedule: seq<nat>)
    requires CanRun(Start(programs), schedule)
    ensures var end := Run(Start(programs), schedule);
            var work := TotalCost(Start(programs).threads);
            Ok(end) && |schedule| <= work &&
            ((forall t :: t in end.threads ==> Finished(t)) <==> |schedule| == work) &&
            ((forall t :: t in end.threads ==> Finished(t)) <==> forall i :: 0 <= i < |end.threads| ==> !Enabled(end, i))
  {
    StartIsOk(programs);
    RunKeepsOk(Start(programs), schedule);
    var end := Run(Start(programs), schedule);
    forall t | t in end.threads ensures ThreadOk(t) {
      var i :| 0 <= i < |end.threads| && end.threads[i] == t;
    }
    CostIsNatural(end.threads);
    if t :| t in end.threads && !Finished(t) {
      Progress(end);
    } else {
      forall i | 0 <= i < |end.threads| ensures !Enabled(end, i) {
        assert Finished(end.threads[i]);
      }
    }
  }

  /** A finished system holds no lock. */
  lemma FinishedHoldsNothing(s: System)
    requires Ok(s) && forall t :: t in s.threads ==> Finished(t)
    ensures s.holders == map[] && s.tableHolder.None?
  {
    forall i | 0 <= i < |s.threads|
      ensures s.threads[i].held == 0 && s.tableHolder != Some(i)
    {
      assert s.threads[i] in s.threads && ThreadOk(s.threads[i]) && Owns(s, i);
    }
    forall m ensures m !in s.holders {
      assert m in s.holders ==> Accounted(s, m);
    }
  }
}
