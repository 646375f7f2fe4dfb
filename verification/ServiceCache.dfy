/** The caches of network and channel services in `platform/fabric/fns.go` and
    `platform/orion/ons.go`: double-checked locking under a read/write lock, where
    several ids resolve to one name.

    Threads interleave at every access to the lock, to the map and to the
    provider below.  That provider (`core/provider.go`) does all its work under
    its own mutex, so a call to it is one step; it may fail. */
module ServiceCache {
  import opened Options

  type Thread = nat

  /** A wrapper is known by its position in the order of creation. */
  type Wrapper = nat

  /** How ids resolve to names, and whether a new wrapper is also stored under the
      id that was asked for (networks) or under its name only (channels). */
  datatype Cache = Cache(resolve: string -> string, storeId: bool)

  /** Asking for a name yields the service of that name. */
  ghost predicate Idempotent(c: Cache) {
    forall id :: c.resolve(c.resolve(id)) == c.resolve(id)
  }

  /** The networks: the empty id stands for the default network. */
  function ResolveNetwork(defaultName: string): string -> string {
    (id: string) => if id == "" then defaultName else id
  }

  lemma NetworksIdempotent(defaultName: string)
    ensures Idempotent(Cache(ResolveNetwork(defaultName), true))
  {
  }

  /** Where a caller is: the states from `Locked` to `StoredId` hold the write lock. */
  datatype Call =
    | Start(id: string)
    | Reading(id: string)
    | Missed(id: string)
    | Locked(id: string)
    | Asking(id: string)
    | Resolved(id: string, name: string)
    | Made(id: string, name: string, wrapper: Wrapper)
    | StoredId(id: string, name: string, wrapper: Wrapper)
    | Done(id: string, result: Option<Wrapper>)
  {
    predicate HoldsLock() {
      Locked? || Asking? || Resolved? || Made? || StoredId?
    }
  }

  /** `created[w]` is the name that wrapper `w` was made for; `internal` lists the
      names of the services that the provider below has made. */
  datatype State = State(
    entries: map<string, Wrapper>,
    created: seq<string>,
    internal: seq<string>,
    calls: map<Thread, Call>,
    writer: Option<Thread>)

  const INIT := State(map[], [], [], map[], None)

  datatype Step =
    | Begin(t: Thread, id: string)
    | ReadLock(t: Thread)
    | ReadEntry(t: Thread)
    | WriteLock(t: Thread)
    | CheckAgain(t: Thread)
    | Ask(t: Thread, fails: bool)
    | CheckName(t: Thread)
    | StoreUnderId(t: Thread)
    | StoreUnderName(t: Thread)

  predicate AnyReader(s: State) {
    exists t :: t in s.calls && s.calls[t].Reading?
  }

  predicate Enabled(c: Cache, s: State, step: Step) {
    match step
    case Begin(t, _) => t !in s.calls
    case ReadLock(t) => t in s.calls && s.calls[t].Start? && s.writer.None?
    case ReadEntry(t) => t in s.calls && s.calls[t].Reading?
    case WriteLock(t) => t in s.calls && s.calls[t].Missed? && s.writer.None? && !AnyReader(s)
    case CheckAgain(t) => t in s.calls && s.calls[t].Locked?
    case Ask(t, _) => t in s.calls && s.calls[t].Asking?
    case CheckName(t) => t in s.calls && s.calls[t].Resolved?
    case StoreUnderId(t) => t in s.calls && s.calls[t].Made? && c.storeId
    case StoreUnderName(t) => t in s.calls && (s.calls[t].StoredId? || (s.calls[t].Made? && !c.storeId))
  }

  /** The services of the provider below, after it was asked for one. */
  function Asked(internal: seq<string>, name: string, fails: bool): seq<string> {
    if name in internal || fails then internal else internal + [name]
  }

  function Goto(s: State, t: Thread, call: Call): State {
    s.(calls := s.calls[t := call])
  }

  /** Returning under the write lock releases it. */
  function Return(s: State, t: Thread, id: string, result: Option<Wrapper>): State {
    Goto(s, t, Done(id, result)).(writer := None)
  }

  function Next(c: Cache, s: State, step: Step): State
    requires Enabled(c, s, step)
  {
    match step
    case Begin(t, id) => Goto(s, t, Start(id))
    case ReadLock(t) => Goto(s, t, Reading(s.calls[t].id))
    case ReadEntry(t) =>
      var id := s.calls[t].id;
      if id in s.entries then Goto(s, t, Done(id, Some(s.entries[id]))) else Goto(s, t, Missed(id))
    case WriteLock(t) => Goto(s, t, Locked(s.calls[t].id)).(writer := Some(t))
    case CheckAgain(t) =>
      var id := s.calls[t].id;
      if id in s.entries then Return(s, t, id, Some(s.entries[id])) else Goto(s, t, Asking(id))
    case Ask(t, fails) =>
      var id := s.calls[t].id;
      var name := c.resolve(id);
      if name !in s.internal && fails then Return(s, t, id, None)
      else Goto(s, t, Resolved(id, name)).(internal := Asked(s.internal, name, fails))
    case CheckName(t) =>
      var Resolved(id, name) := s.calls[t];
      if name in s.entries then Return(s, t, id, Some(s.entries[name]))
      else Goto(s, t, Made(id, name, |s.created|)).(created := s.created + [name])
    case StoreUnderId(t) =>
      var Made(id, name, w) := s.calls[t];
      Goto(s, t, StoredId(id, name, w)).(entries := s.entries[id := w])
    case StoreUnderName(t) =>
      var call := s.calls[t];
      Return(s, t, call.id, Some(call.wrapper)).(entries := s.entries[call.name := call.wrapper])
  }

  /** The state after a run, or `None` if one of its steps cannot be taken. */
  function Run(c: Cache, steps: seq<Step>): Option<State> {
    if steps == [] then Some(INIT)
    else
      match Run(c, steps[..|steps| - 1])
      case None => None
      case Some(s) =>
        var step := steps[|steps| - 1];
        if Enabled(c, s, step) then Some(Next(c, s, step)) else None
  }

  // ----- the invariant -----

  predicate Unique(names: seq<string>) {
    forall i, j | 0 <= i < j < |names| :: names[i] != names[j]
  }

  /** Wrapper `w` is the one its creator is about to store. */
  predicate InFlight(s: State, w: Wrapper) {
    && s.writer.Some? && s.writer.value in s.calls
    && var call := s.calls[s.writer.value];
       (call.Made? || call.StoredId?) && call.wrapper == w
  }

  predicate GoodCall(c: Cache, s: State, call: Call) {
    match call
    case Locked(id) => true
    case Asking(id) => id !in s.entries
    case Resolved(id, name) => name == c.resolve(id) && id !in s.entries && name in s.internal
    case Made(id, name, w) =>
      && name == c.resolve(id) && id !in s.entries && name !in s.entries
      && |s.created| == w + 1 && s.created[w] == name
    case StoredId(id, name, w) =>
      && name == c.resolve(id) && (name in s.entries ==> name == id)
      && |s.created| == w + 1 && s.created[w] == name && id in s.entries && s.entries[id] == w
    case Done(id, Some(w)) => w < |s.created| && s.created[w] == c.resolve(id)
    case _ => true
  }

  ghost predicate Inv(c: Cache, s: State) {
    && Idempotent(c)
    && (forall t | t in s.calls :: s.calls[t].HoldsLock() <==> s.writer == Some(t))
    && (s.writer.Some? ==> s.writer.value in s.calls && !AnyReader(s))
    && (forall t | t in s.calls :: GoodCall(c, s, s.calls[t]))
    && (forall id | id in s.entries :: s.entries[id] < |s.created| && s.created[s.entries[id]] == c.resolve(id))
    && (forall w | 0 <= w < |s.created| :: InFlight(s, w) || (s.created[w] in s.entries && s.entries[s.created[w]] == w))
    && Unique(s.created)
    && Unique(s.internal)
    && (forall w | 0 <= w < |s.created| :: s.created[w] in s.internal)
  }

  /** Steps that leave the map, the wrappers and the provider alone. */
  lemma ReaderKeeps(c: Cache, s: State, step: Step)
    requires Inv(c, s) && Enabled(c, s, step)
    requires step.Begin? || step.ReadLock? || step.ReadEntry?
    ensures Inv(c, Next(c, s, step))
  {
  }

  lemma WriterKeeps(c: Cache, s: State, step: Step)
    requires Inv(c, s) && Enabled(c, s, step)
    requires step.WriteLock? || step.CheckAgain?
    ensures Inv(c, Next(c, s, step))
  {
  }

  lemma AskKeeps(c: Cache, s: State, t: Thread, fails: bool)
    requires Inv(c, s) && Enabled(c, s, Ask(t, fails))
    ensures Inv(c, Next(c, s, Ask(t, fails)))
  {
  }

  lemma CheckNameKeeps(c: Cache, s: State, t: Thread)
    requires Inv(c, s) && Enabled(c, s, CheckName(t))
    ensures Inv(c, Next(c, s, CheckName(t)))
  {
    var name := s.calls[t].name;
    if name !in s.entries {
      forall w | 0 <= w < |s.created| ensures s.created[w] != name {
        assert !InFlight(s, w);
      }
    }
  }

  lemma StoreIdKeeps(c: Cache, s: State, t: Thread)
    requires Inv(c, s) && Enabled(c, s, StoreUnderId(t))
    ensures Inv(c, Next(c, s, StoreUnderId(t)))
  {
    OnlyWrapperOf(c, s, t);
  }

  lemma StoreNameKeeps(c: Cache, s: State, t: Thread)
    requires Inv(c, s) && Enabled(c, s, StoreUnderName(t))
    ensures Inv(c, Next(c, s, StoreUnderName(t)))
  {
    OnlyWrapperOf(c, s, t);
  }

  lemma OnlyWrapperOf(c: Cache, s: State, t: Thread)
    requires Inv(c, s) && t in s.calls && (s.calls[t].Made? || s.calls[t].StoredId?)
    ensures forall w | 0 <= w < |s.created| && w != s.calls[t].wrapper :: s.created[w] != s.calls[t].name
  {
    var call := s.calls[t];
    assert GoodCall(c, s, call) && s.created[call.wrapper] == call.name;
  }

  lemma StepKeeps(c: Cache, s: State, step: Step)
    requires Inv(c, s) && Enabled(c, s, step)
    ensures Inv(c, Next(c, s, step))
  {
    match step
    case Ask(t, fails) => AskKeeps(c, s, t, fails);
    case CheckName(t) => CheckNameKeeps(c, s, t);
    case StoreUnderId(t) => StoreIdKeeps(c, s, t);
    case StoreUnderName(t) => StoreNameKeeps(c, s, t);
    case WriteLock(_) => WriterKeeps(c, s, step);
    case CheckAgain(_) => WriterKeeps(c, s, step);
    case _ => ReaderKeeps(c, s, step);
  }

  // ----- what holds in every run -----

  lemma {:induction false} EveryRun(c: Cache, steps: seq<Step>)
    requires Idempotent(c) && Run(c, steps).Some?
    ensures Inv(c, Run(c, steps).value)
  {
    if steps != [] {
      var n := |steps| - 1;
      EveryRun(c, steps[..n]);
      StepKeeps(c, Run(c, steps[..n]).value, steps[n]);
    }
  }

  /** A later state has the entries, wrappers, services and finished calls of an
      earlier one, and every call keeps its id. */
  predicate Extends(s: State, t: State) {
    && (forall id | id in s.entries :: id in t.entries && t.entries[id] == s.entries[id])
    && s.created <= t.created
    && s.internal <= t.internal
    && (forall k | k in s.calls :: k in t.calls && t.calls[k].id == s.calls[k].id)
    && (forall k | k in s.calls && s.calls[k].Done? :: k in t.calls && t.calls[k] == s.calls[k])
  }

  lemma StepExtends(c: Cache, s: State, step: Step)
    requires Inv(c, s) && Enabled(c, s, step)
    ensures Extends(s, Next(c, s, step))
  {
    StepKeepsCalls(c, s, step);
    StepKeepsEntries(c, s, step);
  }

  lemma StepKeepsCalls(c: Cache, s: State, step: Step)
    requires Enabled(c, s, step)
    ensures var n := Next(c, s, step);
            forall k | k in s.calls :: k in n.calls && n.calls[k].id == s.calls[k].id && (s.calls[k].Done? ==> n.calls[k] == s.calls[k])
  {
  }

  lemma StepKeepsEntries(c: Cache, s: State, step: Step)
    requires Inv(c, s) && Enabled(c, s, step)
    ensures var n := Next(c, s, step);
            && (forall id | id in s.entries :: id in n.entries && n.entries[id] == s.entries[id])
            && s.created <= n.created && s.internal <= n.internal
  {
    if step.StoreUnderId? || step.StoreUnderName? {
      assert GoodCall(c, s, s.calls[step.t]);
    }
  }

  /** Entries are never overwritten, whatever happens later in the run. */
  lemma {:induction false} NeverOverwritten(c: Cache, steps: seq<Step>, n: nat)
    requires Idempotent(c) && Run(c, steps).Some? && n <= |steps|
    ensures Run(c, steps[..n]).Some?
    ensures Extends(Run(c, steps[..n]).value, Run(c, steps).value)
    decreases |steps|
  {
    if n == |steps| {
      assert steps[..n] == steps;
    } else {
      var m := |steps| - 1;
      NeverOverwritten(c, steps[..m], n);
      assert steps[..m][..n] == steps[..n];
      EveryRun(c, steps[..m]);
      StepExtends(c, Run(c, steps[..m]).value, steps[m]);
    }
  }

  /** In every run at most one wrapper, and one service below it, is ever made per name. */
  lemma OneWrapperPerName(c: Cache, steps: seq<Step>)
    requires Idempotent(c) && Run(c, steps).Some?
    ensures Unique(Run(c, steps).value.created)
    ensures Unique(Run(c, steps).value.internal)
  {
    EveryRun(c, steps);
  }

  /** The plain map from names to wrappers that the cache stands for. */
  ghost function Directory(created: seq<string>): map<string, Wrapper>
    requires Unique(created)
  {
    map w: nat | w < |created| :: created[w] := w
  }

  /** Every call that succeeded returned what the plain map holds for the name of its
      id; so calls whose ids resolve to the same name, the empty default id
      included, return the same wrapper, at whatever times they ran. */
  lemma CallsAgreeWithDirectory(c: Cache, steps: seq<Step>, t: Thread)
    requires Idempotent(c) && Run(c, steps).Some?
    requires var s := Run(c, steps).value; t in s.calls && s.calls[t].Done? && s.calls[t].result.Some?
    ensures var s := Run(c, steps).value;
            && Unique(s.created)
            && c.resolve(s.calls[t].id) in Directory(s.created)
            && s.calls[t].result == Some(Directory(s.created)[c.resolve(s.calls[t].id)])
  {
    EveryRun(c, steps);
    var s := Run(c, steps).value;
    var w := s.calls[t].result.value;
    assert GoodCall(c, s, s.calls[t]);
    assert Directory(s.created)[s.created[w]] == w;
  }

  /** For networks: whoever asks with the empty id and whoever asks with the default
      name get the same wrapper, in every interleaving. */
  lemma DefaultNetworkIsOne(defaultName: string, steps: seq<Step>, t: Thread, u: Thread)
    requires var c := Cache(ResolveNetwork(defaultName), true);
             && Run(c, steps).Some?
             && var s := Run(c, steps).value;
                && t in s.calls && s.calls[t].Done? && s.calls[t].id == "" && s.calls[t].result.Some?
                && u in s.calls && s.calls[u].Done? && s.calls[u].id == defaultName && s.calls[u].result.Some?
    ensures var s := Run(Cache(ResolveNetwork(defaultName), true), steps).value;
            s.calls[t].result == s.calls[u].result
  {
    var c := Cache(ResolveNetwork(defaultName), true);
    NetworksIdempotent(defaultName);
    CallsAgreeWithDirectory(c, steps, t);
    CallsAgreeWithDirectory(c, steps, u);
    assert c.resolve("") == defaultName == c.resolve(defaultName);
  }

  // ----- when a call fails, and when it is fast -----

  /** The provider is asked for a service that it has not made. */
  predicate AsksForNew(c: Cache, s: State, t: Thread) {
    t in s.calls && s.calls[t].Asking? && c.resolve(s.calls[t].id) !in s.internal
  }

  /** At some step of the run the call asked for a new service, and that failed. */
  ghost predicate AskFailed(c: Cache, steps: seq<Step>, t: Thread) {
    exists n :: 0 <= n < |steps| && FailsAt(c, steps, n, t)
  }

  predicate FailsAt(c: Cache, steps: seq<Step>, n: nat, t: Thread)
    requires n < |steps|
  {
    steps[n] == Ask(t, true) && Run(c, steps[..n]).Some? && AsksForNew(c, Run(c, steps[..n]).value, t)
  }

  lemma AskFailedThen(c: Cache, steps: seq<Step>, step: Step, t: Thread)
    requires Run(c, steps).Some?
    ensures AskFailed(c, steps + [step], t) <==>
            AskFailed(c, steps, t) || (step == Ask(t, true) && AsksForNew(c, Run(c, steps).value, t))
  {
    var longer := steps + [step];
    assert longer[..|steps|] == steps && longer[|steps|] == step;
    forall n | 0 <= n < |steps| ensures FailsAt(c, longer, n, t) <==> FailsAt(c, steps, n, t) {
      assert longer[..n] == steps[..n];
    }
    if step == Ask(t, true) && AsksForNew(c, Run(c, steps).value, t) {
      assert FailsAt(c, longer, |steps|, t);
    }
  }

  predicate Failed(s: State, t: Thread) {
    t in s.calls && s.calls[t].Done? && s.calls[t].result.None?
  }

  lemma FailedThen(c: Cache, s: State, step: Step, t: Thread)
    requires Enabled(c, s, step)
    ensures Failed(Next(c, s, step), t) <==> Failed(s, t) || (step == Ask(t, true) && AsksForNew(c, s, t))
  {
  }

  /** In every run, a call ends in an error if and only if it asked the provider for a
      service that was not made yet and that failed. */
  lemma {:induction false} FailsIffAskFailed(c: Cache, steps: seq<Step>, t: Thread)
    requires Run(c, steps).Some?
    ensures Failed(Run(c, steps).value, t) <==> AskFailed(c, steps, t)
  {
    if steps != [] {
      var n := |steps| - 1;
      FailsIffAskFailed(c, steps[..n], t);
      AskFailedThen(c, steps[..n], steps[n], t);
      assert steps[..n] + [steps[n]] == steps;
      FailedThen(c, Run(c, steps[..n]).value, steps[n], t);
    }
  }

  /** So a call for a name whose service was made before the call began succeeds; in
      particular one for a name that has a wrapper. */
  lemma KnownNameSucceeds(c: Cache, steps: seq<Step>, n: nat, t: Thread, id: string)
    requires Idempotent(c) && Run(c, steps).Some? && n < |steps| && steps[n] == Begin(t, id)
    requires Run(c, steps[..n]).Some? &&
             (c.resolve(id) in Run(c, steps[..n]).value.internal || c.resolve(id) in Run(c, steps[..n]).value.created)
    ensures !Failed(Run(c, steps).value, t)
  {
    FailsIffAskFailed(c, steps, t);
    EveryRun(c, steps[..n]);
    forall m | 0 <= m < |steps| ensures !FailsAt(c, steps, m, t) {
      NoFailureAt(c, steps, n, t, id, m);
    }
  }

  lemma NoFailureAt(c: Cache, steps: seq<Step>, n: nat, t: Thread, id: string, m: nat)
    requires Idempotent(c) && Run(c, steps).Some? && n < |steps| && steps[n] == Begin(t, id) && m < |steps|
    requires Run(c, steps[..n]).Some? && c.resolve(id) in Run(c, steps[..n]).value.internal
    ensures !FailsAt(c, steps, m, t)
  {
    AfterBegin(c, steps, n, t, id);
    if m <= n {
      NeverOverwritten(c, steps[..n], m);
      assert steps[..n][..m] == steps[..m];
    } else {
      NeverOverwritten(c, steps, m);
      NeverOverwritten(c, steps[..m], n + 1);
      assert steps[..m][..n + 1] == steps[..n + 1];
    }
  }

  /** The state before and after a call begins. */
  lemma AfterBegin(c: Cache, steps: seq<Step>, n: nat, t: Thread, id: string)
    requires Idempotent(c) && Run(c, steps).Some? && n < |steps| && steps[n] == Begin(t, id)
    ensures Run(c, steps[..n]).Some? && t !in Run(c, steps[..n]).value.calls
    ensures Run(c, steps[..n + 1]) == Some(Goto(Run(c, steps[..n]).value, t, Start(id)))
  {
    NeverOverwritten(c, steps, n + 1);
    assert steps[..n + 1][..n] == steps[..n];
  }

  /** The call is still on its way to the entry, or has returned it. */
  predicate OnFastPath(call: Call, id: string, w: Wrapper) {
    call == Start(id) || call == Reading(id) || call == Done(id, Some(w))
  }

  /** A call for an id that has an entry when the call begins returns that entry, and
      neither takes the write lock nor asks the provider. */
  lemma {:induction false} CachedIsFast(c: Cache, steps: seq<Step>, n: nat, t: Thread, id: string)
    requires Idempotent(c) && Run(c, steps).Some? && n < |steps| && steps[n] == Begin(t, id)
    requires Run(c, steps[..n]).Some? && id in Run(c, steps[..n]).value.entries
    ensures var s := Run(c, steps).value;
            t in s.calls && OnFastPath(s.calls[t], id, Run(c, steps[..n]).value.entries[id])
    decreases |steps|
  {
    var m := |steps| - 1;
    if n == m {
      assert steps[..m] == steps[..n];
    } else {
      assert steps[..m][..n] == steps[..n];
      CachedIsFast(c, steps[..m], n, t, id);
      NeverOverwritten(c, steps[..m], n);
      FastStep(c, Run(c, steps[..m]).value, steps[m], t, id);
    }
  }

  lemma FastStep(c: Cache, s: State, step: Step, t: Thread, id: string)
    requires Enabled(c, s, step) && id in s.entries && t in s.calls && OnFastPath(s.calls[t], id, s.entries[id])
    ensures t in Next(c, s, step).calls && OnFastPath(Next(c, s, step).calls[t], id, s.entries[id])
  {
  }

  /** No deadlock: while a call is unfinished, some call can take a step. */
  lemma SomeStepEnabled(c: Cache, s: State, t: Thread) returns (step: Step)
    requires Inv(c, s) && t in s.calls && !s.calls[t].Done?
    ensures Enabled(c, s, step) && !step.Begin?
  {
    var u := if s.writer.Some? then s.writer.value
             else if AnyReader(s) then (var r :| r in s.calls && s.calls[r].Reading?; r)
             else t;
    step := match s.calls[u]
      case Start(_) => ReadLock(u)
      case Reading(_) => ReadEntry(u)
      case Missed(_) => WriteLock(u)
      case Locked(_) => CheckAgain(u)
      case Asking(_) => Ask(u, false)
      case Resolved(_, _) => CheckName(u)
      case Made(_, _, _) => if c.storeId then StoreUnderId(u) else StoreUnderName(u)
      case _ => StoreUnderName(u);
  }

  /** How far a call is from its end. */
  function Remaining(call: Call): nat {
    match call
    case Start(_) => 8
    case Reading(_) => 7
    case Missed(_) => 6
    case Locked(_) => 5
    case Asking(_) => 4
    case Resolved(_, _) => 3
    case Made(_, _, _) => 2
    case StoredId(_, _, _) => 1
    case Done(_, _) => 0
  }

  /** Every step of a call brings it closer to its end, and moves no other call. */
  lemma StepsProgress(c: Cache, s: State, step: Step)
    requires Enabled(c, s, step) && !step.Begin?
    ensures var n := Next(c, s, step);
            && n.calls.Keys == s.calls.Keys
            && Remaining(n.calls[step.t]) < Remaining(s.calls[step.t])
            && forall k | k in s.calls && k != step.t :: n.calls[k] == s.calls[k]
  {
  }
}
