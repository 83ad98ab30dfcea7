// Who frees a client.  The Shell thread and the transfer threads of every client run
// interleaved; the exit of Shell and the end of a transfer decide under ClientListLock.
// A step is one thread's move between two points where another thread may come in.

module ClientLifecycle {

  datatype Status = Waiting | Busy

  /** Shell: before its first line, in its main loop, inside its closing critical section
      before and after the decision, and gone. */
  datatype Shell = NotStarted | Running | Closing | Closed | Gone

  /** A transfer thread: at work, in its epilogue before ResetDataConnection, between that
      and the decision, after the decision, and gone. */
  datatype Thread = Working | Resetting | Deciding | Leaving | Finished

  datatype Client = Client(
    status: Status,
    ctrlOpen: bool,
    shell: Shell,
    threads: map<int, Thread>,
    frees: nat)

  datatype Owner = Nobody | ShellOf(client: int) | ThreadOf(client: int, thread: int)

  datatype State = State(clients: map<int, Client>, list: seq<int>, lock: Owner)

  datatype Step =
    | Connect(client: int)
    | ShellStarts(client: int)
    | ShellWorks(client: int)
    | TransferStarts(client: int, thread: int)
    | TransferAborted(client: int, thread: int)
    | ShellLocks(client: int)
    | ShellDecides(client: int)
    | ShellUnlocks(client: int)
    | ThreadWorks(client: int, thread: int)
    | ThreadLocks(client: int, thread: int)
    | ThreadResets(client: int, thread: int)
    | ThreadDecides(client: int, thread: int)
    | ThreadUnlocks(client: int, thread: int)

  ghost predicate ShellAt(s: State, c: int, at: Shell) {
    c in s.clients && s.clients[c].shell == at
  }

  ghost predicate ThreadAt(s: State, c: int, t: int, at: Thread) {
    c in s.clients && t in s.clients[c].threads && s.clients[c].threads[t] == at
  }

  ghost predicate Enabled(s: State, step: Step) {
    match step
    case Connect(c) => c !in s.clients && s.lock == Nobody
    case ShellStarts(c) => ShellAt(s, c, NotStarted)
    case ShellWorks(c) => ShellAt(s, c, Running)
    case TransferStarts(c, t) =>
      ShellAt(s, c, Running) && s.clients[c].status == Waiting && t !in s.clients[c].threads
    case TransferAborted(c, t) => ShellAt(s, c, Running) && s.clients[c].status == Busy && ThreadAt(s, c, t, Working)
    case ShellLocks(c) => ShellAt(s, c, Running) && s.lock == Nobody
    case ShellDecides(c) => ShellAt(s, c, Closing)
    case ShellUnlocks(c) => ShellAt(s, c, Closed)
    case ThreadWorks(c, t) => ThreadAt(s, c, t, Working)
    case ThreadLocks(c, t) => ThreadAt(s, c, t, Working) && s.lock == Nobody
    case ThreadResets(c, t) => ThreadAt(s, c, t, Resetting)
    case ThreadDecides(c, t) => ThreadAt(s, c, t, Deciding)
    case ThreadUnlocks(c, t) => ThreadAt(s, c, t, Leaving)
  }

  /** The steps that read or write the fields of the client entry, or delete it.  Leaving
      the lock does neither: the lock belongs to the server. */
  predicate Touches(step: Step, c: int) {
    !step.Connect? && !step.ShellUnlocks? && !step.ThreadUnlocks? && step.client == c
  }

  ghost function SetThread(e: Client, t: int, at: Thread): Client {
    e.(threads := e.threads[t := at])
  }

  function Without(list: seq<int>, c: int): seq<int> {
    if list == [] then []
    else if list[0] == c then list[1..]
    else [list[0]] + Without(list[1..], c)
  }

  /** What a step does to the entry of its client; a delete counts as one more free. */
  ghost function Moved(e: Client, step: Step): Client {
    match step
    case Connect(_) => Client(Waiting, false, NotStarted, map[], 0)
    case ShellStarts(_) => e.(shell := Running, ctrlOpen := true, status := Waiting)
    case ShellWorks(_) => e
    case TransferStarts(_, t) => SetThread(e, t, Working).(status := Busy)
    case TransferAborted(_, t) => SetThread(e, t, Finished).(status := Waiting)
    case ShellLocks(_) => e.(shell := Closing)
    case ShellDecides(_) =>
      if e.status == Waiting then e.(shell := Closed, frees := e.frees + 1) else e.(shell := Closed, ctrlOpen := false)
    case ShellUnlocks(_) => e.(shell := Gone)
    case ThreadWorks(_, _) => e
    case ThreadLocks(_, t) => SetThread(e, t, Resetting)
    case ThreadResets(_, t) => SetThread(e, t, Deciding).(status := Waiting)
    case ThreadDecides(_, t) =>
      if e.ctrlOpen then SetThread(e, t, Leaving) else SetThread(e, t, Leaving).(frees := e.frees + 1)
    case ThreadUnlocks(_, t) => SetThread(e, t, Finished)
  }

  ghost function Entry(s: State, c: int): Client {
    if c in s.clients then s.clients[c] else Client(Waiting, false, NotStarted, map[], 0)
  }

  ghost function LockAfter(s: State, step: Step): Owner {
    match step
    case ShellLocks(c) => ShellOf(c)
    case ThreadLocks(c, t) => ThreadOf(c, t)
    case ShellUnlocks(_) => Nobody
    case ThreadUnlocks(_, _) => Nobody
    case _ => s.lock
  }

  /** AddClient appends to the list, a delete takes the entry out of it. */
  ghost function ListAfter(s: State, step: Step): seq<int> {
    if step.Connect? then s.list + [step.client]
    else if Moved(Entry(s, step.client), step).frees > Entry(s, step.client).frees then Without(s.list, step.client)
    else s.list
  }

  ghost function After(s: State, step: Step): State {
    State(s.clients[step.client := Moved(Entry(s, step.client), step)], ListAfter(s, step), LockAfter(s, step))
  }

  // ---- The invariant -----------------------------------------------------------------

  predicate Before(at: Thread) {
    at == Working || at == Resetting
  }

  predicate Undecided(at: Thread) {
    Before(at) || at == Deciding
  }

  ghost predicate OneBefore(e: Client) {
    forall t, u :: t in e.threads && u in e.threads && Before(e.threads[t]) && Before(e.threads[u]) ==> t == u
  }

  ghost predicate OneUndecided(e: Client) {
    forall t, u :: t in e.threads && u in e.threads && Undecided(e.threads[t]) && Undecided(e.threads[u]) ==> t == u
  }

  /** A client on its own: its status says whether a thread is short of its reset; while
      Shell lives it is not freed; once Shell has decided, either it is freed and no
      thread has anything left to do to it, or exactly one thread is still to decide and
      will free it. */
  ghost predicate ClientOk(e: Client) {
    && OneBefore(e)
    && (e.status == Busy <==> exists t :: t in e.threads && Before(e.threads[t]))
    && (e.shell == NotStarted ==> e.threads == map[] && e.frees == 0)
    && (e.shell == Running || e.shell == Closing ==> e.ctrlOpen && e.frees == 0)
    && (e.shell == Closed || e.shell == Gone ==>
          OneUndecided(e)
          && if exists t :: t in e.threads && Undecided(e.threads[t])
             then e.frees == 0 && !e.ctrlOpen
             else e.frees == 1)
  }

  predicate InEpilogue(at: Thread) {
    at != Working && at != Finished
  }

  /** The lock is held by whoever is inside a critical section. */
  ghost predicate LockOk(s: State) {
    && (forall c :: c in s.clients && (s.clients[c].shell == Closing || s.clients[c].shell == Closed) ==>
          s.lock == ShellOf(c))
    && (forall c, t :: c in s.clients && t in s.clients[c].threads && InEpilogue(s.clients[c].threads[t]) ==>
          s.lock == ThreadOf(c, t))
    && (match s.lock
        case Nobody => true
        case ShellOf(c) => c in s.clients && (s.clients[c].shell == Closing || s.clients[c].shell == Closed)
        case ThreadOf(c, t) =>
          c in s.clients && t in s.clients[c].threads && InEpilogue(s.clients[c].threads[t]))
  }

  /** The list has every client that is not freed, once. */
  ghost predicate ListOk(s: State) {
    && (forall i, j :: 0 <= i < j < |s.list| ==> s.list[i] != s.list[j])
    && (forall c :: c in s.list <==> c in s.clients && s.clients[c].frees == 0)
  }

  ghost predicate Inv(s: State) {
    && (forall c :: c in s.clients ==> ClientOk(s.clients[c]))
    && LockOk(s) && ListOk(s)
  }

  lemma {:induction false} WithoutRemoves(list: seq<int>, c: int)
    requires forall i, j :: 0 <= i < j < |list| ==> list[i] != list[j]
    ensures forall d :: d in Without(list, c) <==> d in list && d != c
    ensures forall i, j :: 0 <= i < j < |Without(list, c)| ==> Without(list, c)[i] != Without(list, c)[j]
  {
    if list != [] {
      assert list == [list[0]] + list[1..];
      if list[0] == c {
        assert forall i :: 0 <= i < |list[1..]| ==> list[1..][i] == list[i + 1];
      } else {
        WithoutRemoves(list[1..], c);
        assert forall i :: 0 <= i < |list[1..]| ==> list[1..][i] == list[i + 1];
        var rest := Without(list[1..], c);
        assert list[0] !in rest;
      }
    }
  }

  /** A client entry on which a thread acts has not been freed. */
  lemma TouchedIsLive(s: State, step: Step, c: int)
    requires Inv(s) && Enabled(s, step) && Touches(step, c)
    ensures c in s.clients && s.clients[c].frees == 0 && c in s.list
  {
    assert ClientOk(s.clients[c]);
  }

  // ---- Preservation, client by client ---------------------------------------------------

  lemma ShellKeeps(s: State, step: Step)
    requires Inv(s) && Enabled(s, step)
    requires step.ShellStarts? || step.ShellWorks? || step.ShellLocks? || step.ShellDecides? || step.ShellUnlocks?
      || step.TransferStarts? || step.ThreadWorks?
    ensures ClientOk(Moved(s.clients[step.client], step))
  {
    var e := s.clients[step.client];
    assert ClientOk(e);
    var m := Moved(e, step);
    if step.ShellDecides? {
      // Shell holds the lock, so no thread of this client is between its reset and its decision.
      assert forall t :: t in e.threads ==> e.threads[t] == Working || e.threads[t] == Finished;
    } else if step.TransferStarts? {
      assert m.threads[step.thread] == Working;
      assert forall u :: u in e.threads ==> m.threads[u] == e.threads[u];
    }
  }

  lemma ThreadKeeps(s: State, step: Step)
    requires Inv(s) && Enabled(s, step)
    requires step.TransferAborted? || step.ThreadLocks? || step.ThreadResets? || step.ThreadDecides?
      || step.ThreadUnlocks?
    ensures ClientOk(Moved(s.clients[step.client], step))
  {
    assert ClientOk(s.clients[step.client]);
    if step.ThreadDecides? {
      DecisionKeeps(s, step.client, step.thread);
    } else {
      ThreadsApart(s.clients[step.client], step.thread, Moved(s.clients[step.client], step));
    }
  }

  /** The threads of the client but one are as they were. */
  lemma ThreadsApart(e: Client, t: int, m: Client)
    requires t in e.threads && t in m.threads && m.threads == e.threads[t := m.threads[t]]
    ensures m.threads.Keys == e.threads.Keys && forall u :: u in e.threads && u != t ==> m.threads[u] == e.threads[u]
  {
  }

  lemma DecisionKeeps(s: State, c: int, t: int)
    requires Inv(s) && Enabled(s, ThreadDecides(c, t))
    ensures ClientOk(Moved(s.clients[c], ThreadDecides(c, t)))
  {
    var e := s.clients[c];
    assert ClientOk(e);
    ThreadsApart(e, t, Moved(e, ThreadDecides(c, t)));
  }

  lemma ClientKeeps(s: State, step: Step)
    requires Inv(s) && Enabled(s, step) && !step.Connect?
    ensures ClientOk(Moved(s.clients[step.client], step))
  {
    if step.TransferAborted? || step.ThreadLocks? || step.ThreadResets? || step.ThreadDecides? || step.ThreadUnlocks? {
      ThreadKeeps(s, step);
    } else {
      ShellKeeps(s, step);
    }
  }

  lemma LockKeeps(s: State, step: Step)
    requires LockOk(s) && Enabled(s, step)
    ensures LockOk(After(s, step))
  {
    var c := step.client;
    var next := After(s, step);
    forall d, t | d in next.clients && t in next.clients[d].threads && InEpilogue(next.clients[d].threads[t])
      ensures next.lock == ThreadOf(d, t)
    {
      assert d in s.clients
        && (t in s.clients[d].threads && InEpilogue(s.clients[d].threads[t]) ==> s.lock == ThreadOf(d, t));
    }
    forall d | d in next.clients && (next.clients[d].shell == Closing || next.clients[d].shell == Closed)
      ensures next.lock == ShellOf(d)
    {}
  }

  lemma ListKeeps(s: State, step: Step)
    requires Inv(s) && Enabled(s, step)
    ensures ListOk(After(s, step))
  {
    var c := step.client;
    if step.Connect? {
      assert c !in s.list;
    } else {
      WithoutRemoves(s.list, c);
      if Touches(step, c) {
        TouchedIsLive(s, step, c);
      }
    }
  }

  lemma StepKeepsInv(s: State, step: Step)
    requires Inv(s) && Enabled(s, step)
    ensures Inv(After(s, step))
  {
    if !step.Connect? {
      ClientKeeps(s, step);
    }
    LockKeeps(s, step);
    ListKeeps(s, step);
  }

  // ---- Runs --------------------------------------------------------------------------------

  ghost predicate IsRun(s: State, steps: seq<Step>)
    decreases |steps|
  {
    steps != [] ==> Enabled(s, steps[0]) && IsRun(After(s, steps[0]), steps[1..])
  }

  ghost function End(s: State, steps: seq<Step>): State
    requires IsRun(s, steps)
    decreases |steps|
  {
    if steps == [] then s else End(After(s, steps[0]), steps[1..])
  }

  lemma {:induction false} RunKeepsInv(s: State, steps: seq<Step>)
    requires Inv(s) && IsRun(s, steps)
    ensures Inv(End(s, steps))
    decreases |steps|
  {
    if steps != [] {
      StepKeepsInv(s, steps[0]);
      RunKeepsInv(After(s, steps[0]), steps[1..]);
    }
  }

  /** Over every run of any number of clients: no client is freed twice; the next step of
      any thread, whatever it is, touches no freed client; a client whose Shell and
      transfer threads are all gone has been freed; and the list is the clients not freed. */
  lemma FreedOnce(steps: seq<Step>)
    requires IsRun(State(map[], [], Nobody), steps)
    ensures var s := End(State(map[], [], Nobody), steps);
      && (forall c :: c in s.clients ==> s.clients[c].frees <= 1)
      && (forall step, c :: Enabled(s, step) && Touches(step, c) ==> c in s.clients && s.clients[c].frees == 0)
      && (forall c :: c in s.clients && s.clients[c].shell == Gone
            && (forall t :: t in s.clients[c].threads ==> s.clients[c].threads[t] == Finished)
            ==> s.clients[c].frees == 1)
      && ListOk(s)
  {
    RunKeepsInv(State(map[], [], Nobody), steps);
    var s := End(State(map[], [], Nobody), steps);
    forall c | c in s.clients
      ensures s.clients[c].frees <= 1
    {
      assert ClientOk(s.clients[c]);
    }
    forall step, c | Enabled(s, step) && Touches(step, c)
      ensures c in s.clients && s.clients[c].frees == 0
    {
      TouchedIsLive(s, step, c);
    }
    forall c | c in s.clients && s.clients[c].shell == Gone
      && (forall t :: t in s.clients[c].threads ==> s.clients[c].threads[t] == Finished)
      ensures s.clients[c].frees == 1
    {
      assert ClientOk(s.clients[c]);
    }
  }

  // ---- The runs there are ---------------------------------------------------------------------

  /** Two runs one after the other are a run. */
  lemma {:induction false} RunsJoin(s: State, a: seq<Step>, b: seq<Step>)
    requires IsRun(s, a) && IsRun(End(s, a), b)
    ensures IsRun(s, a + b) && End(s, a + b) == End(End(s, a), b)
    decreases |a|
  {
    if a == [] {
      assert a + b == b;
    } else {
      assert (a + b)[0] == a[0] && (a + b)[1..] == a[1..] + b;
      RunsJoin(After(s, a[0]), a[1..], b);
    }
  }

  /** s goes to e by some run. */
  ghost predicate Leads(s: State, e: State) {
    exists steps :: IsRun(s, steps) && End(s, steps) == e
  }

  lemma LeadsByStep(s: State, step: Step, e: State)
    requires Enabled(s, step) && Leads(After(s, step), e)
    ensures Leads(s, e)
  {
    var steps :| IsRun(After(s, step), steps) && End(After(s, step), steps) == e;
    assert ([step] + steps)[1..] == steps;
    assert IsRun(s, [step] + steps) && End(s, [step] + steps) == e;
  }

  lemma LeadsNowhere(s: State)
    ensures Leads(s, s)
  {
    assert IsRun(s, []) && End(s, []) == s;
  }

  lemma LeadsOn(s: State, e: State, f: State)
    requires Leads(s, e) && Leads(e, f)
    ensures Leads(s, f)
  {
    var a :| IsRun(s, a) && End(s, a) == e;
    var b :| IsRun(e, b) && End(e, b) == f;
    RunsJoin(s, a, b);
    assert IsRun(s, a + b) && End(s, a + b) == f;
  }

  /** Whoever holds the lock can leave it. */
  lemma LockCanBeLeft(s: State) returns (e: State)
    requires Inv(s)
    ensures Leads(s, e) && Inv(e) && e.lock == Nobody
    ensures forall c :: c in s.clients ==> c in e.clients
  {
    e := s;
    LeadsNowhere(s);
    match s.lock {
      case Nobody =>
      case ShellOf(c) =>
        e := ShellLeaves(s, c);
      case ThreadOf(c, t) =>
        e := ThreadLeaves(s, c, t);
    }
  }

  lemma ShellLeaves(s: State, c: int) returns (e: State)
    requires Inv(s) && s.lock == ShellOf(c)
    ensures Leads(s, e) && Inv(e) && e.lock == Nobody && e.clients.Keys == s.clients.Keys
    ensures e.clients[c].shell == Gone && e.clients[c].threads == s.clients[c].threads
  {
    if s.clients[c].shell == Closing {
      StepKeepsInv(s, ShellDecides(c));
      e := ClosedLeaves(After(s, ShellDecides(c)), c);
      LeadsByStep(s, ShellDecides(c), e);
    } else {
      e := ClosedLeaves(s, c);
    }
  }

  lemma ClosedLeaves(s: State, c: int) returns (e: State)
    requires Inv(s) && ShellAt(s, c, Closed)
    ensures Leads(s, e) && Inv(e) && e.lock == Nobody && e.clients.Keys == s.clients.Keys
    ensures e.clients[c].shell == Gone && e.clients[c].threads == s.clients[c].threads
  {
    StepKeepsInv(s, ShellUnlocks(c));
    e := After(s, ShellUnlocks(c));
    LeadsNowhere(e);
    LeadsByStep(s, ShellUnlocks(c), e);
  }

  /** Where a run of one thread's epilogue ends. */
  ghost predicate LeftBy(s: State, c: int, t: int, e: State) {
    && Inv(e) && e.lock == Nobody && e.clients.Keys == s.clients.Keys && c in s.clients
    && e.clients[c].shell == s.clients[c].shell && e.clients[c].threads == s.clients[c].threads[t := Finished]
  }

  lemma LeavingLeaves(s: State, c: int, t: int) returns (e: State)
    requires Inv(s) && ThreadAt(s, c, t, Leaving)
    ensures Leads(s, e) && LeftBy(s, c, t, e)
  {
    StepKeepsInv(s, ThreadUnlocks(c, t));
    e := After(s, ThreadUnlocks(c, t));
    LeadsNowhere(e);
    LeadsByStep(s, ThreadUnlocks(c, t), e);
  }

  /** The next move of a thread in its epilogue. */
  lemma ThreadMoves(s: State, step: Step, at: Thread)
    requires Inv(s) && Enabled(s, step)
    requires (step.ThreadResets? && at == Deciding) || (step.ThreadDecides? && at == Leaving)
    ensures Inv(After(s, step)) && After(s, step).clients.Keys == s.clients.Keys
    ensures ThreadAt(After(s, step), step.client, step.thread, at)
    ensures var m := After(s, step).clients[step.client];
      m.shell == s.clients[step.client].shell
      && m.threads[step.thread := Finished] == s.clients[step.client].threads[step.thread := Finished]
  {
    StepKeepsInv(s, step);
    assert s.clients[step.client].threads[step.thread := at][step.thread := Finished]
      == s.clients[step.client].threads[step.thread := Finished];
  }

  lemma DecidingLeaves(s: State, c: int, t: int) returns (e: State)
    requires Inv(s) && ThreadAt(s, c, t, Deciding)
    ensures Leads(s, e) && LeftBy(s, c, t, e)
  {
    ThreadMoves(s, ThreadDecides(c, t), Leaving);
    e := LeavingLeaves(After(s, ThreadDecides(c, t)), c, t);
    LeadsByStep(s, ThreadDecides(c, t), e);
  }

  lemma ThreadLeaves(s: State, c: int, t: int) returns (e: State)
    requires Inv(s) && s.lock == ThreadOf(c, t)
    ensures Leads(s, e) && LeftBy(s, c, t, e)
  {
    match s.clients[c].threads[t] {
      case Resetting =>
        ThreadMoves(s, ThreadResets(c, t), Deciding);
        e := DecidingLeaves(After(s, ThreadResets(c, t)), c, t);
        LeadsByStep(s, ThreadResets(c, t), e);
      case Deciding =>
        e := DecidingLeaves(s, c, t);
      case Leaving =>
        e := LeavingLeaves(s, c, t);
    }
  }

  /** With the lock free a Shell can start, close and go. */
  lemma ShellCanGo(s: State, c: int) returns (e: State)
    requires Inv(s) && s.lock == Nobody && c in s.clients
    ensures Leads(s, e) && Inv(e) && e.lock == Nobody && c in e.clients && e.clients[c].shell == Gone
    decreases match s.clients[c].shell case NotStarted => 1 case _ => 0
  {
    match s.clients[c].shell {
      case NotStarted =>
        StepKeepsInv(s, ShellStarts(c));
        e := ShellCanGo(After(s, ShellStarts(c)), c);
        LeadsByStep(s, ShellStarts(c), e);
      case Running =>
        StepKeepsInv(s, ShellLocks(c));
        e := ShellLeaves(After(s, ShellLocks(c)), c);
        LeadsByStep(s, ShellLocks(c), e);
      case Gone =>
        e := s;
        LeadsNowhere(s);
    }
  }

  /** A Shell that is gone has freed its client, or left it to a transfer thread that can. */
  lemma LastThreadFrees(s: State, c: int) returns (e: State)
    requires Inv(s) && s.lock == Nobody && c in s.clients && s.clients[c].shell == Gone
    ensures Leads(s, e) && c in e.clients && e.clients[c].frees == 1
  {
    assert ClientOk(s.clients[c]);
    if t :| t in s.clients[c].threads && Undecided(s.clients[c].threads[t]) {
      StepKeepsInv(s, ThreadLocks(c, t));
      var locked := After(s, ThreadLocks(c, t));
      e := ThreadLeaves(locked, c, t);
      LeadsByStep(s, ThreadLocks(c, t), e);
      assert ClientOk(e.clients[c]);
      assert forall u :: u in e.clients[c].threads && Undecided(e.clients[c].threads[u]) ==> u == t;
    } else {
      e := s;
      LeadsNowhere(s);
    }
  }

  /** From every state that a run reaches, a run goes on to one in which the client is freed:
      no lock is kept for ever and no entry is forgotten. */
  lemma CanBeFreed(steps: seq<Step>, c: int)
    requires IsRun(State(map[], [], Nobody), steps) && c in End(State(map[], [], Nobody), steps).clients
    ensures var s := End(State(map[], [], Nobody), steps);
      exists more :: IsRun(s, more) && c in End(s, more).clients && End(s, more).clients[c].frees == 1
  {
    RunKeepsInv(State(map[], [], Nobody), steps);
    var s := End(State(map[], [], Nobody), steps);
    var free := LockCanBeLeft(s);
    var gone := ShellCanGo(free, c);
    var freed := LastThreadFrees(gone, c);
    LeadsOn(s, free, gone);
    LeadsOn(s, gone, freed);
    var more :| IsRun(s, more) && End(s, more) == freed;
  }

  /** The moves that touch a client entry, spelled out. */
  lemma TouchesSpelledOut(c: int, t: int)
    ensures Touches(ShellStarts(c), c) && Touches(ShellWorks(c), c) && Touches(ShellLocks(c), c)
    ensures Touches(ShellDecides(c), c) && Touches(TransferStarts(c, t), c) && Touches(TransferAborted(c, t), c)
    ensures Touches(ThreadWorks(c, t), c) && Touches(ThreadLocks(c, t), c) && Touches(ThreadResets(c, t), c)
    ensures Touches(ThreadDecides(c, t), c)
  {
  }

  /** A client, its Shell, and a transfer at work. */
  ghost function Serving(c: int, t: int): State {
    State(map[c := Client(Busy, true, Running, map[t := Working], 0)], [c], Nobody)
  }

  lemma ServingIsReached(c: int, t: int)
    ensures Leads(State(map[], [], Nobody), Serving(c, t))
  {
    var s := State(map[], [], Nobody);
    var s1 := After(s, Connect(c));
    var s2 := After(s1, ShellStarts(c));
    var s3 := After(s2, TransferStarts(c, t));
    assert s3 == Serving(c, t);
    LeadsNowhere(s3);
    LeadsByStep(s2, TransferStarts(c, t), s3);
    LeadsByStep(s1, ShellStarts(c), s3);
    LeadsByStep(s, Connect(c), s3);
  }

  /** The Shell can leave in the middle of a transfer: the client is in the list and not freed
      until the transfer thread decides, which frees it. */
  lemma ShellLeavesFirst(c: int, t: int)
    ensures var s1 := After(Serving(c, t), ShellLocks(c));
      var s3 := After(After(s1, ShellDecides(c)), ShellUnlocks(c));
      var s5 := After(After(s3, ThreadLocks(c, t)), ThreadResets(c, t));
      var s6 := After(s5, ThreadDecides(c, t));
      && Enabled(Serving(c, t), ShellLocks(c)) && Enabled(s1, ShellDecides(c))
      && Enabled(After(s1, ShellDecides(c)), ShellUnlocks(c))
      && s3.clients[c].shell == Gone && s3.clients[c].frees == 0 && s3.list == [c]
      && Enabled(s3, ThreadLocks(c, t)) && Enabled(After(s3, ThreadLocks(c, t)), ThreadResets(c, t))
      && s5.clients[c].frees == 0 && Enabled(s5, ThreadDecides(c, t))
      && s6.clients[c].frees == 1 && s6.list == []
  {
  }

  /** The transfer can end first: its thread leaves the client to the Shell, which frees it. */
  lemma TransferEndsFirst(c: int, t: int)
    ensures var s2 := After(After(Serving(c, t), ThreadLocks(c, t)), ThreadResets(c, t));
      var s4 := After(After(s2, ThreadDecides(c, t)), ThreadUnlocks(c, t));
      var s5 := After(s4, ShellLocks(c));
      var s6 := After(s5, ShellDecides(c));
      && Enabled(Serving(c, t), ThreadLocks(c, t))
      && Enabled(After(Serving(c, t), ThreadLocks(c, t)), ThreadResets(c, t))
      && Enabled(s2, ThreadDecides(c, t)) && Enabled(After(s2, ThreadDecides(c, t)), ThreadUnlocks(c, t))
      && s4.clients[c].frees == 0 && s4.list == [c] && s4.clients[c].status == Waiting
      && Enabled(s4, ShellLocks(c)) && Enabled(s5, ShellDecides(c))
      && s6.clients[c].frees == 1 && s6.list == []
  {
  }

  /** Or ABOR ends it, and the client can start another. */
  lemma AbortedStartsAnew(c: int, t: int, u: int)
    requires t != u
    ensures Enabled(Serving(c, t), TransferAborted(c, t)) && !Enabled(Serving(c, t), TransferStarts(c, u))
    ensures var s := After(Serving(c, t), TransferAborted(c, t));
      s.clients[c].status == Waiting && s.clients[c].frees == 0 && Enabled(s, TransferStarts(c, u))
  {
  }
}
