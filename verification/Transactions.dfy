// PRET, PASV and the transfers that follow: which slave a client's data connection
// lives on, under which transaction id, while other clients and the name space go on.

module Transactions {
  import opened Paths
  import opened Vfs
  import opened VfsInvariant
  import opened VfsResolution
  import opened RoundTrip
  import opened RedisVfs

  datatype PretCmd = NoPret | PretRetr | PretAppe | PretStor

  datatype Connection = NoConnection | Pasv | Port

  /** Where a client's transfer thread stands: before its RPC, or after it; a listing has
      no RPC.  Idle is the status WAITING. */
  datatype Thread = Idle | RetrStarted(path: string) | StorStarted | Transferred | Listing

  predicate InTransfer(t: Thread) {
    t.RetrStarted? || t.StorStarted?
  }

  /** A session is ready when the last PASV that went to a slave was answered there and no
      transfer has been sent under its id since. */
  datatype Session = Session(
    pret: PretCmd,
    pretFid: int,
    transId: int,
    slave: Slave,
    ready: bool,
    conn: Connection,
    thread: Thread)

  const NEW_SESSION := Session(NoPret, -1, -1, Slave("", 0), false, NoConnection, Idle)

  /** One PasvRetrieveTransfer or PasvStoreTransfer as it was sent, with what held then:
      the fid the client's PRET had resolved and the slave recorded for the fid sent. */
  datatype Call = Call(retrieves: bool, fid: int, slave: Slave, transId: int, resolved: int, recorded: Slave)

  datatype World = World(
    sys: Sys,
    slaves: set<Slave>,
    sessions: map<int, Session>,
    transCounter: int,
    inits: map<int, Slave>,
    opens: set<(int, Slave)>,
    calls: seq<Call>,
    actives: set<int>)

  /** Whether an RPC is answered is part of the step.  ResetStep is a PORT that is refused or
      a PASV that finds no free port. */
  datatype Step =
    | Elsewhere(e: Event)
    | PretStep(client: int, cmd: PretCmd, path: string)
    | PasvStep(client: int, picked: Slave, answered: bool)
    | PortStep(client: int)
    | ResetStep(client: int)
    | ListStep(client: int, stat: bool, accepted: bool)
    | AborStep(client: int)
    | RetrStep(client: int, path: string, answered: bool)
    | StorStep(client: int, answered: bool)
    | ThreadRetrieves(client: int)
    | ThreadStores(client: int, fid: int)
    | ThreadEnds(client: int)

  /** The slave a PASV goes to. */
  ghost function SlaveFor(w: World, s: Session, picked: Slave): Slave {
    if s.pret == PretStor then picked else SlaveOf(w.sys.st, s.pretFid)
  }

  /** Transfers start only in WAITING, slaves that answer are slaves that run, and lookups
      are on normal paths and return. */
  ghost predicate Enabled(w: World, step: Step) {
    match step
    case Elsewhere(e) => Allowed(w.sys, e)
    case PretStep(c, cmd, path) => c in w.sessions && Resolvable(w, path)
    case PasvStep(c, picked, answered) => c in w.sessions && w.sessions[c].thread == Idle
      && (answered && w.sessions[c].pret != NoPret ==> SlaveFor(w, w.sessions[c], picked) in w.slaves)
    case PortStep(c) => c in w.sessions && w.sessions[c].thread == Idle
    case ResetStep(c) => c in w.sessions && w.sessions[c].thread == Idle
    case ListStep(c, _, _) => c in w.sessions
    case AborStep(c) => c in w.sessions
    case RetrStep(c, path, _) => c in w.sessions && w.sessions[c].thread == Idle && Resolvable(w, path)
    case StorStep(c, _) => c in w.sessions && w.sessions[c].thread == Idle
    case ThreadRetrieves(c) => c in w.sessions && w.sessions[c].thread.RetrStarted?
      && Resolvable(w, w.sessions[c].thread.path)
    case ThreadStores(c, fid) => c in w.sessions && w.sessions[c].thread.StorStarted?
    case ThreadEnds(c) => c in w.sessions && w.sessions[c].thread != Idle
  }

  /** The runs in which all goes well: moreover, no PRET comes between a PASV and the end of
      its transfer, and the slaves answer the PASVs. */
  ghost predicate Possible(w: World, step: Step) {
    Enabled(w, step)
    && (step.PretStep? ==> w.sessions[step.client].conn != Pasv)
    && (step.PasvStep? && w.sessions[step.client].pret != NoPret ==> step.answered)
  }

  ghost predicate Resolvable(w: World, path: string) {
    IsNormal(path) && !Walk(w.sys.st, 0, Names(path)).Spins?
  }

  /** lookup_fid of a normal path. */
  ghost function FidOf(w: World, path: string): int {
    Code(Walk(w.sys.st, 0, Names(path)))
  }

  ghost predicate IsRegular(w: World, path: string) {
    FidOf(w, path) >= 0 && IsFile(w.sys.st, FidOf(w, path))
  }

  ghost function Set(w: World, c: int, s: Session): World {
    w.(sessions := w.sessions[c := s])
  }

  /** What the client's thread sends its PASV slave, and when. */
  ghost predicate SendsRetrieve(w: World, s: Session) {
    s.thread.RetrStarted? && s.conn == Pasv && s.pret == PretRetr && s.pretFid == FidOf(w, s.thread.path)
  }

  ghost predicate SendsStore(s: Session) {
    s.thread.StorStarted? && s.conn == Pasv && (s.pret == PretStor || s.pret == PretAppe)
  }

  ghost function After(w: World, step: Step): World
    requires Enabled(w, step)
  {
    match step
    case Elsewhere(e) => w.(sys := Next(w.sys, e))
    case PretStep(c, cmd, path) =>
      var s := w.sessions[c].(pret := cmd);
      Set(w, c, if (cmd == PretRetr || cmd == PretAppe) && IsRegular(w, path) then s.(pretFid := FidOf(w, path)) else s)
    case PasvStep(c, picked, answered) => AfterPasv(w, c, picked, answered)
    case PortStep(c) => Set(w, c, w.sessions[c].(conn := Port))
    case ResetStep(c) => Set(w, c, w.sessions[c].(conn := NoConnection))
    case ListStep(c, stat, accepted) => Set(w, c, Listed(w.sessions[c], stat, accepted))
    case AborStep(c) => Set(w, c, if w.sessions[c].thread == Idle then w.sessions[c] else Reset(w.sessions[c]))
    case RetrStep(c, path, answered) =>
      if IsRegular(w, path) then StartThread(w, c, RetrStarted(path), answered) else w
    case StorStep(c, answered) => StartThread(w, c, StorStarted, answered)
    case ThreadRetrieves(c) =>
      var s := w.sessions[c];
      var fid := FidOf(w, s.thread.path);
      if SendsRetrieve(w, s) then Called(w, c, RetrieveCall(w, s))
      else if s.conn == Port && w.slaves != {} && fid >= 0 then Active(Set(w, c, s.(thread := Transferred)))
      else Set(w, c, s.(thread := Transferred))
    case ThreadStores(c, fid) =>
      var s := w.sessions[c];
      if SendsStore(s) then Called(w, c, StoreCall(s, fid))
      else if s.conn == Port && w.slaves != {} then Active(Set(w, c, s.(thread := Transferred)))
      else Set(w, c, s.(thread := Transferred))
    case ThreadEnds(c) => Set(w, c, Reset(w.sessions[c]))
  }

  /** ResetDataConnection of the client: a thread that was running is gone. */
  function Reset(s: Session): Session {
    s.(conn := NoConnection, thread := Idle)
  }

  /** LIST and NLST open the connection of the client on the metaserver itself, and reset
      it when that fails; STAT answers on the control connection.  Only they ask for
      WAITING first. */
  function Listed(s: Session, stat: bool, accepted: bool): Session {
    if s.thread != Idle || (!stat && s.conn == NoConnection) then s
    else if stat || accepted then s.(thread := Listing)
    else Reset(s)
  }

  /** An active transfer takes an id of its own. */
  ghost function Active(w: World): World {
    w.(transCounter := w.transCounter + 1, actives := w.actives + {w.transCounter + 1})
  }

  /** Without a PRET the metaserver answers a PASV itself.  After one the PASV goes to a
      slave, and its slave and id are kept even when the RPC fails. */
  ghost function AfterPasv(w: World, c: int, picked: Slave, answered: bool): World
    requires c in w.sessions
  {
    var s := w.sessions[c];
    if s.pret == NoPret then Set(w, c, s.(conn := Pasv))
    else
      var slave, id := SlaveFor(w, s, picked), w.transCounter + 1;
      var asked := s.(slave := slave, transId := id, ready := answered, conn := if answered then Pasv else s.conn);
      Set(w, c, asked).(transCounter := id, inits := if answered then w.inits[id := slave] else w.inits)
  }

  /** RETR and STOR open the connection on the slave of the last PASV that went to one, and
      start a thread when that RPC is answered. */
  ghost function StartThread(w: World, c: int, t: Thread, answered: bool): World
    requires c in w.sessions
  {
    var s := w.sessions[c];
    if s.conn != Pasv then Set(w, c, s.(thread := t))
    else if answered then Set(w, c, s.(thread := t)).(opens := w.opens + {(s.transId, s.slave)})
    else w
  }

  ghost function RetrieveCall(w: World, s: Session): Call
    requires s.thread.RetrStarted?
  {
    var fid := FidOf(w, s.thread.path);
    Call(true, fid, s.slave, s.transId, s.pretFid, SlaveOf(w.sys.st, fid))
  }

  function StoreCall(s: Session, fid: int): Call {
    Call(false, fid, s.slave, s.transId, s.pretFid, s.slave)
  }

  /** The client's thread has sent its call. */
  ghost function Called(w: World, c: int, call: Call): World
    requires c in w.sessions
  {
    Set(w, c, w.sessions[c].(thread := Transferred, ready := false)).(calls := w.calls + [call])
  }

  // ---- The invariant -------------------------------------------------------------

  ghost predicate Used(calls: seq<Call>, id: int) {
    exists k :: 0 <= k < |calls| && calls[k].transId == id
  }

  /** A fid whose stat record can only disappear: handed out, and no upload of it pending. */
  ghost predicate Settled(sys: Sys, f: int) {
    f <= sys.st.counter && f !in sys.uploads
  }

  /** A ready session's id is initialised on its slave and unused; any other session's was
      never initialised or is used up. */
  ghost predicate SessionIds(w: World, s: Session) {
    && s.transId <= w.transCounter
    && (if s.ready then s.transId in w.inits && w.inits[s.transId] == s.slave && !Used(w.calls, s.transId)
        else s.transId !in w.inits || Used(w.calls, s.transId))
    && (InTransfer(s.thread) && s.conn == Pasv ==> (s.transId, s.slave) in w.opens)
  }

  /** A call went where it should: for a retrieve, the fid PRET resolved, to the slave
      recorded for it; always under an id initialised and opened on that same slave. */
  ghost predicate CallOk(w: World, call: Call) {
    && (call.retrieves ==> call.fid == call.resolved && call.slave == call.recorded)
    && 0 < call.transId <= w.transCounter
    && call.transId in w.inits && w.inits[call.transId] == call.slave
    && (call.transId, call.slave) in w.opens
  }

  /** And no earlier call and no active transfer has used its id. */
  ghost predicate Good(w: World, k: nat)
    requires k < |w.calls|
  {
    && CallOk(w, w.calls[k]) && w.calls[k].transId !in w.actives
    && forall j :: 0 <= j < k ==> w.calls[j].transId != w.calls[k].transId
  }

  /** Ids come from the counter, none is both a PASV's and an active transfer's, and no two
      sessions are ready under one. */
  ghost predicate IdsKnown(w: World) {
    && w.transCounter >= 0
    && (forall id :: id in w.inits ==> 0 < id <= w.transCounter)
    && (forall id :: id in w.actives ==> 0 < id <= w.transCounter && id !in w.inits)
    && (forall k :: 0 <= k < |w.calls| ==> w.calls[k].transId <= w.transCounter)
  }

  /** What every run keeps, whatever PRETs come in between and whichever RPCs fail. */
  ghost predicate IdsInv(w: World) {
    && IdsKnown(w)
    && (forall c :: c in w.sessions ==> SessionIds(w, w.sessions[c]))
    && (forall c, d :: c in w.sessions && d in w.sessions && c != d && w.sessions[c].ready && w.sessions[d].ready ==>
          w.sessions[c].transId != w.sessions[d].transId)
  }

  /** The session is after a PASV whose transfer has not been sent. */
  predicate Armed(s: Session) {
    s.conn == Pasv && s.pret != NoPret && s.thread != Transferred
  }

  /** What the runs in which all goes well keep besides: such a session is ready, and its
      slave is the one recorded for the fid its PRET resolved. */
  ghost predicate SessionOk(w: World, s: Session) {
    && Settled(w.sys, s.pretFid)
    && (Armed(s) ==> s.ready)
    && (Armed(s) && s.pret == PretRetr ==> s.pretFid >= 0)
    && (Armed(s) && s.pret == PretRetr && s.pretFid in w.sys.st.stat ==> SlaveOf(w.sys.st, s.pretFid) == s.slave)
  }

  ghost predicate WorldInv(w: World) {
    && SysInv(w.sys) && IdsInv(w) && Slave("", 0) !in w.slaves
    && (forall c :: c in w.sessions ==> SessionOk(w, w.sessions[c]))
    && (forall k :: 0 <= k < |w.calls| ==> Good(w, k))
  }

  /** A settled fid stays settled, and its record never changes and never comes back. */
  lemma SettledStays(sys: Sys, e: Event, f: int)
    requires SysInv(sys) && Allowed(sys, e) && Settled(sys, f)
    ensures Settled(Next(sys, e), f)
    ensures f in Next(sys, e).st.stat ==> f in sys.st.stat && HGetStat(Next(sys, e).st, f) == HGetStat(sys.st, f)
  {
    if e.Edit? || e.Begin? || e.Finish? {
      RecordsStay(sys.st, sys.uploads.Keys, OpOf(sys, e), f);
    }
  }

  lemma RecordsStay(st: Store, pending: set<int>, op: Op, f: int)
    requires Inv(st, pending) && Legal(st, pending, op) && f <= st.counter && f !in pending
    ensures Run(st, op).Done? && Run(st, op).st.counter >= st.counter
    ensures f in Run(st, op).st.stat ==> f in st.stat && HGetStat(Run(st, op).st, f) == HGetStat(st, f)
  {
    CounterGrows(st, pending, op);
    match op {
      case NewFidOp =>
      case MkdirOp(path, a) => LegalMkdir(st, pending, path, a);
      case SaveOp(path, size, a, fid, slave) => LegalSave(st, pending, path, size, a, fid, slave);
      case RemoveOp(path) => LegalRemove(st, pending, path);
      case RenameOp(path, newPath) => LegalRename(st, pending, path, newPath);
      case RmdirOp(path) => LegalRmdir(st, pending, path);
    }
  }

  // ---- What every run keeps --------------------------------------------------------

  /** One session changes, and no call is sent. */
  lemma SessionKeepsIds(w: World, next: World, c: int)
    requires IdsInv(w) && c in w.sessions && next.sessions.Keys == w.sessions.Keys
    requires next.calls == w.calls && next.transCounter >= w.transCounter && w.opens <= next.opens
    requires forall id :: id in w.inits ==> id in next.inits && next.inits[id] == w.inits[id]
    requires forall id :: id in next.inits && id !in w.inits ==> id > w.transCounter
    requires IdsKnown(next)
    requires forall d :: d in w.sessions && d != c ==> next.sessions[d] == w.sessions[d]
    requires SessionIds(next, next.sessions[c])
    requires next.sessions[c].ready ==>
      (w.sessions[c].ready && next.sessions[c].transId == w.sessions[c].transId)
      || next.sessions[c].transId > w.transCounter
    ensures IdsInv(next)
  {
    forall d | d in next.sessions
      ensures SessionIds(next, next.sessions[d])
    {
      assert SessionIds(w, w.sessions[d]);
    }
    forall d | d in next.sessions && d != c && next.sessions[c].ready && next.sessions[d].ready
      ensures next.sessions[c].transId != next.sessions[d].transId
    {
      assert SessionIds(w, w.sessions[d]);
    }
  }

  lemma PasvKeepsIds(w: World, c: int, picked: Slave, answered: bool)
    requires IdsInv(w) && c in w.sessions && w.sessions[c].thread == Idle
    ensures IdsInv(AfterPasv(w, c, picked, answered))
  {
    assert SessionIds(w, w.sessions[c]);
    SessionKeepsIds(w, AfterPasv(w, c, picked, answered), c);
  }

  lemma StartKeepsIds(w: World, c: int, t: Thread, answered: bool)
    requires IdsInv(w) && c in w.sessions && w.sessions[c].thread == Idle
    ensures IdsInv(StartThread(w, c, t, answered))
  {
    assert SessionIds(w, w.sessions[c]);
    SessionKeepsIds(w, StartThread(w, c, t, answered), c);
  }

  /** The connection and the thread of a session may change as they like, as long as it does
      not come to be in a passive transfer; active transfers may take an id. */
  lemma OtherKeepsIds(w: World, next: World, c: int, s: Session)
    requires IdsInv(w) && c in w.sessions && (next == Set(w, c, s) || next == Active(Set(w, c, s)))
    requires s.transId == w.sessions[c].transId && s.slave == w.sessions[c].slave && s.ready == w.sessions[c].ready
    requires InTransfer(s.thread) && s.conn == Pasv ==> s.thread == w.sessions[c].thread && s.conn == w.sessions[c].conn
    ensures IdsInv(next)
  {
    assert SessionIds(w, w.sessions[c]);
    SessionKeepsIds(w, next, c);
  }

  /** A call: nobody else is ready under its id. */
  lemma CallKeepsIds(w: World, c: int, call: Call)
    requires IdsInv(w) && c in w.sessions && call.transId == w.sessions[c].transId
    ensures IdsInv(Called(w, c, call))
  {
    var s, next := w.sessions[c], Called(w, c, call);
    assert SessionIds(w, s);
    forall id
      ensures Used(next.calls, id) <==> Used(w.calls, id) || id == call.transId
    {
      UsedAfter(w.calls, call, id);
    }
    forall d | d in next.sessions
      ensures SessionIds(next, next.sessions[d])
    {
      assert SessionIds(w, w.sessions[d]);
    }
  }

  lemma UsedAfter(calls: seq<Call>, call: Call, id: int)
    ensures Used(calls + [call], id) <==> Used(calls, id) || id == call.transId
  {
    var all := calls + [call];
    assert all[|calls|] == call;
    if Used(calls, id) {
      var k :| 0 <= k < |calls| && calls[k].transId == id;
      assert all[k] == calls[k];
    }
  }

  lemma StepKeepsIds(w: World, step: Step)
    requires IdsInv(w) && Enabled(w, step)
    ensures IdsInv(After(w, step))
  {
    match step {
      case Elsewhere(e) =>
        forall c | c in w.sessions ensures SessionIds(After(w, step), w.sessions[c]) {
          assert SessionIds(w, w.sessions[c]);
        }
      case PasvStep(c, picked, answered) => PasvKeepsIds(w, c, picked, answered);
      case RetrStep(c, path, answered) =>
        if IsRegular(w, path) { StartKeepsIds(w, c, RetrStarted(path), answered); }
      case StorStep(c, answered) => StartKeepsIds(w, c, StorStarted, answered);
      case ThreadRetrieves(c) =>
        if SendsRetrieve(w, w.sessions[c]) { CallKeepsIds(w, c, RetrieveCall(w, w.sessions[c])); }
        else { OtherKeepsIds(w, After(w, step), c, w.sessions[c].(thread := Transferred)); }
      case ThreadStores(c, fid) =>
        if SendsStore(w.sessions[c]) { CallKeepsIds(w, c, StoreCall(w.sessions[c], fid)); }
        else { OtherKeepsIds(w, After(w, step), c, w.sessions[c].(thread := Transferred)); }
      case _ => OtherKeepsIds(w, After(w, step), step.client, After(w, step).sessions[step.client]);
    }
  }

  /** The client's thread sends its call in this step. */
  ghost predicate Sends(w: World, step: Step)
    requires Enabled(w, step)
  {
    (step.ThreadRetrieves? && SendsRetrieve(w, w.sessions[step.client]))
    || (step.ThreadStores? && SendsStore(w.sessions[step.client]))
  }

  /** A call is good exactly when its session is ready and, for a retrieve, the file is on
      the slave of the session. */
  ghost predicate Prepared(w: World, step: Step)
    requires Enabled(w, step) && Sends(w, step)
  {
    var s := w.sessions[step.client];
    s.ready && (step.ThreadRetrieves? ==> SlaveOf(w.sys.st, FidOf(w, s.thread.path)) == s.slave)
  }

  lemma CallIsGoodIff(w: World, step: Step)
    requires IdsInv(w) && Enabled(w, step) && Sends(w, step)
    ensures var next := After(w, step);
      |next.calls| == |w.calls| + 1 && (Good(next, |w.calls|) <==> Prepared(w, step))
  {
    var s, next := w.sessions[step.client], After(w, step);
    assert SessionIds(w, s);
    var call := next.calls[|w.calls|];
    assert call.transId == s.transId && call.slave == s.slave;
    if Used(w.calls, s.transId) {
      var k :| 0 <= k < |w.calls| && w.calls[k].transId == s.transId;
      assert next.calls[k].transId == call.transId;
    } else {
      assert forall j :: 0 <= j < |w.calls| ==> next.calls[j] == w.calls[j] && w.calls[j].transId != s.transId;
    }
  }

  /** What is good stays good. */
  lemma GoodStays(w: World, step: Step, k: nat)
    requires IdsInv(w) && Enabled(w, step) && k < |w.calls| && Good(w, k)
    ensures k < |After(w, step).calls| && Good(After(w, step), k)
  {
    var next := After(w, step);
    assert CallOk(w, w.calls[k]);
    assert forall j :: 0 <= j <= k ==> next.calls[j] == w.calls[j];
  }

  // ---- What the runs in which all goes well keep ----------------------------------------

  /** The sessions after a step are as they should be, and so is the call it sends. */
  lemma StepKeepsWith(w: World, step: Step)
    requires WorldInv(w) && Possible(w, step) && SysInv(After(w, step).sys)
    requires forall c :: c in w.sessions ==> SessionOk(After(w, step), After(w, step).sessions[c])
    requires Sends(w, step) ==> Prepared(w, step)
    ensures WorldInv(After(w, step))
  {
    var next := After(w, step);
    StepKeepsIds(w, step);
    if Sends(w, step) { CallIsGoodIff(w, step); }
    forall k | 0 <= k < |next.calls|
      ensures Good(next, k)
    {
      if k < |w.calls| { GoodStays(w, step, k); }
    }
  }

  lemma ElsewhereKeeps(w: World, e: Event)
    requires WorldInv(w) && Allowed(w.sys, e)
    ensures WorldInv(After(w, Elsewhere(e)))
  {
    var next := After(w, Elsewhere(e));
    NextKeepsInv(w.sys, e);
    forall c | c in w.sessions
      ensures SessionOk(next, next.sessions[c])
    {
      assert SessionOk(w, w.sessions[c]);
      SettledStays(w.sys, e, w.sessions[c].pretFid);
    }
    StepKeepsWith(w, Elsewhere(e));
  }

  lemma PretKeeps(w: World, c: int, cmd: PretCmd, path: string)
    requires WorldInv(w) && Possible(w, PretStep(c, cmd, path))
    ensures WorldInv(After(w, PretStep(c, cmd, path)))
  {
    assert SessionOk(w, w.sessions[c]);
    if IsRegular(w, path) {
      ArrivesKnown(w.sys.st, Names(path));
    }
    OthersOk(w, PretStep(c, cmd, path), c);
    StepKeepsWith(w, PretStep(c, cmd, path));
  }

  /** A step of one client leaves the sessions of the others as they should be. */
  lemma OthersOk(w: World, step: Step, c: int)
    requires WorldInv(w) && Enabled(w, step) && !step.Elsewhere? && c == step.client
    ensures forall d :: d in w.sessions && d != c ==> SessionOk(After(w, step), After(w, step).sessions[d])
  {
    forall d | d in w.sessions && d != c
      ensures SessionOk(After(w, step), After(w, step).sessions[d])
    {
      assert SessionOk(w, w.sessions[d]);
    }
  }

  /** A retrieve is sent with the fid PRET resolved, to the slave recorded for it. */
  lemma RetrieveKeeps(w: World, c: int)
    requires WorldInv(w) && Possible(w, ThreadRetrieves(c))
    ensures Sends(w, ThreadRetrieves(c)) ==> Prepared(w, ThreadRetrieves(c))
    ensures WorldInv(After(w, ThreadRetrieves(c)))
  {
    var s := w.sessions[c];
    assert SessionOk(w, s);
    if SendsRetrieve(w, s) {
      ArrivesKnown(w.sys.st, Names(s.thread.path));
    }
    OthersOk(w, ThreadRetrieves(c), c);
    StepKeepsWith(w, ThreadRetrieves(c));
  }

  lemma StoreKeeps(w: World, c: int, fid: int)
    requires WorldInv(w) && Possible(w, ThreadStores(c, fid))
    ensures WorldInv(After(w, ThreadStores(c, fid)))
  {
    assert SessionOk(w, w.sessions[c]);
    OthersOk(w, ThreadStores(c, fid), c);
    StepKeepsWith(w, ThreadStores(c, fid));
  }

  lemma PasvKeeps(w: World, c: int, picked: Slave, answered: bool)
    requires WorldInv(w) && Possible(w, PasvStep(c, picked, answered))
    ensures WorldInv(After(w, PasvStep(c, picked, answered)))
  {
    assert SessionOk(w, w.sessions[c]);
    OthersOk(w, PasvStep(c, picked, answered), c);
    StepKeepsWith(w, PasvStep(c, picked, answered));
  }

  lemma StartKeeps(w: World, step: Step)
    requires WorldInv(w) && Possible(w, step) && (step.RetrStep? || step.StorStep?)
    ensures WorldInv(After(w, step))
  {
    assert SessionOk(w, w.sessions[step.client]);
    OthersOk(w, step, step.client);
    StepKeepsWith(w, step);
  }

  /** Steps of a client that change its connection and its thread alone. */
  lemma ClientKeeps(w: World, step: Step)
    requires WorldInv(w) && Possible(w, step)
    requires step.PortStep? || step.ResetStep? || step.ListStep? || step.AborStep? || step.ThreadEnds?
    ensures WorldInv(After(w, step))
  {
    assert SessionOk(w, w.sessions[step.client]);
    OthersOk(w, step, step.client);
    StepKeepsWith(w, step);
  }

  lemma StepKeeps(w: World, step: Step)
    requires WorldInv(w) && Possible(w, step)
    ensures WorldInv(After(w, step))
  {
    match step {
      case Elsewhere(e) => ElsewhereKeeps(w, e);
      case PretStep(c, cmd, path) => PretKeeps(w, c, cmd, path);
      case PasvStep(c, picked, answered) => PasvKeeps(w, c, picked, answered);
      case ThreadRetrieves(c) => RetrieveKeeps(w, c);
      case ThreadStores(c, fid) => StoreKeeps(w, c, fid);
      case RetrStep(c, path, answered) => StartKeeps(w, step);
      case StorStep(c, answered) => StartKeeps(w, step);
      case _ => ClientKeeps(w, step);
    }
  }

  // ---- Runs ---------------------------------------------------------------------------

  ghost predicate EnabledRun(w: World, steps: seq<Step>)
    decreases |steps|
  {
    steps != [] ==> Enabled(w, steps[0]) && EnabledRun(After(w, steps[0]), steps[1..])
  }

  ghost predicate PossibleRun(w: World, steps: seq<Step>)
    ensures PossibleRun(w, steps) ==> EnabledRun(w, steps)
    decreases |steps|
  {
    steps != [] ==> Possible(w, steps[0]) && PossibleRun(After(w, steps[0]), steps[1..])
  }

  ghost function Reached(w: World, steps: seq<Step>): World
    requires EnabledRun(w, steps)
    decreases |steps|
  {
    if steps == [] then w else Reached(After(w, steps[0]), steps[1..])
  }

  /** Where clients connect: nobody has said PRET or PASV, and no RPC has been sent. */
  ghost predicate Fresh(w: World) {
    && SysInv(w.sys) && Slave("", 0) !in w.slaves
    && (forall c :: c in w.sessions ==> w.sessions[c] == NEW_SESSION)
    && w.transCounter == 0 && w.inits == map[] && w.opens == {} && w.calls == [] && w.actives == {}
  }

  /** A server that has just been set up, with any clients. */
  lemma InitIsFresh(now: int, slaves: set<Slave>, clients: set<int>)
    requires Slave("", 0) !in slaves
    ensures Fresh(World(Sys(InitRedis(now), map[], map[]), slaves, map c | c in clients :: NEW_SESSION,
                        0, map[], {}, [], {}))
  {
    InitHoldsSysInv(now);
  }

  lemma FreshHoldsInv(w: World)
    requires Fresh(w)
    ensures WorldInv(w)
  {
    forall c | c in w.sessions
      ensures SessionOk(w, w.sessions[c])
    {
      assert -1 !in w.sys.uploads.Keys;
    }
  }

  lemma {:induction false} RunKeepsIds(w: World, steps: seq<Step>)
    requires IdsInv(w) && EnabledRun(w, steps)
    ensures IdsInv(Reached(w, steps))
    decreases |steps|
  {
    if steps != [] {
      StepKeepsIds(w, steps[0]);
      RunKeepsIds(After(w, steps[0]), steps[1..]);
    }
  }

  lemma {:induction false} RunKeepsWorld(w: World, steps: seq<Step>)
    requires WorldInv(w) && PossibleRun(w, steps)
    ensures WorldInv(Reached(w, steps))
    decreases |steps|
  {
    if steps != [] {
      StepKeeps(w, steps[0]);
      RunKeepsWorld(After(w, steps[0]), steps[1..]);
    }
  }

  /** After every run whatever, with any PRETs in between and any RPCs failing: the next call
      is good exactly when its client is ready and, for a retrieve, the file is on the slave
      its last PASV went to. */
  lemma NextCallIsGoodIff(w: World, steps: seq<Step>, step: Step)
    requires Fresh(w) && EnabledRun(w, steps) && Enabled(Reached(w, steps), step) && Sends(Reached(w, steps), step)
    ensures var now := Reached(w, steps);
      |After(now, step).calls| == |now.calls| + 1
      && (Good(After(now, step), |now.calls|) <==> Prepared(now, step))
  {
    FreshHoldsInv(w);
    RunKeepsIds(w, steps);
    CallIsGoodIff(Reached(w, steps), step);
  }

  /** Over every run in which all goes well, with any number of clients: each transfer call
      went under an id that was initialised and opened on the slave it went to and that no
      other call and no active transfer used; and each retrieve carried the fid its PRET
      resolved, to the slave recorded for that fid. */
  lemma TransactionDiscipline(w: World, steps: seq<Step>)
    requires Fresh(w) && PossibleRun(w, steps)
    ensures var end := Reached(w, steps);
      (forall k :: 0 <= k < |end.calls| ==> CallOk(end, end.calls[k]))
      && (forall j, k :: 0 <= j < k < |end.calls| ==> end.calls[j].transId != end.calls[k].transId)
      && (forall k :: 0 <= k < |end.calls| ==> end.calls[k].transId !in end.actives)
  {
    FreshHoldsInv(w);
    RunKeepsWorld(w, steps);
    var end := Reached(w, steps);
    forall k | 0 <= k < |end.calls|
      ensures CallOk(end, end.calls[k]) && end.calls[k].transId !in end.actives
      ensures forall j :: 0 <= j < k ==> end.calls[j].transId != end.calls[k].transId
    {
      assert Good(end, k);
    }
  }

  // ---- A PRET in between ------------------------------------------------------------------

  /** The client says PRET after its PASV, then the command it announced; the slave answers,
      and the thread sends its call. */
  ghost function AfterPret(w: World, c: int, cmd: PretCmd, path: string): World
    requires Enabled(w, PretStep(c, cmd, path)) && w.sessions[c].thread == Idle
  {
    var asked := After(w, PretStep(c, cmd, path));
    After(asked, if cmd == PretRetr then RetrStep(c, path, true) else StorStep(c, true))
  }

  /** For every PASV and every PRET that names a command: the call is sent to the slave of
      the last PASV that went to one, and is good exactly when the client is ready and, for
      RETR, the file is there. */
  lemma PretBetweenIff(w: World, c: int, cmd: PretCmd, path: string, fid: int)
    requires IdsInv(w) && Enabled(w, PretStep(c, cmd, path)) && cmd != NoPret
    requires w.sessions[c].conn == Pasv && w.sessions[c].thread == Idle
    requires cmd == PretRetr ==> IsRegular(w, path)
    ensures var started := AfterPret(w, c, cmd, path);
      var send := if cmd == PretRetr then ThreadRetrieves(c) else ThreadStores(c, fid);
      Enabled(started, send) && Sends(started, send)
      && var sent := After(started, send);
         |sent.calls| == |w.calls| + 1 && sent.calls[|w.calls|].slave == w.sessions[c].slave
         && (Good(sent, |w.calls|) <==>
               w.sessions[c].ready
               && (cmd == PretRetr ==> SlaveOf(w.sys.st, FidOf(w, path)) == w.sessions[c].slave))
  {
    var pret, start := PretStep(c, cmd, path), if cmd == PretRetr then RetrStep(c, path, true) else StorStep(c, true);
    StepKeepsIds(w, pret);
    StepKeepsIds(After(w, pret), start);
    CallIsGoodIff(AfterPret(w, c, cmd, path), if cmd == PretRetr then ThreadRetrieves(c) else ThreadStores(c, fid));
  }

  /** Which steps there are, spelled out: PRET, LIST and ABOR at any time; PORT, PASV, RETR and
      STOR of a client that waits, with the RPC answered by a slave that runs or not at all;
      and the moves of a thread that is there. */
  lemma EnabledSpelledOut(w: World, c: int, cmd: PretCmd, path: string, picked: Slave, answered: bool, stat: bool,
                          fid: int)
    requires c in w.sessions && Resolvable(w, path)
    ensures Enabled(w, PretStep(c, cmd, path)) && Enabled(w, ListStep(c, stat, answered)) && Enabled(w, AborStep(c))
    ensures w.sessions[c].thread == Idle ==>
      Enabled(w, PortStep(c)) && Enabled(w, ResetStep(c)) && Enabled(w, PasvStep(c, picked, false))
      && Enabled(w, RetrStep(c, path, answered)) && Enabled(w, StorStep(c, answered))
    ensures w.sessions[c].thread == Idle
      && (w.sessions[c].pret == NoPret || SlaveFor(w, w.sessions[c], picked) in w.slaves)
      ==> Enabled(w, PasvStep(c, picked, true))
    ensures w.sessions[c].thread == RetrStarted(path) ==> Enabled(w, ThreadRetrieves(c))
    ensures w.sessions[c].thread == StorStarted ==> Enabled(w, ThreadStores(c, fid))
    ensures w.sessions[c].thread != Idle ==> Enabled(w, ThreadEnds(c))
  {
  }

  /** Of them all goes well with every one but a PRET after a PASV and a PASV that no slave
      answers. */
  lemma PossibleSpelledOut(w: World, step: Step)
    requires Enabled(w, step)
    ensures !step.PretStep? && !step.PasvStep? ==> Possible(w, step)
    ensures step.PretStep? && w.sessions[step.client].conn != Pasv ==> Possible(w, step)
    ensures step.PasvStep? && (step.answered || w.sessions[step.client].pret == NoPret) ==> Possible(w, step)
  {
  }

  /** What others do changes the name space and the disks, and no session. */
  lemma OthersDo(w: World, e: Event)
    requires Allowed(w.sys, e)
    ensures Enabled(w, Elsewhere(e)) && After(w, Elsewhere(e)) == w.(sys := Next(w.sys, e))
  {
  }

  /** A PORT that is refused and a PASV without a free port leave no connection. */
  lemma ResetLeavesNone(w: World, c: int)
    requires Enabled(w, ResetStep(c))
    ensures After(w, ResetStep(c)) == w.(sessions := w.sessions[c := w.sessions[c].(conn := NoConnection)])
  {
  }

  // ---- The commands, spelled out --------------------------------------------------------------

  /** A PASV goes to the slave recorded for the fid of the last PRET RETR or APPE, or to the
      slave picked after PRET STOR, under a new id; it counts when it is answered. */
  lemma PasvGoesTo(w: World, c: int, picked: Slave, answered: bool)
    requires Enabled(w, PasvStep(c, picked, answered))
    ensures var s := w.sessions[c];
      var next := After(w, PasvStep(c, picked, answered));
      var t := next.sessions[c];
      && (s.pret == PretRetr || s.pret == PretAppe ==> t.slave == SlaveOf(w.sys.st, s.pretFid))
      && (s.pret == PretStor ==> t.slave == picked)
      && (s.pret != NoPret ==> t.transId == next.transCounter == w.transCounter + 1 && (t.ready <==> answered))
      && (s.pret != NoPret && answered ==> t.conn == Pasv && next.inits == w.inits[t.transId := t.slave])
      && (s.pret != NoPret && !answered ==> t.conn == s.conn && next.inits == w.inits)
      && (s.pret == NoPret ==> t == s.(conn := Pasv) && next.inits == w.inits && next.transCounter == w.transCounter)
      && next.calls == w.calls && next.opens == w.opens && next.actives == w.actives
  {
  }

  /** PRET remembers the command, and for RETR and APPE the fid of a regular file. */
  lemma PretRemembers(w: World, c: int, cmd: PretCmd, path: string)
    requires Enabled(w, PretStep(c, cmd, path))
    ensures var s, t := w.sessions[c], After(w, PretStep(c, cmd, path)).sessions[c];
      && t.pret == cmd
      && t.pretFid == (if (cmd == PretRetr || cmd == PretAppe) && IsRegular(w, path) then FidOf(w, path) else s.pretFid)
      && t == s.(pret := cmd, pretFid := t.pretFid)
  {
  }

  /** ABOR does nothing to a client that waits, and otherwise leaves it without thread and
      connection. */
  lemma AborResets(w: World, c: int)
    requires Enabled(w, AborStep(c))
    ensures var s := w.sessions[c];
      After(w, AborStep(c)) ==
        if s.thread == Idle then w
        else w.(sessions := w.sessions[c := s.(conn := NoConnection, thread := Idle)])
  {
    assert w.sessions[c := w.sessions[c]] == w.sessions;
  }

  /** LIST and NLST need a client that waits and a connection; the listing keeps the client
      busy, and its end takes the connection. */
  lemma ListKeepsBusy(w: World, c: int, stat: bool, accepted: bool)
    requires Enabled(w, ListStep(c, stat, accepted))
    ensures var s := w.sessions[c];
      var next := After(w, ListStep(c, stat, accepted));
      && (s.thread != Idle || (s.conn == NoConnection && !stat) ==> next.sessions[c] == s)
      && (s.thread == Idle && (stat || (accepted && s.conn != NoConnection)) ==>
            next.sessions[c] == s.(thread := Listing) && Enabled(next, ThreadEnds(c))
            && After(next, ThreadEnds(c)).sessions[c] == s.(thread := Idle, conn := NoConnection))
      && (s.thread == Idle && !stat && !accepted ==> next.sessions[c] == s.(conn := NoConnection))
  {
  }

  /** RETR starts a thread for a regular file alone, and RETR and STOR after a PASV only when
      the slave answers; then the connection is opened there under the session's id. */
  lemma TransferStarts(w: World, c: int, path: string, answered: bool)
    requires c in w.sessions && w.sessions[c].thread == Idle && Resolvable(w, path)
    ensures var s := w.sessions[c];
      var retr, stor := After(w, RetrStep(c, path, answered)), After(w, StorStep(c, answered));
      var opens := if s.conn == Pasv then w.opens + {(s.transId, s.slave)} else w.opens;
      if s.conn == Pasv && !answered then retr == w && stor == w
      else
        stor == w.(sessions := w.sessions[c := s.(thread := StorStarted)], opens := opens)
        && retr == if IsRegular(w, path)
                   then w.(sessions := w.sessions[c := s.(thread := RetrStarted(path))], opens := opens)
                   else w
  {
  }

  /** After PORT a RETR of a regular file and a STOR take a new id of their own, and send no
      passive call. */
  lemma ActiveTransfers(w: World, c: int, path: string, fid: int, answered: bool)
    requires c in w.sessions && w.sessions[c].thread == Idle && w.slaves != {} && Resolvable(w, path)
    ensures Enabled(w, PortStep(c))
    ensures var ported := After(w, PortStep(c));
      Enabled(ported, StorStep(c, answered))
      && var started := After(ported, StorStep(c, answered));
         Enabled(started, ThreadStores(c, fid))
         && var sent := After(started, ThreadStores(c, fid));
            sent.actives == w.actives + {w.transCounter + 1} && sent.transCounter == w.transCounter + 1
            && sent.calls == w.calls
    ensures IsRegular(w, path) ==>
      var ported := After(w, PortStep(c));
      Enabled(ported, RetrStep(c, path, answered))
      && var started := After(ported, RetrStep(c, path, answered));
         Enabled(started, ThreadRetrieves(c))
         && var sent := After(started, ThreadRetrieves(c));
            sent.actives == w.actives + {w.transCounter + 1} && sent.transCounter == w.transCounter + 1
            && sent.calls == w.calls
  {
  }

  /** PRET RETR, PASV, RETR of a regular file whose slave runs: from any world in which the
      client waits, the call goes to that slave with the fid and the new id. */
  lemma PassiveRetrieve(w: World, c: int, path: string, picked: Slave)
    requires c in w.sessions && w.sessions[c].thread == Idle && Resolvable(w, path) && IsRegular(w, path)
    requires SlaveOf(w.sys.st, FidOf(w, path)) in w.slaves
    ensures Enabled(w, PretStep(c, PretRetr, path))
    ensures var asked := After(w, PretStep(c, PretRetr, path));
      Enabled(asked, PasvStep(c, picked, true))
      && var open := After(asked, PasvStep(c, picked, true));
         Enabled(open, RetrStep(c, path, true))
         && var started := After(open, RetrStep(c, path, true));
            Enabled(started, ThreadRetrieves(c))
            && var sent := After(started, ThreadRetrieves(c));
               var f, slave := FidOf(w, path), SlaveOf(w.sys.st, FidOf(w, path));
               sent.calls == w.calls + [Call(true, f, slave, w.transCounter + 1, f, slave)]
               && (w.transCounter + 1, slave) in sent.opens && Enabled(sent, ThreadEnds(c))
               && After(sent, ThreadEnds(c)).sessions[c].thread == Idle
               && After(sent, ThreadEnds(c)).sessions[c].conn == NoConnection
  {
  }

  /** PRET STOR or APPE, PASV, STOR: the call goes to the slave picked, or for APPE to the
      slave of the file. */
  lemma PassiveStore(w: World, c: int, appends: bool, path: string, picked: Slave, fid: int)
    requires c in w.sessions && w.sessions[c].thread == Idle && Resolvable(w, path)
    requires appends ==> IsRegular(w, path)
    requires (if appends then SlaveOf(w.sys.st, FidOf(w, path)) else picked) in w.slaves
    ensures Enabled(w, PretStep(c, if appends then PretAppe else PretStor, path))
    ensures var slave := if appends then SlaveOf(w.sys.st, FidOf(w, path)) else picked;
      var asked := After(w, PretStep(c, if appends then PretAppe else PretStor, path));
      Enabled(asked, PasvStep(c, picked, true))
      && var open := After(asked, PasvStep(c, picked, true));
         Enabled(open, StorStep(c, true))
         && var started := After(open, StorStep(c, true));
            Enabled(started, ThreadStores(c, fid))
            && var sent := After(started, ThreadStores(c, fid));
               |sent.calls| == |w.calls| + 1 && sent.calls[..|w.calls|] == w.calls
               && var call := sent.calls[|w.calls|];
                  !call.retrieves && call.fid == fid && call.slave == slave && call.transId == w.transCounter + 1
                  && (w.transCounter + 1, slave) in sent.opens && Enabled(sent, ThreadEnds(c))
  {
  }

  // ---- PASV on Redis ------------------------------------------------------------------------

  /** The two Redis calls of a PASV that goes to a slave. */
  method PasvCalls(redis: Redis, ghost w: World, c: int, pret: PretCmd, pretFid: int, picked: Slave)
    returns (slave: Slave, id: int)
    requires redis.View() == w.sys.st && redis.transactionCounter == w.transCounter && c in w.sessions
    requires pret == w.sessions[c].pret != NoPret && pretFid == w.sessions[c].pretFid
    modifies redis`transactionCounter
    ensures redis.View() == w.sys.st && id == old(redis.transactionCounter) + 1
    ensures pret == PretRetr || pret == PretAppe ==> slave == SlaveOf(w.sys.st, pretFid)
    ensures pret == PretStor ==> slave == picked
    ensures forall answered ::
      var next := AfterPasv(w, c, picked, answered);
      slave == next.sessions[c].slave && id == next.sessions[c].transId == next.transCounter == redis.transactionCounter
  {
    slave := picked;
    if pret != PretStor {
      slave := redis.LookupSlaveInfo(pretFid);
    }
    id := redis.GetNewTransactionId();
  }
}
