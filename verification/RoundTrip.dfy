// From STOR to RETR: the metaserver's name space, the disks of the slaves and the
// uploads in progress as one system, and what an upload still means after any run
// that leaves its path alone.

module RoundTrip {
  import opened Paths
  import opened Vfs
  import opened VfsInvariant
  import opened VfsResolution
  import opened SlaveHandler
  import opened RedisVfs

  /** Where a StoreThread stands between get_new_fid and save_new_file. */
  datatype Phase = Allocated | Stored(slave: Slave)

  datatype Sys = Sys(
    st: Store,
    uploads: map<int, Phase>,
    disks: map<Slave, map<int, seq<byte>>>)

  datatype Event =
    | Edit(op: Op)
    | Begin
    | Transfer(fid: int, slave: Slave, mode: OpenMode, flushed: seq<byte>)
    | Finish(path: string, fid: int, size: int, a: Attributes)
    | Abandon(fid: int)

  function Disk(sys: Sys, slave: Slave): map<int, seq<byte>> {
    if slave in sys.disks then sys.disks[slave] else map[]
  }

  /** Files on a disk carry fids that were handed out; a fid whose upload is not saved
      yet is on the disk it was sent to, if on any. */
  ghost predicate DisksKnown(sys: Sys) {
    forall s, f :: OnDisk(sys, s, f) ==>
      0 < f <= sys.st.counter && (f in sys.uploads ==> sys.uploads[f] == Stored(s))
  }

  ghost predicate OnDisk(sys: Sys, s: Slave, f: int) {
    s in sys.disks && f in sys.disks[s]
  }

  ghost predicate SysInv(sys: Sys) {
    Inv(sys.st, sys.uploads.Keys) && DisksKnown(sys)
  }

  /** Where every run begins: the store InitRedis leaves, no upload and no file. */
  lemma InitHoldsSysInv(now: int)
    ensures SysInv(Sys(InitRedis(now), map[], map[]))
  {
    InitHoldsInv(now);
  }

  ghost predicate Allowed(sys: Sys, e: Event) {
    match e
    case Edit(op) => !op.NewFidOp? && !op.SaveOp? && Legal(sys.st, sys.uploads.Keys, op)
    case Begin => true
    case Transfer(fid, _, _, _) => fid in sys.uploads && sys.uploads[fid] == Allocated
    case Finish(path, fid, _, _) =>
      Editable(path) && DirParent(sys.st, path) && fid in sys.uploads && sys.uploads[fid].Stored?
    case Abandon(fid) => fid in sys.uploads
  }

  /** The operation on the name space an event amounts to. */
  ghost function OpOf(sys: Sys, e: Event): Op
    requires Allowed(sys, e) && (e.Edit? || e.Begin? || e.Finish?)
  {
    match e
    case Edit(op) => op
    case Begin => NewFidOp
    case Finish(path, fid, size, a) => SaveOp(path, size, a, fid, sys.uploads[fid].slave)
  }

  ghost function Next(sys: Sys, e: Event): Sys
    requires Allowed(sys, e)
  {
    match e
    case Transfer(fid, slave, mode, flushed) =>
      var disk := Disk(sys, slave);
      sys.(uploads := sys.uploads[fid := Stored(slave)],
           disks := sys.disks[slave := disk[fid := Handler.BaseOf(disk, fid, mode) + flushed]])
    case Abandon(fid) => sys.(uploads := sys.uploads - {fid})
    case Edit(op) => sys.(st := StoreAfter(sys.st, op))
    case Begin => sys.(st := StoreAfter(sys.st, NewFidOp), uploads := sys.uploads[sys.st.counter + 1 := Allocated])
    case Finish(_, fid, _, _) => sys.(st := StoreAfter(sys.st, OpOf(sys, e)), uploads := sys.uploads - {fid})
  }

  ghost function StoreAfter(st: Store, op: Op): Store
    requires op.NewFidOp? || Editable(op.path)
  {
    match Run(st, op) case Done(after, _) => after case Hangs => st
  }

  /** The names whose entries an operation writes.  A rename writes the new name into
      the directory of the old one. */
  ghost function Written(op: Op): set<seq<string>>
    requires op.NewFidOp? || Editable(op.path)
    requires op.RenameOp? ==> Editable(op.newPath)
  {
    match op
    case NewFidOp => {}
    case RenameOp(path, newPath) => {Names(path), Front(Names(path)) + [Last(Names(newPath))]}
    case _ => {Names(op.path)}
  }

  /** The event writes neither the path q nor an ancestor of it. */
  ghost predicate LeavesAlone(sys: Sys, e: Event, q: seq<string>)
    requires Allowed(sys, e)
  {
    e.Edit? || e.Finish? ==> forall w :: w in Written(OpOf(sys, e)) ==> !Below(w, q)
  }

  // ---- One operation on the name space ----------------------------------------------

  /** A legal operation that does not write q or an ancestor leaves q where it is and
      leaves the record of what it resolves to. */
  lemma OpLeavesAlone(st: Store, pending: set<int>, op: Op, q: seq<string>)
    requires Inv(st, pending) && Legal(st, pending, op)
    requires forall w :: w in Written(op) ==> !Below(w, q)
    requires Walk(st, 0, q).At? && Walk(st, 0, q).fid >= 0
    ensures Run(st, op).Done? && Walk(Run(st, op).st, 0, q) == Walk(st, 0, q)
    ensures HGetStat(Run(st, op).st, Walk(st, 0, q).fid) == HGetStat(st, Walk(st, 0, q).fid)
  {
    var f := Walk(st, 0, q).fid;
    ArrivesKnown(st, q);
    match op {
      case NewFidOp =>
        WalkIgnoresCounter(st, 0, q);
      case MkdirOp(path, a) =>
        LegalMkdir(st, pending, path, a);
        MkdirResolution(st, pending, path, a);
        LegalLookups(st, path);
        WalkIgnoresCounter(st, 0, q);
      case SaveOp(path, size, a, fid, slave) =>
        LegalSave(st, pending, path, size, a, fid, slave);
        SaveResolution(st, pending, path, size, a, fid, slave);
      case RemoveOp(path) =>
        RemoveLeavesAlone(st, pending, path, q);
      case RenameOp(path, newPath) =>
        RenameLeavesAlone(st, pending, path, newPath, q);
      case RmdirOp(path) =>
        RmdirIsRemove(st, pending, path);
        PathIsNames(st, path);
        if Rmdir(st, path).code == 0 { RemoveLeavesAlone(st, pending, path, q); }
    }
  }

  lemma ElsewhereIsOther(st: Store, p: seq<string>, q: seq<string>)
    requires TreeInv(st) && !Below(p, q) && Walk(st, 0, q).At? && Walk(st, 0, q).fid >= 0
    ensures Walk(st, 0, p) != Walk(st, 0, q)
  {
    if Walk(st, 0, p) == Walk(st, 0, q) {
      LookupInjective(st, q, p);
    }
  }

  lemma RemoveLeavesAlone(st: Store, pending: set<int>, path: string, q: seq<string>)
    requires Inv(st, pending) && Legal(st, pending, RemoveOp(path)) && !Below(Names(path), q)
    requires Walk(st, 0, q).At? && Walk(st, 0, q).fid >= 0
    ensures Rooted(path) && Remove(st, path).Done?
    ensures Walk(Remove(st, path).st, 0, q) == Walk(st, 0, q)
    ensures HGetStat(Remove(st, path).st, Walk(st, 0, q).fid) == HGetStat(st, Walk(st, 0, q).fid)
  {
    LegalRemove(st, pending, path);
    PathIsNames(st, path);
    var parent := Walk(st, 0, Front(Names(path)));
    var n := Last(Names(path));
    if parent.At? && HasSlot(st, parent.fid, n) && Slot(st, parent.fid, n) >= 0 {
      SlotCleared(st, Remove(st, path).st, path, parent.fid);
      ElsewhereIsOther(st, Names(path), q);
    }
  }

  lemma RenameLeavesAlone(st: Store, pending: set<int>, path: string, newPath: string, q: seq<string>)
    requires Inv(st, pending) && Editable(path) && DirParent(st, path) && Editable(newPath)
    requires !Below(Names(path), q) && !Below(Front(Names(path)) + [Last(Names(newPath))], q)
    ensures Rooted(path) && Rename(st, path, newPath).Done?
    ensures Walk(Rename(st, path, newPath).st, 0, q) == Walk(st, 0, q)
    ensures Rename(st, path, newPath).st.stat == st.stat
  {
    LegalRename(st, pending, path, newPath);
    var parent := Walk(st, 0, Front(Names(path)));
    var n, m := Last(Names(path)), Last(Names(newPath));
    if parent.At? && HasSlot(st, parent.fid, n) && Slot(st, parent.fid, n) >= 0 {
      MoveLeavesAlone(st, Rename(st, path, newPath).st, Names(path), parent.fid, m, q);
    }
  }

  lemma MoveLeavesAlone(st: Store, made: Store, names: seq<string>, d: int, m: string, q: seq<string>)
    requires TreeInv(st) && names != [] && Walk(st, 0, Front(names)) == At(d)
    requires HasSlot(st, d, Last(names)) && Last(names) !in RESERVED
    requires made.dirent == st.dirent[d := (st.dirent[d] - {Last(names)})[m := Slot(st, d, Last(names))]]
    requires !Below(names, q) && !Below(Front(names) + [m], q)
    ensures Walk(made, 0, q) == Walk(st, 0, q)
  {
    assert names == Front(names) + [Last(names)];
    RenameEdits(st, made, d, Last(names), m);
    EditFrame(st, made, Front(names), d, {Last(names), m}, q);
  }

  // ---- The system ------------------------------------------------------------------

  lemma TransferKeepsInv(sys: Sys, e: Event)
    requires SysInv(sys) && Allowed(sys, e) && (e.Transfer? || e.Abandon?)
    ensures SysInv(Next(sys, e))
  {
    var next := Next(sys, e);
    assert next.uploads.Keys == if e.Transfer? then sys.uploads.Keys else sys.uploads.Keys - {e.fid};
    forall s, f | OnDisk(next, s, f)
      ensures 0 < f <= next.st.counter && (f in next.uploads ==> next.uploads[f] == Stored(s))
    {
      assert OnDisk(sys, s, f) || (e.Transfer? && f == e.fid && s == e.slave);
      assert e.fid in sys.uploads.Keys;
    }
  }

  lemma EditKeepsInv(sys: Sys, e: Event)
    requires SysInv(sys) && Allowed(sys, e) && (e.Edit? || e.Begin? || e.Finish?)
    ensures SysInv(Next(sys, e))
  {
    var op := OpOf(sys, e);
    LegalOp(sys.st, sys.uploads.Keys, op);
    CounterGrows(sys.st, sys.uploads.Keys, op);
    var next := Next(sys, e);
    assert next.uploads.Keys == PendingAfter(sys.st, sys.uploads.Keys, op);
    forall s, f | OnDisk(next, s, f)
      ensures 0 < f <= next.st.counter && (f in next.uploads ==> next.uploads[f] == Stored(s))
    {
      assert OnDisk(sys, s, f);
    }
  }

  lemma NextKeepsInv(sys: Sys, e: Event)
    requires SysInv(sys) && Allowed(sys, e)
    ensures SysInv(Next(sys, e))
  {
    if e.Transfer? || e.Abandon? { TransferKeepsInv(sys, e); } else { EditKeepsInv(sys, e); }
  }

  lemma CounterGrows(st: Store, pending: set<int>, op: Op)
    requires Inv(st, pending) && Legal(st, pending, op)
    ensures Run(st, op).Done? && Run(st, op).st.counter >= st.counter
  {
    match op {
      case NewFidOp =>
      case MkdirOp(path, a) => LegalMkdir(st, pending, path, a);
      case SaveOp(path, size, a, fid, slave) => LegalSave(st, pending, path, size, a, fid, slave);
      case RemoveOp(path) => LegalRemove(st, pending, path);
      case RenameOp(path, newPath) => LegalRename(st, pending, path, newPath);
      case RmdirOp(path) => LegalRmdir(st, pending, path);
    }
  }

  /** Path q is the regular file f, recorded with this size on a slave whose disk has
      these bytes. */
  ghost predicate Holds(sys: Sys, q: seq<string>, f: int, size: int, slave: Slave, content: seq<byte>) {
    && Walk(sys.st, 0, q) == At(f) && f > 0 && f in sys.st.stat && f !in sys.uploads
    && IsFile(sys.st, f) && StatOf(sys.st, f).size == size && SlaveOf(sys.st, f) == slave
    && f in Disk(sys, slave) && Disk(sys, slave)[f] == content
  }

  lemma NextKeepsFile(
      sys: Sys, e: Event, q: seq<string>, f: int, size: int, slave: Slave, content: seq<byte>)
    requires SysInv(sys) && Allowed(sys, e) && LeavesAlone(sys, e, q) && Holds(sys, q, f, size, slave, content)
    ensures Holds(Next(sys, e), q, f, size, slave, content)
  {
    var next := Next(sys, e);
    if e.Edit? || e.Begin? || e.Finish? {
      OpLeavesAlone(sys.st, sys.uploads.Keys, OpOf(sys, e), q);
      LegalOp(sys.st, sys.uploads.Keys, OpOf(sys, e));
      NextKeepsInv(sys, e);
      ArrivesKnown(next.st, q);
    }
  }

  ghost predicate AllowedRun(sys: Sys, events: seq<Event>)
    decreases |events|
  {
    events != [] ==> Allowed(sys, events[0]) && AllowedRun(Next(sys, events[0]), events[1..])
  }

  ghost function End(sys: Sys, events: seq<Event>): Sys
    requires AllowedRun(sys, events)
    decreases |events|
  {
    if events == [] then sys else End(Next(sys, events[0]), events[1..])
  }

  ghost predicate RunLeavesAlone(sys: Sys, events: seq<Event>, q: seq<string>)
    requires AllowedRun(sys, events)
    decreases |events|
  {
    events != [] ==> LeavesAlone(sys, events[0], q) && RunLeavesAlone(Next(sys, events[0]), events[1..], q)
  }

  /** A stored file stays what it is over every run that leaves its path alone. */
  lemma {:induction false} RunKeepsFile(
      sys: Sys, events: seq<Event>, q: seq<string>, f: int, size: int, slave: Slave, content: seq<byte>)
    requires SysInv(sys) && AllowedRun(sys, events) && RunLeavesAlone(sys, events, q)
    requires Holds(sys, q, f, size, slave, content)
    ensures SysInv(End(sys, events)) && Holds(End(sys, events), q, f, size, slave, content)
    decreases |events|
  {
    if events != [] {
      NextKeepsInv(sys, events[0]);
      NextKeepsFile(sys, events[0], q, f, size, slave, content);
      RunKeepsFile(Next(sys, events[0]), events[1..], q, f, size, slave, content);
    }
  }

  /** An upload in progress keeps its bytes on the slave over every run in which no
      event is about its fid: a fid belongs to one StoreThread. */
  ghost predicate NotAbout(events: seq<Event>, fid: int) {
    forall e :: e in events ==> (e.Transfer? || e.Finish? || e.Abandon?) ==> e.fid != fid
  }

  lemma {:induction false} RunKeepsUpload(sys: Sys, events: seq<Event>, fid: int, slave: Slave, content: seq<byte>)
    requires SysInv(sys) && AllowedRun(sys, events) && NotAbout(events, fid)
    requires fid in sys.uploads && sys.uploads[fid] == Stored(slave)
    requires fid in Disk(sys, slave) && Disk(sys, slave)[fid] == content
    ensures var end := End(sys, events);
      SysInv(end) && fid in end.uploads && end.uploads[fid] == Stored(slave)
      && fid in Disk(end, slave) && Disk(end, slave)[fid] == content
    decreases |events|
  {
    if events != [] {
      NextKeepsInv(sys, events[0]);
      assert events[0] in events;
      RunKeepsUpload(Next(sys, events[0]), events[1..], fid, slave, content);
    }
  }

  /** A fresh fid begins with nothing on its slave, whichever way the file is opened. */
  lemma TransferWrites(sys: Sys, fid: int, slave: Slave, mode: OpenMode, flushed: seq<byte>)
    requires SysInv(sys) && Allowed(sys, Transfer(fid, slave, mode, flushed))
    ensures var next := Next(sys, Transfer(fid, slave, mode, flushed));
      fid in Disk(next, slave) && Disk(next, slave)[fid] == flushed
      && next.uploads[fid] == Stored(slave)
  {
    assert !OnDisk(sys, slave, fid);
    assert [] + flushed == flushed;
  }

  /** save_new_file of the upload of fid succeeds. */
  ghost predicate SaveSucceeds(sys: Sys, e: Event)
    requires Allowed(sys, e) && e.Finish?
  {
    Run(sys.st, OpOf(sys, e)).Done? && Run(sys.st, OpOf(sys, e)).code == 0
  }

  lemma FinishHolds(sys: Sys, e: Event, slave: Slave, content: seq<byte>)
    requires SysInv(sys) && Allowed(sys, e) && e.Finish? && sys.uploads[e.fid] == Stored(slave)
    requires e.fid in Disk(sys, slave) && Disk(sys, slave)[e.fid] == content && SaveSucceeds(sys, e)
    ensures Holds(Next(sys, e), Names(e.path), e.fid, e.size, slave, content)
  {
    LegalOp(sys.st, sys.uploads.Keys, OpOf(sys, e));
    SaveResolution(sys.st, sys.uploads.Keys, e.path, e.size, e.a, e.fid, slave);
    NextKeepsInv(sys, e);
  }

  /** End to end.  An upload of `content` as fid to a slave, saved as a path after any
      events that are not about the fid, is what that path resolves to after any further
      events that leave the path and its ancestors alone: the same fid, the size and slave
      recorded at store time, and exactly the bytes stored. */
  lemma UploadStays(
      start: Sys, fid: int, slave: Slave, mode: OpenMode, content: seq<byte>, between: seq<Event>,
      path: string, size: int, a: Attributes, after: seq<Event>)
    requires SysInv(start) && Allowed(start, Transfer(fid, slave, mode, content))
    requires AllowedRun(Next(start, Transfer(fid, slave, mode, content)), between) && NotAbout(between, fid)
    requires var saving := End(Next(start, Transfer(fid, slave, mode, content)), between);
      var finish := Finish(path, fid, size, a);
      Allowed(saving, finish) && SaveSucceeds(saving, finish)
      && AllowedRun(Next(saving, finish), after) && RunLeavesAlone(Next(saving, finish), after, Names(path))
    ensures var saving := End(Next(start, Transfer(fid, slave, mode, content)), between);
      var end := End(Next(saving, Finish(path, fid, size, a)), after);
      SysInv(end) && Holds(end, Names(path), fid, size, slave, content)
  {
    var stored := Next(start, Transfer(fid, slave, mode, content));
    var finish := Finish(path, fid, size, a);
    NextKeepsInv(start, Transfer(fid, slave, mode, content));
    TransferWrites(start, fid, slave, mode, content);
    RunKeepsUpload(stored, between, fid, slave, content);
    var saving := End(stored, between);
    FinishHolds(saving, finish, slave, content);
    NextKeepsInv(saving, finish);
    RunKeepsFile(Next(saving, finish), after, Names(path), fid, size, slave, content);
  }

  /** From every state an upload can be made: below a directory any path becomes the next fid,
      recorded on the slave, whose disk has the bytes. */
  lemma UploadCanBeMade(sys: Sys, slave: Slave, mode: OpenMode, content: seq<byte>, path: string, a: Attributes)
    requires SysInv(sys) && Editable(path)
    requires Walk(sys.st, 0, Front(Names(path))).At? && Walk(sys.st, 0, Front(Names(path))).fid in sys.st.dirent
    ensures Allowed(sys, Begin)
    ensures var begun := Next(sys, Begin); var fid := sys.st.counter + 1;
      var transfer, finish := Transfer(fid, slave, mode, content), Finish(path, fid, |content|, a);
      Allowed(begun, transfer)
      && var stored := Next(begun, transfer);
         Allowed(stored, finish) && SaveSucceeds(stored, finish)
         && Holds(Next(stored, finish), Names(path), fid, |content|, slave, content)
  {
    var fid := sys.st.counter + 1;
    var begun := BeginGivesFid(sys, path);
    var transfer := Transfer(fid, slave, mode, content);
    TransferWrites(begun, fid, slave, mode, content);
    NextKeepsInv(begun, transfer);
    FinishCanBeMade(Next(begun, transfer), fid, slave, content, path, a);
  }

  lemma BeginGivesFid(sys: Sys, path: string) returns (begun: Sys)
    requires SysInv(sys) && Editable(path)
    ensures Allowed(sys, Begin) && begun == Next(sys, Begin) && SysInv(begun)
    ensures sys.st.counter + 1 in begun.uploads && begun.uploads[sys.st.counter + 1] == Allocated
    ensures begun.st.dirent == sys.st.dirent
    ensures Walk(begun.st, 0, Front(Names(path))) == Walk(sys.st, 0, Front(Names(path)))
  {
    begun := Next(sys, Begin);
    NextKeepsInv(sys, Begin);
    WalkIgnoresCounter(sys.st, 0, Front(Names(path)));
  }

  lemma FinishCanBeMade(sys: Sys, fid: int, slave: Slave, content: seq<byte>, path: string, a: Attributes)
    requires SysInv(sys) && Editable(path)
    requires Walk(sys.st, 0, Front(Names(path))).At? && Walk(sys.st, 0, Front(Names(path))).fid in sys.st.dirent
    requires fid in sys.uploads && sys.uploads[fid] == Stored(slave)
    requires fid in Disk(sys, slave) && Disk(sys, slave)[fid] == content
    ensures var finish := Finish(path, fid, |content|, a);
      Allowed(sys, finish) && SaveSucceeds(sys, finish)
      && Holds(Next(sys, finish), Names(path), fid, |content|, slave, content)
  {
    LegalSave(sys.st, sys.uploads.Keys, path, |content|, a, fid, slave);
    FinishHolds(sys, Finish(path, fid, |content|, a), slave, content);
  }

  /** An upload that is given up leaves no trace but its bytes; its fid is never used again. */
  lemma AbandonForgets(sys: Sys, fid: int)
    requires fid in sys.uploads
    ensures Allowed(sys, Abandon(fid))
    ensures var next := Next(sys, Abandon(fid));
      fid !in next.uploads && next.st == sys.st && next.disks == sys.disks
      && !exists e :: Allowed(next, e) && (e.Transfer? || e.Finish? || e.Abandon?) && e.fid == fid
  {
  }

  /** Every legal operation but the two of an upload may come in between, and is done. */
  lemma EditsHappen(sys: Sys, op: Op)
    requires SysInv(sys) && Legal(sys.st, sys.uploads.Keys, op) && !op.NewFidOp? && !op.SaveOp?
    ensures Allowed(sys, Edit(op)) && Run(sys.st, op).Done?
    ensures Next(sys, Edit(op)) == sys.(st := Run(sys.st, op).st)
  {
    LegalOp(sys.st, sys.uploads.Keys, op);
  }

  /** What leaves a path alone, spelled out: all events but the edits and saves, those of a path
      that is not on the way to it, and a rename of which neither name is. */
  lemma LeavesAloneSpelledOut(sys: Sys, e: Event, q: seq<string>)
    requires Allowed(sys, e)
    ensures e.Begin? || e.Transfer? || e.Abandon? ==> LeavesAlone(sys, e, q)
    ensures e.Finish? && !(Names(e.path) <= q) ==> LeavesAlone(sys, e, q)
    ensures e.Edit? && !e.op.RenameOp? && !(Names(e.op.path) <= q) ==> LeavesAlone(sys, e, q)
    ensures e.Edit? && e.op.RenameOp?
      && !(Names(e.op.path) <= q) && !(Front(Names(e.op.path)) + [Last(Names(e.op.newPath))] <= q)
      ==> LeavesAlone(sys, e, q)
  {
  }

  // ---- The two transfers -----------------------------------------------------------

  /** RETR of a path that holds a file, with no restart: the metaserver looks up the fid
      and the slave recorded for it, and that slave sends the whole file. */
  method Download(redis: Redis, ghost sys: Sys, path: string, ghost size: int, ghost slave: Slave,
                  ghost content: seq<byte>, disk: Handler, bufferSize: nat, id: int,
                  blocks: seq<nat>, sends: seq<int>)
    returns (from: Slave, reply: string, out: seq<byte>)
    requires redis.View() == sys.st && IsNormal(path)
    requires exists f :: Holds(sys, Names(path), f, size, slave, content)
    requires disk.files == Disk(sys, slave)
    requires disk.SocketsConserved() && id in disk.mDataSock && disk.mDataSock[id] != INVALID_SOCKET
    requires bufferSize > 0 && NoSendError(sends)
    modifies disk`mDataSock, disk`closed
    ensures from == slave && out == content && reply == "226 Transfer complete."
  {
    PathIsNames(sys.st, path);
    var fid := redis.LookupFid(path);
    from := redis.LookupSlaveInfo(fid);
    reply, out := disk.Retrieve(bufferSize, fid, 0, id, FileAnswers(true, true), blocks, sends);
    assert disk.files[fid][0..] == disk.files[fid];
  }

  /** STOR from offset 0 whose peer closes cleanly, with no write error: the slave's disk
      is the one the event Transfer of the whole stream describes. */
  method Upload(ghost sys: Sys, fid: int, slave: Slave, disk: Handler, bufferSize: nat, id: int,
                net: seq<Incoming>, writes: seq<int>)
    returns (ret: StorRetVal)
    requires SysInv(sys) && fid in sys.uploads && sys.uploads[fid] == Allocated
    requires disk.files == Disk(sys, slave)
    requires disk.SocketsConserved() && id in disk.mDataSock && disk.mDataSock[id] != INVALID_SOCKET
    requires bufferSize > 0 && ClosesCleanly(net) && NoWriteError(writes)
    modifies disk`files, disk`mDataSock, disk`closed
    ensures ret == StorRetVal("226 Transfer complete.", |Sent(net)|)
    ensures var e := Transfer(fid, slave, Truncate, Sent(net));
      Allowed(sys, e) && disk.files == Disk(Next(sys, e), slave)
  {
    ghost var got, flushed;
    ret, got, flushed := disk.Store(bufferSize, fid, 0, Truncate, id, FileAnswers(true, true), net, writes);
    TransferWrites(sys, fid, slave, Truncate, Sent(net));
  }

  /** The two together, with the size that Store returns saved as the size of the file:
      what the second peer receives is what the first one sent, and the record of the path
      says how much that is. */
  method StoreThenRetrieve(
      ghost start: Sys, fid: int, slave: Slave, up: Handler, bufferSize: nat, upId: int,
      net: seq<Incoming>, writes: seq<int>, ghost between: seq<Event>,
      path: string, ghost a: Attributes, ghost after: seq<Event>,
      redis: Redis, down: Handler, downId: int, blocks: seq<nat>, sends: seq<int>)
    returns (from: Slave, out: seq<byte>)
    requires SysInv(start) && fid in start.uploads && start.uploads[fid] == Allocated
    requires AllowedRun(Next(start, Transfer(fid, slave, Truncate, Sent(net))), between) && NotAbout(between, fid)
    requires var saving := End(Next(start, Transfer(fid, slave, Truncate, Sent(net))), between);
      var finish := Finish(path, fid, |Sent(net)|, a);
      Allowed(saving, finish) && SaveSucceeds(saving, finish)
      && AllowedRun(Next(saving, finish), after) && RunLeavesAlone(Next(saving, finish), after, Names(path))
    requires var saving := End(Next(start, Transfer(fid, slave, Truncate, Sent(net))), between);
      var end := End(Next(saving, Finish(path, fid, |Sent(net)|, a)), after);
      redis.View() == end.st && down.files == Disk(end, slave)
    requires up != down && up.files == Disk(start, slave)
    requires up.SocketsConserved() && upId in up.mDataSock && up.mDataSock[upId] != INVALID_SOCKET
    requires down.SocketsConserved() && downId in down.mDataSock && down.mDataSock[downId] != INVALID_SOCKET
    requires bufferSize > 0 && ClosesCleanly(net) && NoWriteError(writes) && NoSendError(sends)
    modifies up`files, up`mDataSock, up`closed, down`mDataSock, down`closed
    ensures from == slave && out == Sent(net)
    ensures Walk(redis.View(), 0, Names(path)) == At(fid) && StatOf(redis.View(), fid).size == |out|
  {
    var _ := Upload(start, fid, slave, up, bufferSize, upId, net, writes);
    UploadStays(start, fid, slave, Truncate, Sent(net), between, path, |Sent(net)|, a, after);
    ghost var saving := End(Next(start, Transfer(fid, slave, Truncate, Sent(net))), between);
    ghost var end := End(Next(saving, Finish(path, fid, |Sent(net)|, a)), after);
    var reply;
    from, reply, out := Download(
      redis, end, path, |Sent(net)|, slave, Sent(net), down, bufferSize, downId, blocks, sends);
  }
}
