// redis_vfs as it runs: one Redis connection whose hashes the operations change
// command by command, and a lookup that loops over HGETALL.  Every operation is
// proved against its function in Vfs.

module RedisVfs {
  import opened Wrappers
  import opened Fields
  import opened Paths
  import opened Vfs
  import opened VfsInvariant
  import opened VfsResolution

  /** In a tree a path that resolves to a fid has a stat record, and it has entries
      exactly when it is a directory. */
  lemma ResolvedHasRecord(st: Store, path: string)
    requires TreeInv(st) && Rooted(path) && Code(Lookup(st, path)) >= 0
    ensures var f := Code(Lookup(st, path));
      HGetStat(st, f) != map[] && (IsDir(st, f) || IsFile(st, f)) && (HGetAll(st, f) != map[] <==> IsDir(st, f))
  {
    var f := Lookup(st, path).fid;
    ArrivesKnown(st, Tokens(path));
    assert "st_mode" !in HGetStat(st, f) ==> Mode(st, f) == 0;
    if f in st.dirent { assert HasSlot(st, f, Marker(f)); }
  }

  class Redis {
    var dirent: map<int, map<string, int>>
    var stat: map<int, map<string, Value>>
    var fidCounter: int
    var transactionCounter: int

    ghost function View(): Store
      reads this
    {
      Store(dirent, stat, fidCounter)
    }

    constructor (st: Store)
      ensures View() == st && transactionCounter == 0
    {
      dirent, stat, fidCounter, transactionCounter := st.dirent, st.stat, st.counter, 0;
    }

    // ---- Commands ----------------------------------------------------------

    method HGetAllDirent(d: int) returns (hash: map<string, int>)
      ensures hash == HGetAll(View(), d)
    {
      hash := if d in dirent then dirent[d] else map[];
    }

    method HSetDirent(d: int, name: string, fid: int)
      modifies this`dirent
      ensures View() == HSet(old(View()), d, name, fid)
    {
      var hash := HGetAllDirent(d);
      dirent := dirent[d := hash[name := fid]];
    }

    method HDelDirent(d: int, name: string)
      modifies this`dirent
      ensures View() == HDel(old(View()), d, name)
    {
      if d in dirent {
        var rest := dirent[d] - {name};
        dirent := if rest == map[] then dirent - {d} else dirent[d := rest];
      }
    }

    method HSetField(f: int, field: string, v: Value)
      modifies this`stat
      ensures View() == HSetStat(old(View()), f, field, v)
    {
      stat := stat[f := (if f in stat then stat[f] else map[])[field := v]];
    }

    method DelStatKey(f: int)
      modifies this`stat
      ensures View() == DelStat(old(View()), f)
    {
      stat := stat - {f};
    }

    // ---- redis_vfs -----------------------------------------------------------

    method GetNewFid() returns (fid: int)
      modifies this`fidCounter
      ensures View() == Incr(old(View())) && fid == old(fidCounter) + 1
    {
      fidCounter := fidCounter + 1;
      fid := fidCounter;
    }

    method GetNewTransactionId() returns (id: int)
      modifies this`transactionCounter
      ensures transactionCounter == old(transactionCounter) + 1 == id
    {
      transactionCounter := transactionCounter + 1;
      id := transactionCounter;
    }

    /** The loop of lookup_fid: it consumes one token a turn, as long as no hash it
        asks for is empty. */
    method LookupFid(path: string) returns (result: int)
      requires Rooted(path) && !Lookup(View(), path).Spins?
      ensures result == Code(Lookup(View(), path))
      ensures match Lookup(View(), path) case At(f) => result == f case _ => result == -1
    {
      var tokens := Split(path, {'/'});
      assert [path[0]] + path[1..] == path;
      if |tokens| == 2 && tokens[1] == "" {
        assert tokens[1..] == [""];
        return 0;
      }
      var fid := 0;
      tokens := tokens[1..];
      if tokens[|tokens| - 1] == "" {
        tokens := tokens[..|tokens| - 1];
      }
      while |tokens| > 0
        invariant Walk(View(), fid, tokens) == Lookup(View(), path)
        decreases |tokens|
      {
        var hash := HGetAllDirent(fid);
        if |hash| > 0 {
          if tokens[0] in hash {
            fid := hash[tokens[0]];
            tokens := tokens[1..];
          } else {
            return -1;
          }
        } else {
          assert false;
        }
      }
      result := fid;
    }

    method MakeDir(path: string, a: Attributes) returns (code: int)
      requires Rooted(path) && !Mkdir(View(), path, a).Hangs?
      modifies this`dirent, this`stat, this`fidCounter
      ensures Done(View(), code) == Mkdir(old(View()), path, a)
    {
      var fid := GetNewFid();
      var found := LastSeparator(path);
      var parent := LookupFid(path[..found + 1]);
      if parent < 0 {
        return -1;
      }
      var entry := path[found + 1..];
      HSetField(fid, "st_size", Num(4096));
      HSetField(fid, "st_mode", Num(DIR_MODE));
      HSetField(fid, "st_uid", Num(a.uid));
      HSetField(fid, "st_gid", Num(a.gid));
      HSetField(fid, "st_mtime", Num(a.now));
      HSetDirent(parent, entry, fid);
      HSetDirent(fid, ".placeholder", -1);
      code := 0;
    }

    method SaveFile(path: string, size: int, a: Attributes, fid: int, slave: Slave) returns (code: int)
      requires Rooted(path) && !SaveNewFile(View(), path, size, a, fid, slave).Hangs?
      modifies this`dirent, this`stat
      ensures Done(View(), code) == SaveNewFile(old(View()), path, size, a, fid, slave)
    {
      var found := LastSeparator(path);
      var parent := LookupFid(path[..found + 1]);
      if parent < 0 {
        return -1;
      }
      var entry := path[found + 1..];
      HSetDirent(parent, entry, fid);
      HSetField(fid, "st_mode", Num(FILE_MODE));
      HSetField(fid, "st_size", Num(size));
      HSetField(fid, "st_uid", Num(a.uid));
      HSetField(fid, "st_gid", Num(a.gid));
      HSetField(fid, "st_mtime", Num(a.now));
      HSetField(fid, "slave_host", Text(slave.host));
      HSetField(fid, "slave_port", Num(slave.port));
      code := 0;
    }

    method RemoveFile(path: string) returns (code: int)
      requires Rooted(path) && !Remove(View(), path).Hangs?
      modifies this`dirent, this`stat
      ensures Done(View(), code) == Remove(old(View()), path)
    {
      var fid := LookupFid(path);
      if fid < 0 {
        return -1;
      }
      var found := LastSeparator(path);
      var parent := LookupFid(path[..found + 1]);
      if parent < 0 {
        return -1;
      }
      HDelDirent(parent, path[found + 1..]);
      DelStatKey(fid);
      code := 0;
    }

    method RemoveDir(path: string) returns (code: int)
      requires Rooted(path) && !Rmdir(View(), path).Hangs?
      modifies this`dirent, this`stat
      ensures Done(View(), code) == Rmdir(old(View()), path)
    {
      var fid := LookupFid(path);
      if fid < 0 {
        return -1;
      }
      var hash := HGetAllDirent(fid);
      var size := |hash|;
      if size == 0 {
        assert hash == map[];
        var found := LastSeparator(path);
        var parent := LookupFid(path[..found + 1]);
        if parent < 0 {
          return -1;
        }
        HDelDirent(parent, path[found + 1..]);
        DelStatKey(fid);
        return 0;
      }
      code := -1;
    }

    method RenameEntry(oldPath: string, newPath: string) returns (code: int)
      requires Rooted(oldPath) && !Rename(View(), oldPath, newPath).Hangs?
      modifies this`dirent
      ensures Done(View(), code) == Rename(old(View()), oldPath, newPath)
    {
      var fid := LookupFid(oldPath);
      if fid < 0 {
        return -1;
      }
      var found := LastSeparator(oldPath);
      var oldParentPath := oldPath[..found + 1];
      var oldParent := LookupFid(oldParentPath);
      if oldParent < 0 {
        return -1;
      }
      var oldEntry := oldPath[found + 1..];
      found := LastSeparator(newPath);
      var newParent := LookupFid(oldParentPath);
      if newParent < 0 {
        return -1;
      }
      var newEntry := newPath[found + 1..];
      assert Lookup(View(), oldPath) == At(fid) && Lookup(View(), ParentPath(oldPath)) == At(oldParent);
      ghost var before := View();
      assert Rename(before, oldPath, newPath)
        == Done(HSet(HDel(before, oldParent, oldEntry), oldParent, newEntry, fid), 0);
      HDelDirent(oldParent, oldEntry);
      HSetDirent(newParent, newEntry, fid);
      code := 0;
    }

    method LookupSlaveInfo(fid: int) returns (slave: Slave)
      ensures slave == SlaveOf(View(), fid) && (fid !in stat ==> slave == Slave("", 0))
    {
      var hash := if fid in stat then stat[fid] else map[];
      var host := if "slave_host" in hash && hash["slave_host"].Text? then hash["slave_host"].s else "";
      slave := Slave(host, NumField(hash, "slave_port"));
    }

    /** The stat of a path: None where redis_vfs::stat returns -1. */
    method Stat(path: string) returns (record: Option<FileStat>)
      requires Rooted(path) && !Lookup(View(), path).Spins?
      ensures var f := Code(Lookup(View(), path));
        record == if f < 0 || HGetStat(View(), f) == map[] then None else Some(StatOf(View(), f))
      ensures TreeInv(View()) ==>
        (record.Some? <==> Code(Lookup(View(), path)) >= 0)
        && (record.Some? ==> (record.value.mode / 4096 == 4 || record.value.mode / 4096 == 8))
    {
      var fid := LookupFid(path);
      if fid < 0 {
        return None;
      }
      if TreeInv(View()) { ResolvedHasRecord(View(), path); }
      var hash := if fid in stat then stat[fid] else map[];
      if |hash| > 0 {
        record := Some(FileStat(NumField(hash, "st_mode"), NumField(hash, "st_size"), NumField(hash, "st_uid"),
                                NumField(hash, "st_gid"), NumField(hash, "st_mtime")));
      } else {
        record := None;
      }
    }

    /** opendir: the whole hash, or None for a null directory. */
    method OpenDir(path: string) returns (dir: Option<map<string, int>>)
      requires Rooted(path) && !Lookup(View(), path).Spins?
      ensures var f := Code(Lookup(View(), path));
        dir == if f < 0 || HGetAll(View(), f) == map[] then None else Some(HGetAll(View(), f))
      ensures TreeInv(View()) ==>
        (dir.Some? <==> Code(Lookup(View(), path)) >= 0 && IsDir(View(), Code(Lookup(View(), path))))
    {
      var fid := LookupFid(path);
      if fid < 0 {
        return None;
      }
      if TreeInv(View()) { ResolvedHasRecord(View(), path); }
      var hash := HGetAllDirent(fid);
      dir := if |hash| > 0 then Some(hash) else None;
    }
  }
}
