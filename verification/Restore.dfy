/**
 * The restore of a server directory to the local disk (src/Restore.cc). It can stop at any
 * step, because the connection or the machine fails; what it leaves behind is the disk and
 * the resume file, from which a later run goes on.
 */
module Restore {
  import opened Common
  import opened Bytes
  import opened ResumeRecord
  import opened ResumeInfo
  import opened ServerTree
  import opened RestoreProgress

  /** The mode of a directory made by the restore before its own attributes are applied. */
  const OWNER_ONLY := 448

  datatype Result = Complete | ResumePossible | TargetExists | Crashed

  class RestoreJob {
    const server: Entry
    /** The target directory, at the empty path, and what is below it. */
    var disk: Disk
    var resumeFile: Option<seq<byte>>
    /** The outermost level; `spine` lists the levels linked below it and `mem` what they hold. */
    var resumeInfo: RestoreResumeInfo
    ghost var spine: seq<RestoreResumeInfo>
    ghost var mem: Chain
    /** The rest of the state that `RestoreProgress.State` describes. */
    ghost var started: bool
    ghost var saved: Chain
    ghost var done: set<Path>
    ghost var recent: seq<Path>
    ghost var base: Chain

    ghost function View(): State
      reads this
    {
      State(server, disk, resumeFile, started, saved, mem, done, recent, base)
    }

    ghost predicate Valid()
      reads this, spine
    {
      Represents(spine, mem) && spine[0] == resumeInfo && Sound(View())
    }

    /** `level` is level `k`, about the directory `dir` at `path`. */
    ghost predicate At(k: nat, level: RestoreResumeInfo, path: Path, dir: Entry)
      reads this, level
    {
      && k < |spine| == |mem| && spine[k] == level && mem[k] == level.AsLevel()
      && level.next == (if k + 1 < |spine| then spine[k + 1] else null)
      && path == SpinePath(mem, k)
      && NodeAt(server, path) == Some(dir) && dir.Dir?
    }

    lemma LevelAt(k: nat)
      requires Represents(spine, mem) && k < |mem|
      ensures |spine| == |mem| && mem[k] == spine[k].AsLevel()
      ensures spine[k].next == if k + 1 < |spine| then spine[k + 1] else null
    {
    }

    constructor (server: Entry, disk: Disk, resumeFile: Option<seq<byte>>)
      ensures this.server == server && this.disk == disk && this.resumeFile == resumeFile && !started
    {
      this.server := server;
      this.disk := disk;
      this.resumeFile := resumeFile;
      this.resumeInfo := new RestoreResumeInfo(0);
      this.started := false;
      this.spine, this.mem, this.saved, this.done, this.recent, this.base := [], [], [], {}, [], [];
    }

    // ----- single steps -----

    /** Store the levels over the resume file, which is not truncated first. */
    method Save()
      requires Valid()
      modifies this`resumeFile, this`started, this`saved, this`recent
      ensures Valid()
      ensures started && saved == mem && recent == []
      ensures resumeFile == Some(Overwrite(if old(resumeFile).Some? then old(resumeFile).value else [], EncodeChain(mem)))
    {
      hide Sound, EncodeChain, Encodable, NamesFitBuffer, Represents;
      SoundChainFits(View());
      var stream := new ByteStream([]);
      resumeInfo.SaveLevel(stream, spine, mem);
      var stale := if resumeFile.Some? then resumeFile.value else [];
      ghost var before := View();
      resumeFile := Some(Overwrite(stale, stream.data));
      started, saved, recent := true, mem, [];
      assert stream.data == EncodeChain(mem);
      SaveIsSound(before, stale, View());
    }

    method EnsureDirectory(path: Path) returns (crashed: bool)
      requires Valid() && started && DirAt(server, path) && !Covered(server, mem, path)
      requires path != [] ==> [] in disk
      modifies this`disk
      ensures Valid()
      ensures disk == old(disk) || (path !in old(disk) && disk == old(disk)[path := LocalDir(448)])
      ensures !crashed ==> path in disk && [] in disk
    {
      assert Within(server, disk);
      hide Sound;
      if path in disk && disk[path].LocalFile? {
        // Removing a file out of the way of a directory is never needed.
        assert false;
      } else if path !in disk {
        if * { return true; }
        PutObjectIsSound(View(), path, LocalDir(OWNER_ONLY));
        disk := disk[path := LocalDir(OWNER_ONLY)];
      }
      crashed := false;
    }

    method ApplyAttributes(path: Path, attributes: int) returns (crashed: bool)
      requires Valid() && started && [] in disk && path in disk && !Covered(server, mem, path)
      requires DirAt(server, path) && NodeAt(server, path).value.attributes == attributes
      modifies this`disk
      ensures Valid() && forall p :: p in old(disk) ==> p in disk
      ensures disk == if crashed then old(disk) else old(disk)[path := LocalDir(attributes)]
      ensures !crashed ==> Whole(server, disk, path)
    {
      hide Sound;
      if * { return true; }
      PutObjectIsSound(View(), path, LocalDir(attributes));
      disk := disk[path := LocalDir(attributes)];
      crashed := false;
    }

    /** Remove what is there, and write the file anew. */
    method FetchFile(w: Path, contents: FileData) returns (crashed: bool)
      requires Valid() && started && !Covered(server, mem, w) && [] in disk && w != []
      requires NodeAt(server, w).Some? && NodeAt(server, w).value.File? && NodeAt(server, w).value.contents == contents
      modifies this`disk
      ensures Valid()
      ensures forall p :: p != w && p in old(disk) ==> p in disk && disk[p] == old(disk[p])
      ensures disk.Keys <= old(disk).Keys + {w}
      ensures !crashed ==> Whole(server, disk, w) && w in disk && disk[w] == LocalFile(Some(contents))
    {
      hide Sound, Covered;
      if * { return true; }
      RemoveFileIsSound(View(), w);
      disk := disk - {w};
      if * { return true; }
      PutObjectIsSound(View(), w, LocalFile(None));
      disk := disk[w := LocalFile(None)];
      if * { return true; }
      PutObjectIsSound(View(), w, LocalFile(Some(contents)));
      disk := disk[w := LocalFile(Some(contents))];
      crashed := false;
    }

    /** Add a finished file of the innermost level to the list of what is done. */
    method MarkFile(level: RestoreResumeInfo, id: int, ghost w: Path)
      requires Valid() && level == spine[|spine| - 1]
      requires ChildOfLevel(server, mem, |mem| - 1, w) && NodeAt(server, w).value.id == id
      requires NodeAt(server, w).value.File? && Whole(server, disk, w) && !Covered(server, mem, w)
      requires CountedBytes(server, recent) <= MAX_BYTES_BETWEEN_SAVES
      modifies this`mem, this`done, this`recent, level`restored
      ensures Valid()
      ensures var k := |old(mem)| - 1;
              mem == old(mem)[k := old(mem)[k].(restored := old(mem)[k].restored + {id})]
      ensures level.restored == old(level.restored) + {id}
      ensures recent == old(recent) + [w] && done == old(done) + {w}
    {
      hide Sound, Covered, NodeAt, CountedBytes, Whole;
      ghost var k := |mem| - 1;
      ghost var d := mem[k := mem[k].(restored := mem[k].restored + {id})];
      FileIsLeaf(server, w);
      NotInBase(View(), w);
      ListingIsSound(View(), w, d);
      level.restored := level.restored + {id};
      mem := d;
      FinishingFileIsSound(View(), w);
      done, recent := done + {w}, recent + [w];
    }

    /** Link a level for a child directory below the innermost level. */
    method EnterLevel(level: RestoreResumeInfo, id: int, name: Name) returns (added: RestoreResumeInfo)
      requires Represents(spine, mem) && level == spine[|spine| - 1] && id != 0
      modifies level, this`spine, this`mem
      ensures Represents(spine, mem) && fresh(added) && spine == old(spine) + [added]
      ensures var k := |old(mem)| - 1;
              mem == old(mem)[k := Level(old(mem)[k].restored, id, name)] + [Level({}, 0, [])]
      ensures level.next == added && added.AsLevel() == Level({}, 0, [])
    {
      ghost var k := |mem| - 1;
      added := level.AddLevel(id, name);
      spine := spine + [added];
      mem := mem[k := Level(mem[k].restored, id, name)] + [Level({}, 0, [])];
    }

    /** Unlink the innermost level and list its directory as restored in the level above. */
    method LeaveLevel(level: RestoreResumeInfo)
      requires Represents(spine, mem) && |spine| > 1 && level == spine[|spine| - 2]
      modifies level, this`spine, this`mem
      ensures Represents(spine, mem) && spine == old(spine[..|spine| - 1])
      ensures var k := |old(mem)| - 2;
              mem == old(mem)[..k] + [Level(old(mem)[k].restored + {old(mem)[k].nextId}, 0, [])]
      ensures level.AsLevel() == mem[|mem| - 1] && level.next == null
    {
      ghost var k := |mem| - 2;
      ghost var d := mem[..k] + [Level(mem[k].restored + {mem[k].nextId}, 0, [])];
      level.restored := level.restored + {level.nextId};
      level.RemoveLevel();
      spine, mem := spine[..k + 1], d;
    }

    // ----- one directory -----

    method RestoreFiles(path: Path, level: RestoreResumeInfo, dir: Entry, ghost k: nat) returns (crashed: bool)
      requires Valid() && started && |mem| == k + 1 && At(k, level, path, dir)
      requires Whole(server, disk, path) && recent == []
      modifies this`disk, this`resumeFile, this`started, this`saved, this`recent, this`done, this`mem, level`restored
      ensures Valid()
      ensures !crashed ==> started && |mem| == k + 1 && mem[..k] == old(mem[..k]) && At(k, level, path, dir)
      ensures !crashed ==> Whole(server, disk, path) && CountedBytes(server, recent) == 0
      ensures !crashed ==> forall e :: e in dir.entries && e.File? ==> e.id in level.restored
    {
      hide Sound, Represents, Covered, NodeAt;
      var bytes := 0;
      crashed := false;
      for i := 0 to |dir.entries|
        invariant Valid() && started && |mem| == k + 1 && mem[..k] == old(mem[..k]) && At(k, level, path, dir)
        invariant Whole(server, disk, path)
        invariant bytes == CountedBytes(server, recent) <= MAX_BYTES_BETWEEN_SAVES
        invariant forall j :: 0 <= j < i && dir.entries[j].File? ==> dir.entries[j].id in level.restored
      {
        var e := dir.entries[i];
        if e.File? && e.id !in level.restored {
          crashed, bytes := RestoreFile(path, level, e, bytes, dir, k, i);
          if crashed { return; }
        }
      }
      if bytes != 0 {
        if * { return true; }
        Save();
      }
    }

    method RestoreFile(path: Path, level: RestoreResumeInfo, e: Entry, bytes: nat, ghost dir: Entry, ghost k: nat, ghost i: nat)
      returns (crashed: bool, bytes': nat)
      requires Valid() && started && |mem| == k + 1 && At(k, level, path, dir) && Whole(server, disk, path)
      requires i < |dir.entries| && e == dir.entries[i] && e.File? && e.id !in level.restored
      requires bytes == CountedBytes(server, recent) <= MAX_BYTES_BETWEEN_SAVES
      modifies this`disk, this`resumeFile, this`started, this`saved, this`recent, this`done, this`mem, level`restored
      ensures Valid()
      ensures !crashed ==> started && |mem| == k + 1 && mem[..k] == old(mem[..k]) && At(k, level, path, dir)
      ensures !crashed ==> level.restored == old(level.restored) + {e.id} && Whole(server, disk, path)
      ensures !crashed ==> bytes' == CountedBytes(server, recent) <= MAX_BYTES_BETWEEN_SAVES
    {
      hide Sound, Covered, Represents, NodeAt, SpinePath;
      bytes' := bytes;
      var w := path + [e.name];
      EntryIsFresh(View(), k, i);
      crashed := FetchFile(w, e.contents);
      if crashed { return; }
      ghost var before, counted := mem, recent;
      assert Whole(server, disk, path);
      hide Whole, CountedSize;
      MarkFile(level, e.id, w);
      SameSpinePath(before, mem, k);
      CountedIsSize(server, counted, w, e);
      if !e.contents.isLink {
        crashed, bytes' := SaveIfDue(bytes + |e.contents.data|);
      }
    }

    /** Save when enough has been written since the last save. */
    method SaveIfDue(bytes: nat) returns (crashed: bool, bytes': nat)
      requires Valid() && started && bytes == CountedBytes(server, recent)
      modifies this`resumeFile, this`started, this`saved, this`recent
      ensures Valid() && started
      ensures bytes <= 131072 ==> resumeFile == old(resumeFile) && !crashed
      ensures bytes > 131072 && !crashed ==> saved == mem
      ensures !crashed ==> bytes' == CountedBytes(server, recent) <= MAX_BYTES_BETWEEN_SAVES
    {
      hide Sound, Represents;
      if bytes <= MAX_BYTES_BETWEEN_SAVES { return false, bytes; }
      if * { return true, bytes; }
      Save();
      return false, 0;
    }

    /** Restore the directory with this id: its own record first, then its files, then what is below. */
    method RestoreDir(dirId: int, path: Path, level: RestoreResumeInfo, ghost dir: Entry, ghost k: nat)
      returns (crashed: bool)
      requires Valid() && At(k, level, path, dir) && dir.id == dirId
      requires k + 1 < |mem| ==> started
      requires CountedBytes(server, recent) == 0
      modifies this, spine[k..]
      ensures Valid() && base == old(base)
      ensures !crashed ==> started && |mem| == k + 1 && mem[..k] == old(mem[..k]) && spine == old(spine[..k + 1])
      ensures !crashed ==> forall p :: path <= p && NodeAt(server, p).Some? ==> Whole(server, disk, p)
      ensures !crashed ==> CountedBytes(server, recent) == 0
      decreases dir, 2
    {
      hide Sound, Represents, Covered, NodeAt, Whole, CountedBytes, SpinePath;
      if level.next != null {
        crashed := ResumeBelow(path, level, dir, k);
        if crashed { return; }
      }
      if * { return true; }
      Save();
      var listing;
      crashed, listing := FetchDirectory(dirId, path, dir, k);
      if crashed { return; }
      crashed := RestoreFiles(path, level, listing, k);
      if crashed { return; }
      crashed := RestoreSubdirectories(path, level, listing, k);
      if crashed { return; }
      DirectoryWhole(View(), k);
    }

    /** Once the record on disk is that in memory, make the directory and give it the attributes that come with its listing. */
    method FetchDirectory(dirId: int, path: Path, ghost dir: Entry, ghost k: nat) returns (crashed: bool, listing: Entry)
      requires Valid() && started && saved == mem && |mem| == k + 1 && path == SpinePath(mem, k)
      requires NodeAt(server, path) == Some(dir) && dir.Dir? && dir.id == dirId
      modifies this`disk
      ensures Valid()
      ensures !crashed ==> listing == dir && Whole(server, disk, path)
    {
      hide Sound, Represents, Covered, SpinePath, FindDir, FindDirIn;
      listing := server;
      SpineUncovered(View(), k);
      crashed := EnsureDirectory(path);
      if crashed { return; }
      ServerAnswers(View(), path);
      listing := FindDir(server, dirId).value;
      crashed := ApplyAttributes(path, listing.attributes);
    }

    /** Finish the directory that an earlier run was in, before anything else. */
    method ResumeBelow(path: Path, level: RestoreResumeInfo, ghost dir: Entry, ghost k: nat) returns (crashed: bool)
      requires Valid() && started && At(k, level, path, dir) && level.next != null
      requires CountedBytes(server, recent) == 0
      modifies this, spine[k..]
      ensures Valid() && base == old(base)
      ensures !crashed ==> started && |mem| == k + 1 && mem[..k] == old(mem[..k]) && spine == old(spine[..k + 1])
      ensures !crashed ==> At(k, level, path, dir) && CountedBytes(server, recent) == 0
      decreases dir, 1
    {
      hide Sound, Covered, Whole, NodeAt, Represents, CountedBytes, WithinLimit;
      var childPath := path + [level.nextName];
      ghost var child := NextIsChild(View(), k);
      LevelAt(k + 1);
      crashed := RestoreDir(level.nextId, childPath, level.next, child, k + 1);
      if crashed { return; }
      SameSpinePath(old(mem), mem, k);
      LevelAt(k);
      LeaveWhole(path, level, dir, k);
    }

    /** Leave the level below when all of its directory is on disk. */
    method LeaveWhole(path: Path, level: RestoreResumeInfo, ghost dir: Entry, ghost k: nat)
      requires Valid() && started && |mem| == k + 2 && |spine| == k + 2 && level == spine[k] && level.AsLevel() == mem[k]
      requires path == SpinePath(mem, k) && NodeAt(server, path) == Some(dir) && dir.Dir?
      requires forall p :: SpinePath(mem, k + 1) <= p && NodeAt(server, p).Some? ==> Whole(server, disk, p)
      modifies level, this`spine, this`mem
      ensures Valid() && |mem| == k + 1 && mem[..k] == old(mem[..k]) && spine == old(spine[..k + 1])
      ensures At(k, level, path, dir) && level.restored == old(level.restored) + {old(mem[k].nextId)}
    {
      hide Sound, Covered, Whole, NodeAt, Represents, SpinePath;
      ghost var before := View();
      LeaveLevel(level);
      AscendingIsSound(before, mem);
      SameSpinePath(before.mem, mem, k);
    }

    method RestoreSubdirectories(path: Path, level: RestoreResumeInfo, dir: Entry, ghost k: nat) returns (crashed: bool)
      requires Valid() && started && |mem| == k + 1 && At(k, level, path, dir)
      requires Whole(server, disk, path) && CountedBytes(server, recent) == 0
      requires forall e :: e in dir.entries && e.File? ==> e.id in level.restored
      modifies this, level
      ensures Valid() && base == old(base)
      ensures !crashed ==> started && |mem| == k + 1 && mem[..k] == old(mem[..k]) && spine == old(spine)
      ensures !crashed ==> At(k, level, path, dir) && Whole(server, disk, path) && CountedBytes(server, recent) == 0
      ensures !crashed ==> forall e :: e in dir.entries ==> e.id in level.restored
      decreases dir, 1
    {
      hide Sound, Represents, Covered, NodeAt, Whole;
      crashed := false;
      for i := 0 to |dir.entries|
        invariant Valid() && base == old(base) && started && |mem| == k + 1 && mem[..k] == old(mem[..k]) && spine == old(spine)
        invariant At(k, level, path, dir) && Whole(server, disk, path) && CountedBytes(server, recent) == 0
        invariant forall e :: e in dir.entries && e.File? ==> e.id in level.restored
        invariant forall j :: 0 <= j < i ==> dir.entries[j].id in level.restored
      {
        var e := dir.entries[i];
        if e.Dir? && e.id !in level.restored {
          crashed := RestoreSubdirectory(path, level, e, dir, k, i);
          if crashed { return; }
        }
      }
    }

    method RestoreSubdirectory(path: Path, level: RestoreResumeInfo, e: Entry, ghost dir: Entry, ghost k: nat, ghost i: nat)
      returns (crashed: bool)
      requires Valid() && started && |mem| == k + 1 && At(k, level, path, dir)
      requires Whole(server, disk, path) && CountedBytes(server, recent) == 0
      requires i < |dir.entries| && e == dir.entries[i] && e.Dir? && e.id !in level.restored
      modifies this, level
      ensures Valid() && base == old(base)
      ensures !crashed ==> started && |mem| == k + 1 && mem[..k] == old(mem[..k]) && spine == old(spine)
      ensures !crashed ==> At(k, level, path, dir) && Whole(server, disk, path) && CountedBytes(server, recent) == 0
      ensures !crashed ==> level.restored == old(level.restored) + {e.id}
      decreases dir, 0
    {
      hide Sound, Covered, Whole, NodeAt, Represents;
      var childPath := path + [e.name];
      EntryIsFresh(View(), k, i);
      ghost var before := View();
      var nextLevel := EnterLevel(level, e.id, e.name);
      assert Descended(server, before.mem, childPath, mem);
      DescendingIsSound(before, childPath, mem);
      crashed := RestoreDir(e.id, childPath, nextLevel, e, k + 1);
      if crashed { return; }
      SpineIsWhole(View(), k);
      SameSpinePath(before.mem, mem, k);
      LevelAt(k);
      LeaveWhole(path, level, dir, k);
    }

    // ----- whole runs -----

    ghost predicate TargetIsDir()
      reads this
    {
      [] in disk && disk[[]].LocalDir?
    }

    /** A run may start here: a resume file beside a target directory is one that a run of this restore left. */
    ghost predicate Restartable()
      reads this
    {
      && ValidServer(server)
      && (disk == map[] || [] in disk)
      && (resumeFile.Some? && TargetIsDir() ==> started && Durable(View()))
    }

    /** One run, from the checks at its start to the removal of the resume file. */
    method Run(resume: bool) returns (r: Result)
      requires Restartable()
      modifies this
      ensures Restartable()
      ensures r == ResumePossible <==> old(resumeFile.Some? && TargetIsDir()) && !resume
      ensures r == TargetExists <==> old([] in disk && !(resumeFile.Some? && TargetIsDir()))
      ensures r == ResumePossible || r == TargetExists ==> disk == old(disk) && resumeFile == old(resumeFile)
      ensures r == Complete ==> Matches(server, disk) && resumeFile == None
      ensures r == Complete ==>
                && (forall p :: p in disk <==> NodeAt(server, p).Some?)
                && (forall p :: NodeAt(server, p).Some? ==>
                      var e := NodeAt(server, p).value;
                      disk[p] == if e.Dir? then LocalDir(e.attributes) else LocalFile(Some(e.contents)))
      ensures resume && old(resumeFile.Some? && TargetIsDir()) ==> forall p :: p in done ==> !Covered(server, old(saved), p)
      ensures r == Crashed ==>
        || (Durable(View()) && LossBounded(View()) && (disk == map[] || (resumeFile.Some? && TargetIsDir())))
        || (Matches(server, disk) && resumeFile == None)
    {
      if resumeFile.Some? && [] in disk && disk[[]].LocalDir? {
        if !resume { return ResumePossible; }
        LoadLevels();
      } else if [] in disk {
        return TargetExists;
      } else {
        BeginAfresh();
      }
      hide Represents, Matches, Durable, LossBounded;
      var crashed := RestoreAll();
      OnlyNew(View());
      if crashed { return Crashed; }
      MatchesExactly(server, disk);
      // Undeleting the directory on the server may fail.
      if * { return Crashed; }
      resumeFile := None;
      if * { return Crashed; }
      return Complete;
    }

    method RestoreAll() returns (crashed: bool)
      requires Valid() && recent == [] && (started || |mem| == 1)
      modifies this, spine
      ensures Valid() && base == old(base)
      ensures !crashed ==> started && Matches(server, disk)
    {
      hide Sound, Represents, Covered, Whole;
      SoundStart(View());
      LevelAt(0);
      crashed := RestoreDir(server.id, [], resumeInfo, server, 0);
      if !crashed { AllWhole(View()); }
    }

    method LoadLevels()
      requires Restartable() && resumeFile.Some? && TargetIsDir()
      modifies this`resumeInfo, this`spine, this`mem, this`done, this`recent, this`base
      ensures Valid() && fresh(spine) && started && base == mem == saved && recent == []
    {
      hide Sound, Durable, DecodeChain, Represents, ValidServer, EncodeChain, DecodeRestored;
      SavedRecordLoads(View());
      LoadedIsSound(View());
      resumeInfo := new RestoreResumeInfo(0);
      var stream := new ByteStream(resumeFile.value);
      var ok;
      ok, spine := resumeInfo.LoadLevel(stream);
      if !ok {
        // A record that this restore has saved is never rejected.
        assert false;
      }
      mem, done, recent, base := saved, {}, [], saved;
    }

    method BeginAfresh()
      requires Restartable() && disk == map[]
      modifies this`resumeInfo, this`spine, this`mem, this`done, this`recent, this`started, this`saved, this`base
      ensures Valid() && fresh(spine) && |spine| == 1 && recent == []
    {
      hide Sound, ValidServer;
      resumeInfo := new RestoreResumeInfo(0);
      spine, mem, done, recent, base := [resumeInfo], [Level({}, 0, [])], {}, [], [Level({}, 0, [])];
      started, saved := false, mem;
      FreshIsSound(View());
    }

    /** Start on a target that does not exist, and resume after every crash. */
    method RunUntilDone(crashes: nat) returns (r: Result)
      requires ValidServer(server) && disk == map[]
      modifies this
      ensures r != ResumePossible
      ensures r != Crashed ==> Matches(server, disk)
      ensures r != Crashed ==>
                && (forall p :: p in disk <==> NodeAt(server, p).Some?)
                && (forall p :: NodeAt(server, p).Some? ==>
                      var e := NodeAt(server, p).value;
                      disk[p] == if e.Dir? then LocalDir(e.attributes) else LocalFile(Some(e.contents)))
      ensures r == Complete ==> resumeFile == None
      ensures r == Crashed ==> Restartable()
    {
      r := Run(false);
      var n := 0;
      while r == Crashed && n < crashes
        invariant Restartable() && r != ResumePossible
        invariant r == Crashed ==> disk == map[] || (resumeFile.Some? && TargetIsDir()) || (Matches(server, disk) && resumeFile == None)
        invariant r != Crashed ==> Matches(server, disk)
        invariant r == Complete ==> resumeFile == None
      {
        r := Run(true);
        n := n + 1;
      }
      MatchesExactly(server, disk);
    }
  }

  /** The resume file is accepted, whatever an older and longer record has left behind this one. */
  lemma SavedRecordLoads(s: State)
    requires Durable(s) && s.started
    ensures s.file.Some? && DecodeChain(s.file.value).Some?
    ensures DecodeChain(s.file.value).value.0 == s.saved
  {
    var tail := s.file.value[|EncodeChain(s.saved)|..];
    assert s.file.value == EncodeChain(s.saved) + tail;
    ChainRoundTrip(s.saved, tail);
  }

  lemma LoadedIsSound(s: State)
    requires Durable(s) && s.started
    ensures Sound(s.(mem := s.saved, done := {}, recent := [], base := s.saved))
  {
  }

  lemma FreshIsSound(s: State)
    requires ValidServer(s.server) && s.disk == map[] && !s.started
    requires s.mem == s.base == [Level({}, 0, [])] && s.done == {} && s.recent == []
    ensures Sound(s)
  {
    StartChain(s.server, s.mem);
  }

  lemma SoundStart(s: State)
    requires Sound(s)
    ensures |s.mem| > 0 && SpinePath(s.mem, 0) == [] && s.server.Dir? && NodeAt(s.server, []) == Some(s.server)
    ensures CountedBytes(s.server, []) == 0
  {
  }

  /** The files finished are ones that the chain at the start did not cover. */
  lemma OnlyNew(s: State)
    requires Sound(s)
    ensures forall p :: p in s.done ==> !Covered(s.server, s.base, p)
  {
    hide Covered;
  }

  lemma NotInBase(s: State, w: Path)
    requires Sound(s) && !Covered(s.server, s.mem, w)
    ensures !Covered(s.server, s.base, w)
  {
    hide Covered;
  }

  lemma AllWhole(s: State)
    requires Sound(s) && forall p :: [] <= p && NodeAt(s.server, p).Some? ==> Whole(s.server, s.disk, p)
    ensures Matches(s.server, s.disk)
  {
  }

  lemma SoundChainFits(s: State)
    requires Sound(s)
    ensures Encodable(s.mem) && NamesFitBuffer(s.mem)
  {
    ChainFits(s.server, s.mem);
  }

  /** Nothing is below a file. */
  lemma FileIsLeaf(root: Entry, w: Path)
    requires NodeAt(root, w).Some? && NodeAt(root, w).value.File?
    ensures forall p :: w <= p && NodeAt(root, p).Some? ==> p == w
  {
    forall p | w <= p && NodeAt(root, p).Some?
      ensures p == w
    {
      assert p[..|w|] == w;
      NodeAtPrefix(root, p, |w|);
    }
  }

  /** An entry of the innermost directory that is not listed is covered by no level. */
  lemma EntryIsFresh(s: State, k: nat, i: nat)
    requires Sound(s) && |s.mem| == k + 1 && DirAt(s.server, SpinePath(s.mem, k))
    requires var es := NodeAt(s.server, SpinePath(s.mem, k)).value.entries;
             i < |es| && es[i].id !in s.mem[k].restored
    ensures var path := SpinePath(s.mem, k);
            var e := NodeAt(s.server, path).value.entries[i];
            && e.id != 0
            && NodeAt(s.server, path + [e.name]) == Some(e)
            && ChildOfLevel(s.server, s.mem, k, path + [e.name])
            && !Covered(s.server, s.mem, path + [e.name])
    ensures Whole(s.server, s.disk, SpinePath(s.mem, k)) ==> [] in s.disk
  {
    var path := SpinePath(s.mem, k);
    var e := NodeAt(s.server, path).value.entries[i];
    WellFormedAt(s.server, path);
    assert e in NodeAt(s.server, path).value.entries && WellFormed(e);
    NodeAtChild(s.server, path, i);
    var w := path + [e.name];
    assert w[..k] == path;
    OffSpineUncovered(s.server, s.mem, w);
  }

  lemma ServerAnswers(s: State, path: Path)
    requires Sound(s) && DirAt(s.server, path)
    ensures FindDir(s.server, NodeAt(s.server, path).value.id) == NodeAt(s.server, path)
  {
    FindDirAt(s.server, path);
  }

  lemma SpineIsWhole(s: State, k: nat)
    requires Sound(s) && k + 1 < |s.mem|
    ensures Whole(s.server, s.disk, SpinePath(s.mem, k))
  {
  }

  lemma SpineUncovered(s: State, k: nat)
    requires Sound(s) && |s.mem| == k + 1
    ensures !Covered(s.server, s.mem, SpinePath(s.mem, k))
    ensures k > 0 ==> [] in s.disk
  {
    var path := SpinePath(s.mem, k);
    assert LevelIn(s.server, s.mem, k);
    if k > 0 {
      assert LevelIn(s.server, s.mem, k - 1);
      assert path[..k - 1] == SpinePath(s.mem, k - 1);
      assert Whole(s.server, s.disk, SpinePath(s.mem, 0));
    }
    OffSpineUncovered(s.server, s.mem, path);
  }

  /** The level below is about a child of this level's directory, with the id and name noted. */
  lemma NextIsChild(s: State, k: nat) returns (child: Entry)
    requires Sound(s) && k + 1 < |s.mem|
    ensures NodeAt(s.server, SpinePath(s.mem, k + 1)) == Some(child)
    ensures DirAt(s.server, SpinePath(s.mem, k)) && child in NodeAt(s.server, SpinePath(s.mem, k)).value.entries
    ensures child.Dir? && child.id == s.mem[k].nextId
  {
    assert LevelIn(s.server, s.mem, k);
    var e := SpinePath(s.mem, k + 1);
    child := NodeAt(s.server, e).value;
    NodeAtPrefix(s.server, e, k);
    assert e[..k + 1] == e && e[..k] == SpinePath(s.mem, k);
  }

  /** When everything in the innermost directory is listed, all of it is on disk. */
  lemma DirectoryWhole(s: State, k: nat)
    requires Sound(s) && |s.mem| == k + 1 && DirAt(s.server, SpinePath(s.mem, k))
    requires Whole(s.server, s.disk, SpinePath(s.mem, k))
    requires forall e :: e in NodeAt(s.server, SpinePath(s.mem, k)).value.entries ==> e.id in s.mem[k].restored
    ensures forall p :: SpinePath(s.mem, k) <= p && NodeAt(s.server, p).Some? ==> Whole(s.server, s.disk, p)
  {
    var path := SpinePath(s.mem, k);
    forall p | path <= p && NodeAt(s.server, p).Some? && p != path
      ensures Whole(s.server, s.disk, p)
    {
      assert p[..k] == path;
      NodeAtPrefix(s.server, p, k);
      assert DoneAt(s.server, s.mem, p, k + 1);
      assert Covered(s.server, s.mem, p);
    }
  }

  /**
   * Whenever a run can be cut short, each id in a level of the saved record names an object of that
   * level's directory which is on disk with all that is below it.
   */
  lemma SavedIdsAreOnDisk(s: State, i: nat, id: int) returns (e: Entry)
    requires Durable(s) && s.started && i < |s.saved| && id in s.saved[i].restored
    ensures DirAt(s.server, SpinePath(s.saved, i))
    ensures e in NodeAt(s.server, SpinePath(s.saved, i)).value.entries && e.id == id
    ensures forall p :: SpinePath(s.saved, i) + [e.name] <= p && NodeAt(s.server, p).Some? ==> Whole(s.server, s.disk, p)
  {
    hide Whole, Encodable, NamesFitBuffer, EncodeChain, Within;
    var path := SpinePath(s.saved, i);
    assert LevelIn(s.server, s.saved, i);
    var es := NodeAt(s.server, path).value.entries;
    e :| e in es && e.id == id;
    var n :| 0 <= n < |es| && es[n] == e;
    WellFormedAt(s.server, path);
    NodeAtChild(s.server, path, n);
    var w := path + [e.name];
    forall p | w <= p && NodeAt(s.server, p).Some?
      ensures Whole(s.server, s.disk, p)
    {
      assert p[..i + 1] == w && p[..i] == path;
      assert DoneAt(s.server, s.saved, p, i + 1);
      assert Covered(s.server, s.saved, p);
    }
  }

  /**
   * Each next-level id of the saved record names a child directory of its level's directory,
   * under the noted name, and that level's directory is on disk.
   */
  lemma SavedDescentIsInTree(s: State, i: nat)
    requires Durable(s) && s.started && i + 1 < |s.saved|
    ensures Whole(s.server, s.disk, SpinePath(s.saved, i))
    ensures DirAt(s.server, SpinePath(s.saved, i) + [s.saved[i].nextName])
    ensures NodeAt(s.server, SpinePath(s.saved, i) + [s.saved[i].nextName]).value.id == s.saved[i].nextId
  {
    assert LevelIn(s.server, s.saved, i);
    assert SpinePath(s.saved, i + 1) == SpinePath(s.saved, i) + [s.saved[i].nextName];
  }
}
