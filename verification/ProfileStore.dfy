/** The profile store: a map of custom profiles that must agree with a directory of files, each
    written to a temporary name and renamed (tux-daemon/src/profile_store.rs). The directory
    records every state it passes through, so that a contract can speak about a crash at any
    disk step. */
module ProfileStore {
  import opened Prelude
  import opened FanCurve
  import opened CopyIds
  import opened ProfileFiles

  /** What the outside world does to the disk steps of one operation: the serializer may fail; the
      write may be refused, stop half-way or succeed, and is `torn` in between; the rename and the
      removal may fail. */
  datatype WriteFate = Refused | Stops | Completes

  datatype Io = Io(serializes: bool, write: WriteFate, torn: Content, renames: bool, removes: bool)

  predicate PersistSucceeds(io: Io) {
    io.serializes && io.write == Completes && io.renames
  }

  class ProfileDir {
    var files: Dir
    ghost var passed: seq<Dir>

    constructor ()
      ensures files == map[] && passed == [map[]]
    {
      files, passed := map[], [map[]];
    }

    method Set(now: Dir)
      modifies this
      ensures files == now && passed == old(passed) + [now]
    {
      files := now;
      passed := passed + [now];
    }

    method Write(name: string, content: Content, io: Io) returns (ok: bool)
      modifies this
      ensures ok == (io.write == Completes)
      ensures io.write == Refused ==> files == old(files) && passed == old(passed)
      ensures io.write == Stops ==> files == old(files)[name := io.torn] && passed == old(passed) + [files]
      ensures io.write == Completes ==> files == old(files)[name := content]
                                        && passed == old(passed) + [old(files)[name := io.torn], files]
    {
      ok := io.write == Completes;
      if io.write != Refused {
        Set(files[name := io.torn]);
      }
      if ok {
        Set(files[name := content]);
      }
    }

    method Rename(source: string, target: string, io: Io) returns (ok: bool)
      requires source in files
      modifies this
      ensures ok == io.renames
      ensures !ok ==> files == old(files) && passed == old(passed)
      ensures ok ==> files == (old(files) - {source})[target := old(files)[source]] && passed == old(passed) + [files]
    {
      ok := io.renames;
      if ok {
        Set((files - {source})[target := files[source]]);
      }
    }

    method Remove(name: string, io: Io) returns (ok: bool)
      modifies this
      ensures ok == io.removes
      ensures !ok ==> files == old(files) && passed == old(passed)
      ensures ok ==> files == old(files) - {name} && passed == old(passed) + [files]
    {
      ok := io.removes;
      if ok {
        Set(files - {name});
      }
    }
  }

  /** In every state passed through since `from`, a crash loses nothing but the operation itself. */
  ghost predicate CrashSafe(passed: seq<Dir>, from: nat, before: map<Id, Profile>, after: map<Id, Profile>) {
    from <= |passed| && forall i :: from <= i < |passed| ==> Mirrors(passed[i], before) || Mirrors(passed[i], after)
  }

  /** Reloading after a crash at any such step gives exactly the map from before or after the operation. */
  lemma CrashReloads(passed: seq<Dir>, from: nat, before: map<Id, Profile>, after: map<Id, Profile>, crash: nat)
    requires CrashSafe(passed, from, before, after) && from <= crash < |passed|
    ensures ReloadsTo(passed[crash], before) || ReloadsTo(passed[crash], after)
  {
    if Mirrors(passed[crash], before) {
      MirrorsReload(passed[crash], before);
    } else {
      MirrorsReload(passed[crash], after);
    }
  }

  datatype StoreError = InvalidInput | AlreadyExists | PermissionDenied | NotFound | IoFailed

  datatype Result<+T> = Ok(value: T) | Err(error: StoreError)

  const BUILTIN_IDS: set<Id> := {"__max_energy_save__", "__quiet__", "__office__", "__high_performance__"}

  lemma BuiltinsAreReserved()
    ensures forall id :: id in BUILTIN_IDS ==> Reserved(id)
  {
  }

  function WithFan(p: Profile, config: FanConfig): Profile {
    p.(fanMode := config.mode, fanMinSpeed := config.minSpeed, fanCurve := config.curve)
  }

  function CopyOf(p: Profile, id: Id): Profile {
    p.(id := id, name := p.name + " (Copy)", isDefault := false)
  }

  /** The three kinds of directory state a write of `p` goes through. */
  lemma PersistStates(files: Dir, p: Profile, torn: Content)
    ensures forall before :: Mirrors(files, before) ==>
              && Mirrors(files[TempName(p.id) := torn], before)
              && Mirrors(files[TempName(p.id) := Whole(p)], before)
              && Mirrors((files - {TempName(p.id)})[FileName(p.id) := Whole(p)], WithWritten(before, p))
  {
    forall before | Mirrors(files, before)
      ensures Mirrors(files[TempName(p.id) := torn], before)
      ensures Mirrors(files[TempName(p.id) := Whole(p)], before)
      ensures Mirrors((files - {TempName(p.id)})[FileName(p.id) := Whole(p)], WithWritten(before, p))
    {
      TempKeepsMirror(files, before, p.id, torn);
      TempKeepsMirror(files, before, p.id, Whole(p));
      RenameMirrors(files, before, p);
    }
  }

  /** A directory that mirrors `a` reloads to `b` only if `b` is `a`. */
  lemma ReloadOnly(files: Dir, a: map<Id, Profile>, b: map<Id, Profile>)
    requires Mirrors(files, a)
    ensures ReloadsTo(files, b) <==> b == a
  {
    MirrorsReload(files, a);
    if ReloadsTo(files, b) {
      ReloadIsUnique(files, a, b);
    }
  }

  datatype Op = Creating(p: Profile) | Updating(id: Id, p: Profile) | UpdatingFan(id: Id, config: FanConfig)
              | Deleting(id: Id) | Copying(id: Id)

  /** What a caller has to see to: an update that succeeds names the profile by its own id, and the disk
      carries out the two operations that change memory first. Any other disk failure is harmless. */
  predicate Careful(op: Op, io: Io) {
    match op
    case Updating(id, p) => p.id == id || !PersistSucceeds(io)
    case UpdatingFan(_, _) => PersistSucceeds(io)
    case Deleting(_) => io.removes
    case Creating(_) => true
    case Copying(_) => true
  }

  /** What each operation makes of the custom profiles. */
  ghost predicate Does(op: Op, io: Io, builtins: map<Id, Profile>, before: map<Id, Profile>, after: map<Id, Profile>) {
    match op
    case Creating(p) =>
      after == if ValidId(p.id) && p.id !in builtins && p.id !in before && PersistSucceeds(io) then before[p.id := p] else before
    case Updating(id, p) =>
      after == if id !in builtins && id in before && SafePath(p.id) && PersistSucceeds(io) then before[id := p] else before
    case UpdatingFan(id, config) =>
      if id in builtins || id !in before then after == before
      else
        && id in after && after - {id} == before - {id}
        && after[id] == before[id].(fanMode := config.mode, fanMinSpeed := config.minSpeed, fanCurve := config.curve)
    case Deleting(id) => after == if id in builtins then before else before - {id}
    case Copying(id) =>
      if (id in builtins || id in before) && PersistSucceeds(io) then
        exists newId :: newId in after && newId !in before && newId !in builtins && after - {newId} == before
          && var source := if id in builtins then builtins[id] else before[id];
             after[newId] == source.(id := newId, name := source.name + " (Copy)", isDefault := false)
      else after == before
  }

  ghost predicate MirrorsOneOf(files: Dir, maps: seq<map<Id, Profile>>) {
    exists i :: 0 <= i < |maps| && Mirrors(files, maps[i])
  }

  /** One more crash-safe operation, from the last of the maps to `custom`. */
  lemma StillMirrorOne(passed: seq<Dir>, start: nat, middle: nat, memory: seq<map<Id, Profile>>, custom: map<Id, Profile>)
    requires start <= middle && memory != [] && CrashSafe(passed, middle, memory[|memory| - 1], custom)
    requires forall k :: start <= k < middle ==> MirrorsOneOf(passed[k], memory)
    ensures forall k :: start <= k < |passed| ==> MirrorsOneOf(passed[k], memory + [custom])
  {
    var memory' := memory + [custom];
    forall k | start <= k < |passed| ensures MirrorsOneOf(passed[k], memory') {
      if k < middle {
        var j :| 0 <= j < |memory| && Mirrors(passed[k], memory[j]);
        assert memory'[j] == memory[j];
      } else {
        assert memory'[|memory| - 1] == memory[|memory| - 1] && memory'[|memory|] == custom;
      }
    }
  }

  class ProfileStore {
    const dir: ProfileDir
    const builtins: map<Id, Profile>
    const unicode: Unicode
    var custom: map<Id, Profile>

    ghost predicate Valid() {
      builtins.Keys == BUILTIN_IDS && unicode.Sound()
    }

    /** Memory and directory agree, and custom ids are valid and apart from the built-in ones. */
    ghost predicate InStep()
      reads this, dir
    {
      && Mirrors(dir.files, custom)
      && forall id :: id in custom ==> ValidId(id) && id !in builtins
    }

    /** `new` on an existing directory listed in the order `entries`. */
    constructor (dir: ProfileDir, builtins: map<Id, Profile>, unicode: Unicode, entries: seq<string>)
      requires builtins.Keys == BUILTIN_IDS && unicode.Sound()
      ensures Valid() && this.dir == dir && this.builtins == builtins && this.unicode == unicode
      ensures custom == Loads(dir.files, entries)
      ensures dir.files == map[] && entries == [] ==> InStep()
    {
      this.dir, this.builtins, this.unicode := dir, builtins, unicode;
      custom := map[];
      new;
      LoadCustomProfiles(entries);
    }

    /** The loop of `load_custom_profiles`. */
    method LoadCustomProfiles(entries: seq<string>)
      requires custom == map[]
      modifies this
      ensures custom == Loads(dir.files, entries)
    {
      for i := 0 to |entries|
        invariant custom == Loads(dir.files, entries[..i])
      {
        assert entries[..i + 1][..i] == entries[..i];
        var name := entries[i];
        if IsToml(name) && name in dir.files {
          match dir.files[name] {
            case Broken =>
            case Whole(profile) =>
              if profile.id !in custom {
                custom := custom[profile.id := profile];
              }
          }
        }
      }
      assert entries[..|entries|] == entries;
    }

    function Get(id: Id): Option<Profile>
      reads this
    {
      if id in builtins then Some(builtins[id]) else if id in custom then Some(custom[id]) else None
    }

    /** `persist_profile`: write to the temporary name, then rename. */
    method Persist(p: Profile, io: Io) returns (ok: bool)
      modifies dir
      ensures old(dir.passed) <= dir.passed
      ensures ok == (SafePath(p.id) && PersistSucceeds(io))
      ensures ok ==> dir.files == (old(dir.files) - {TempName(p.id)})[FileName(p.id) := Whole(p)]
      ensures !ok ==> dir.files - {TempName(p.id)} == old(dir.files) - {TempName(p.id)}
      ensures forall before :: Mirrors(old(dir.files), before) ==>
                var after := if ok then WithWritten(before, p) else before;
                CrashSafe(dir.passed, |old(dir.passed)|, before, after) && Mirrors(dir.files, after)
    {
      PersistStates(dir.files, p, io.torn);
      if !SafePath(p.id) || !io.serializes { return false; }
      var written := dir.Write(TempName(p.id), Whole(p), io);
      if !written { return false; }
      assert (old(dir.files)[TempName(p.id) := Whole(p)]) - {TempName(p.id)} == old(dir.files) - {TempName(p.id)};
      ok := dir.Rename(TempName(p.id), FileName(p.id), io);
    }

    method Create(p: Profile, io: Io) returns (r: Result<Id>)
      requires Valid()
      modifies this, dir
      ensures old(dir.passed) <= dir.passed
      ensures r == if !ValidId(p.id) then Err(InvalidInput)
                   else if old(Get(p.id)).Some? then Err(AlreadyExists)
                   else if PersistSucceeds(io) then Ok(p.id) else Err(IoFailed)
      ensures custom == if r.Ok? then old(custom)[p.id := p] else old(custom)
      ensures old(InStep()) ==> InStep()
      ensures old(InStep()) ==> CrashSafe(dir.passed, |old(dir.passed)|, old(custom), custom)
    {
      if !ValidId(p.id) { return Err(InvalidInput); }
      if p.id in builtins || p.id in custom { return Err(AlreadyExists); }
      var ok := Persist(p, io);
      if !ok { return Err(IoFailed); }
      custom := custom[p.id := p];
      return Ok(p.id);
    }

    /** The profile is filed in memory under `id` but on disk under its own id; the caller never
        compares the two. */
    method Update(id: Id, p: Profile, io: Io) returns (r: Result<()>)
      requires Valid()
      modifies this, dir
      ensures old(dir.passed) <= dir.passed
      ensures r == if id in builtins then Err(PermissionDenied)
                   else if id !in old(custom) then Err(NotFound)
                   else if !SafePath(p.id) then Err(InvalidInput)
                   else if PersistSucceeds(io) then Ok(()) else Err(IoFailed)
      ensures custom == if r.Ok? then old(custom)[id := p] else old(custom)
      ensures old(InStep()) && (r.Err? || p.id == id) ==> InStep()
      ensures old(InStep()) && r.Ok? ==> (ReloadsTo(dir.files, custom) <==> p.id == id)
      ensures old(InStep()) && (r.Err? || p.id == id) ==> CrashSafe(dir.passed, |old(dir.passed)|, old(custom), custom)
    {
      if id in builtins { return Err(PermissionDenied); }
      if id !in custom { return Err(NotFound); }
      var ok := Persist(p, io);
      if !ok { return Err(if SafePath(p.id) then IoFailed else InvalidInput); }
      custom := custom[id := p];
      if p.id != id {
        NoReloadToMisfiled(dir.files, custom, id);
      } else if old(InStep()) {
        MirrorsReload(dir.files, custom);
      }
      return Ok(());
    }

    /** Memory changes first; if the disk does not follow, the two part exactly when something changed. */
    method UpdateFanSettings(id: Id, config: FanConfig, io: Io) returns (r: Result<()>)
      requires Valid()
      modifies this, dir
      ensures old(dir.passed) <= dir.passed
      ensures id in builtins || id !in old(custom) ==>
                r == Ok(()) && custom == old(custom) && dir.files == old(dir.files) && dir.passed == old(dir.passed)
      ensures id !in builtins && id in old(custom) ==>
                && id in custom && custom - {id} == old(custom) - {id}
                && (var was, now := old(custom)[id], custom[id];
                    && now.fanMode == config.mode && now.fanMinSpeed == config.minSpeed && now.fanCurve == config.curve
                    && now.id == was.id && now.name == was.name && now.isDefault == was.isDefault && now.settings == was.settings)
                && (old(InStep()) ==> r == if PersistSucceeds(io) then Ok(()) else Err(IoFailed))
      ensures old(InStep()) && r.Ok? ==> InStep()
      ensures old(InStep()) && r.Err? ==> (ReloadsTo(dir.files, custom) <==> custom == old(custom))
      ensures old(InStep()) ==> CrashSafe(dir.passed, |old(dir.passed)|, old(custom), custom)
    {
      if id in builtins { return Ok(()); }
      if id !in custom { return Ok(()); }
      custom := custom[id := WithFan(custom[id], config)];
      var ok := Persist(custom[id], io);
      if ok { return Ok(()); }
      if old(InStep()) {
        assert Mirrors(dir.files, old(custom));
        ReloadOnly(dir.files, old(custom), custom);
      }
      return Err(if SafePath(custom[id].id) then IoFailed else InvalidInput);
    }

    /** Memory changes first; if the file stays, a reload brings the profile back. */
    method Delete(id: Id, io: Io) returns (r: Result<()>)
      requires Valid()
      modifies this, dir
      ensures old(dir.passed) <= dir.passed
      ensures id in builtins ==> r == Err(PermissionDenied)
      ensures id !in builtins && id !in old(custom) ==> r == Err(NotFound)
      ensures custom == if id in builtins then old(custom) else old(custom) - {id}
      ensures id in builtins || id !in old(custom) ==> dir.files == old(dir.files) && dir.passed == old(dir.passed)
      ensures old(InStep()) && id in old(custom) ==> r == if io.removes then Ok(()) else Err(IoFailed)
      ensures old(InStep()) ==> (ReloadsTo(dir.files, custom) <==> r != Err(IoFailed))
      ensures old(InStep()) && r != Err(IoFailed) ==> InStep()
      ensures old(InStep()) ==> CrashSafe(dir.passed, |old(dir.passed)|, old(custom), custom)
    {
      ghost var was := custom;
      ghost var inStep := InStep();
      if inStep {
        MirrorsReload(dir.files, custom);
      }
      if id in builtins { return Err(PermissionDenied); }
      if id !in custom {
        assert custom - {id} == custom;
        return Err(NotFound);
      }
      custom := custom - {id};
      if inStep {
        RemoveMirrors(dir.files, was, id);
        ReloadOnly(dir.files, was, custom);
      }
      if !SafePath(id) { return Err(InvalidInput); }
      if FileName(id) in dir.files {
        var removed := dir.Remove(FileName(id), io);
        if !removed { return Err(IoFailed); }
        if inStep {
          MirrorsReload(dir.files, custom);
        }
      }
      return Ok(());
    }

    /** Copying an existing profile always finds an id and then fails only if the disk does. */
    method Copy(id: Id, io: Io) returns (r: Result<Id>, ghost tries: nat)
      requires Valid()
      modifies this, dir
      ensures old(dir.passed) <= dir.passed
      ensures old(Get(id)) == None ==> r == Err(NotFound)
      ensures old(Get(id)).Some? ==> r.Ok? == PersistSucceeds(io) && (r.Err? ==> r.error == IoFailed)
      ensures r.Err? ==> custom == old(custom)
      ensures r.Ok? ==> && old(Get(r.value)) == None && ValidId(r.value)
                        && r.value in custom && custom - {r.value} == old(custom)
                        && (var source, copy := old(Get(id)).value, custom[r.value];
                            && copy.id == r.value && copy.name == source.name + " (Copy)" && !copy.isDefault
                            && copy.fanMode == source.fanMode && copy.fanMinSpeed == source.fanMinSpeed
                            && copy.fanCurve == source.fanCurve && copy.settings == source.settings)
                        && 1 <= tries <= |old(custom)| + 1
                        && r.value == Candidate(Base(unicode, old(Get(id)).value.name), tries)
      ensures old(InStep()) ==> InStep()
      ensures old(InStep()) ==> CrashSafe(dir.passed, |old(dir.passed)|, old(custom), custom)
    {
      tries := 0;
      var source := Get(id);
      if source == None { return Err(NotFound), 0; }
      BuiltinsAreReserved();
      var newId;
      newId, tries := GenerateCopyId(unicode, source.value.name, builtins.Keys, custom.Keys);
      r := Create(CopyOf(source.value, newId), io);
    }

    method Perform(op: Op, io: Io)
      requires Valid()
      modifies this, dir
      ensures old(dir.passed) <= dir.passed
      ensures old(InStep()) ==> Does(op, io, builtins, old(custom), custom)
      ensures old(InStep()) && Careful(op, io) ==>
                InStep() && CrashSafe(dir.passed, |old(dir.passed)|, old(custom), custom)
    {
      match op {
        case Creating(p) => var _ := Create(p, io);
        case Updating(id, p) => var _ := Update(id, p, io);
        case UpdatingFan(id, config) => var _ := UpdateFanSettings(id, config, io);
        case Deleting(id) => var _ := Delete(id, io);
        case Copying(id) => var _, _ := Copy(id, io);
      }
    }

    /** Any sequence of careful operations keeps memory and directory in step, and every state the
        directory passes through mirrors what memory was at some boundary between two operations. */
    method PerformAll(ops: seq<Op>, ios: seq<Io>) returns (ghost memory: seq<map<Id, Profile>>)
      requires Valid() && InStep() && |ios| == |ops|
      requires forall i :: 0 <= i < |ops| ==> Careful(ops[i], ios[i])
      modifies this, dir
      ensures InStep() && ReloadsTo(dir.files, custom)
      ensures |memory| == |ops| + 1 && memory[0] == old(custom) && memory[|ops|] == custom
      ensures forall i :: 0 <= i < |ops| ==> Does(ops[i], ios[i], builtins, memory[i], memory[i + 1])
      ensures forall k :: |old(dir.passed)| <= k < |dir.passed| ==> MirrorsOneOf(dir.passed[k], memory)
    {
      memory := [custom];
      for i := 0 to |ops|
        invariant InStep() && old(dir.passed) <= dir.passed
        invariant |memory| == i + 1 && memory[0] == old(custom) && memory[i] == custom
        invariant forall k :: 0 <= k < i ==> Does(ops[k], ios[k], builtins, memory[k], memory[k + 1])
        invariant forall k :: |old(dir.passed)| <= k < |dir.passed| ==> MirrorsOneOf(dir.passed[k], memory)
      {
        ghost var before := |dir.passed|;
        Perform(ops[i], ios[i]);
        StillMirrorOne(dir.passed, |old(dir.passed)|, before, memory, custom);
        ghost var memory' := memory + [custom];
        assert forall k :: 0 <= k <= i ==> memory'[k] == memory[k];
        memory := memory';
      }
      MirrorsReload(dir.files, custom);
    }
  }

  /** What a misfiled update leads to: after storing profile `b` as an update of `a`, memory knows only
      `a`, with the new content, while the disk holds both. */
  lemma MisfiledUpdateExample(a: Profile, b: Profile)
    requires a.id == "a" && b.id == "b"
    ensures var files, files' := map[FileName("a") := Whole(a)], map[FileName("a") := Whole(a), FileName("b") := Whole(b)];
            && Mirrors(files, map["a" := a])
            && files' == (files - {TempName("b")})[FileName("b") := Whole(b)]
            && ReloadsTo(files', map["a" := a, "b" := b]) && !ReloadsTo(files', map["a" := a]["a" := b])
  {
    var files, before := map[FileName("a") := Whole(a)], map["a" := a];
    NamesAreApart("a", "b");
    NamesAreApart("b", "a");
    RenameMirrors(files, before, b);
    var files' := map[FileName("a") := Whole(a), FileName("b") := Whole(b)];
    assert files' == (files - {TempName("b")})[FileName("b") := Whole(b)];
    assert map["a" := a, "b" := b] == before["b" := b];
    MirrorsReload(files', before["b" := b]);
    NoReloadToMisfiled(files', before["a" := b], "a");
  }

  /** A removal that fails, or fan settings that never reach the disk, are undone by the next reload. */
  lemma FailedDiskStepExample(a: Profile, config: FanConfig)
    requires a.id == "a" && WithFan(a, config) != a
    ensures var files := map[FileName("a") := Whole(a)];
            && ReloadsTo(files, map["a" := a])
            && !ReloadsTo(files, map["a" := a] - {"a"}) && !ReloadsTo(files, map["a" := WithFan(a, config)])
  {
    var files, before := map[FileName("a") := Whole(a)], map["a" := a];
    ReloadOnly(files, before, before);
    ReloadOnly(files, before, before - {"a"});
    ReloadOnly(files, before, map["a" := WithFan(a, config)]);
    assert "a" !in before - {"a"};
    assert map["a" := WithFan(a, config)]["a"] != before["a"];
  }
}
