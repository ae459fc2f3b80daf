/** The profiles directory as the profile store sees it (tux-daemon/src/profile_store.rs):
    file names, what a reload makes of a directory, and when a directory mirrors a map. */
module ProfileFiles {
  import opened Prelude
  import opened FanCurve

  type Id = string

  /** The fields the store itself touches; every other setting travels along unchanged. */
  datatype Profile = Profile(id: Id, name: string, isDefault: bool, fanMode: FanMode, fanMinSpeed: u8,
                             fanCurve: seq<Point>, settings: map<string, string>)

  /** A file either parses as a profile or it does not. */
  datatype Content = Whole(profile: Profile) | Broken

  type Dir = map<string, Content>

  function FileName(id: Id): string { id + ".toml" }

  /** `with_extension("toml.tmp")` on the file name: it replaces `toml`, but a bare `.toml` has no
      extension to replace. */
  function TempName(id: Id): string {
    if id == "" then ".toml.toml.tmp" else id + ".toml.tmp"
  }

  /** The extension is `toml`; a bare `.toml` has no extension. */
  predicate IsToml(name: string) {
    |name| > 5 && name[|name| - 5..] == ".toml"
  }

  lemma NamesAreApart(id: Id, id': Id)
    ensures FileName(id) == FileName(id') ==> id == id'
    ensures IsToml(FileName(id)) <==> id != ""
    ensures !IsToml(TempName(id)) && TempName(id) != FileName(id')
  {
    assert FileName(id)[..|FileName(id)| - 5] == id && FileName(id')[..|FileName(id')| - 5] == id';
    assert FileName(id)[|FileName(id)| - 5..] == ".toml";
    assert TempName(id)[|TempName(id)| - 1] == 'p' && FileName(id')[|FileName(id')| - 1] == 'l';
    var temp := TempName(id);
    assert temp[|temp| - 5..][4] == temp[|temp| - 1];
  }

  // ---- Reloading ----------------------------------------------------------

  /** `load_custom_profiles` over the entries in the order the directory lists them: files of other
      extensions and files that do not parse are skipped, and the first file of an id wins. */
  function Loads(files: Dir, entries: seq<string>): map<Id, Profile> {
    if entries == [] then map[]
    else
      var soFar, name := Loads(files, entries[..|entries| - 1]), entries[|entries| - 1];
      if IsToml(name) && name in files && files[name].Whole? && files[name].profile.id !in soFar
      then soFar[files[name].profile.id := files[name].profile]
      else soFar
  }

  /** A file the loader takes for a profile of this id. */
  predicate Holds(files: Dir, name: string, id: Id) {
    |name| > 5 && name[|name| - 5..] == ".toml" && name in files && files[name].Whole? && files[name].profile.id == id
  }

  /** The loaded profile of an id is that of the first listed file that holds one. */
  lemma {:induction false} FirstFileWins(files: Dir, entries: seq<string>, id: Id)
    ensures id in Loads(files, entries) <==> exists i :: 0 <= i < |entries| && Holds(files, entries[i], id)
    ensures forall i :: 0 <= i < |entries| && Holds(files, entries[i], id)
                        && (forall j :: 0 <= j < i ==> !Holds(files, entries[j], id)) ==>
              id in Loads(files, entries) && Loads(files, entries)[id] == files[entries[i]].profile
  {
    if entries != [] {
      var n := |entries| - 1;
      var before := entries[..n];
      FirstFileWins(files, before, id);
      assert forall i :: 0 <= i < n ==> before[i] == entries[i];
      if id in Loads(files, before) {
        var i :| 0 <= i < n && Holds(files, before[i], id);
        assert Holds(files, entries[i], id);
      }
    }
  }

  lemma FileNamesExample()
    ensures FileName("work") == "work.toml" && TempName("work") == "work.toml.tmp" && TempName("") == ".toml.toml.tmp"
  {
  }

  /** A listing of the directory, in any order. */
  ghost predicate Lists(entries: seq<string>, files: Dir) {
    && (forall i, j :: 0 <= i < j < |entries| ==> entries[i] != entries[j])
    && (forall name :: name in entries <==> name in files)
  }

  lemma {:induction false} EveryDirHasAListing(names: set<string>) returns (entries: seq<string>)
    ensures forall i, j :: 0 <= i < j < |entries| ==> entries[i] != entries[j]
    ensures forall name :: name in entries <==> name in names
    decreases |names|
  {
    if names == {} {
      entries := [];
    } else {
      var name :| name in names;
      var rest := EveryDirHasAListing(names - {name});
      entries := rest + [name];
    }
  }

  /** Whatever the listing order, a reload gives exactly this map. */
  ghost predicate ReloadsTo(files: Dir, custom: map<Id, Profile>) {
    forall entries :: Lists(entries, files) ==> Loads(files, entries) == custom
  }

  /** Every profile of the map is stored under its own id, and every other file that the loader
      would look at fails to parse. */
  ghost predicate Mirrors(files: Dir, custom: map<Id, Profile>) {
    && (forall id :: id in custom ==>
          id != "" && custom[id].id == id && FileName(id) in files && files[FileName(id)] == Whole(custom[id]))
    && (forall name :: name in files && IsToml(name) && files[name].Whole? ==>
          files[name].profile.id in custom && name == FileName(files[name].profile.id))
  }

  lemma {:induction false} LoadsExactly(files: Dir, custom: map<Id, Profile>, entries: seq<string>)
    requires Mirrors(files, custom)
    ensures forall id :: id in Loads(files, entries) <==> id in custom && FileName(id) in entries
    ensures forall id :: id in Loads(files, entries) ==> Loads(files, entries)[id] == custom[id]
  {
    if entries != [] {
      var before, name := entries[..|entries| - 1], entries[|entries| - 1];
      LoadsExactly(files, custom, before);
      assert entries == before + [name];
      forall id | id in custom
        ensures IsToml(FileName(id))
      {
        NamesAreApart(id, id);
      }
      forall id | id in custom && FileName(id) == name
        ensures id in Loads(files, entries) && Loads(files, entries)[id] == custom[id]
      {
        assert files[name] == Whole(custom[id]);
      }
    }
  }

  /** A mirroring directory reloads to its map in every listing order. */
  lemma MirrorsReload(files: Dir, custom: map<Id, Profile>)
    requires Mirrors(files, custom)
    ensures ReloadsTo(files, custom)
  {
    forall entries | Lists(entries, files)
      ensures Loads(files, entries) == custom
    {
      LoadsExactly(files, custom, entries);
      assert Loads(files, entries).Keys == custom.Keys;
    }
  }

  lemma {:induction false} LoadsUnderOwnId(files: Dir, entries: seq<string>)
    ensures forall id :: id in Loads(files, entries) ==> Loads(files, entries)[id].id == id
  {
    if entries != [] {
      LoadsUnderOwnId(files, entries[..|entries| - 1]);
    }
  }

  /** A reload never gives a map that holds a profile under another id than its own. */
  lemma NoReloadToMisfiled(files: Dir, custom: map<Id, Profile>, id: Id)
    requires id in custom && custom[id].id != id
    ensures !ReloadsTo(files, custom)
  {
    var entries := EveryDirHasAListing(files.Keys);
    assert Lists(entries, files);
    LoadsUnderOwnId(files, entries);
  }

  /** A directory reloads to at most one map. */
  lemma ReloadIsUnique(files: Dir, a: map<Id, Profile>, b: map<Id, Profile>)
    requires ReloadsTo(files, a) && ReloadsTo(files, b)
    ensures a == b
  {
    var entries := EveryDirHasAListing(files.Keys);
    assert Lists(entries, files);
  }

  // ---- The steps of an operation --------------------------------------------

  /** Temporary files are invisible, whatever is in them. */
  lemma TempKeepsMirror(files: Dir, custom: map<Id, Profile>, id: Id, content: Content)
    requires Mirrors(files, custom)
    ensures Mirrors(files[TempName(id) := content], custom)
  {
    NamesAreApart(id, id);
    forall other: Id
      ensures TempName(id) != FileName(other)
    {
      NamesAreApart(id, other);
    }
  }

  /** The map with `p` written; the file of an empty id is not one the loader looks at. */
  function WithWritten(custom: map<Id, Profile>, p: Profile): map<Id, Profile> {
    if p.id == "" then custom else custom[p.id := p]
  }

  lemma RenameNamedMirrors(files: Dir, custom: map<Id, Profile>, p: Profile)
    requires Mirrors(files, custom) && p.id != ""
    ensures Mirrors((files - {TempName(p.id)})[FileName(p.id) := Whole(p)], custom[p.id := p])
  {
    NamesAreApart(p.id, p.id);
    forall other: Id
      ensures TempName(p.id) != FileName(other)
      ensures FileName(other) == FileName(p.id) ==> other == p.id
    {
      NamesAreApart(p.id, other);
    }
  }

  /** A file that the loader does not look at changes nothing, and neither does a temporary one gone. */
  lemma UnseenFileMirrors(files: Dir, custom: map<Id, Profile>, temp: string, name: string, content: Content)
    requires Mirrors(files, custom) && !IsToml(temp) && !IsToml(name)
    ensures Mirrors((files - {temp})[name := content], custom)
  {
    forall id | id in custom ensures IsToml(FileName(id)) {
      NamesAreApart(id, id);
    }
  }

  /** The rename that ends a write of `p` takes the directory to the map with `p` written. */
  lemma RenameMirrors(files: Dir, custom: map<Id, Profile>, p: Profile)
    requires Mirrors(files, custom)
    ensures Mirrors((files - {TempName(p.id)})[FileName(p.id) := Whole(p)], WithWritten(custom, p))
  {
    NamesAreApart(p.id, p.id);
    if p.id == "" {
      UnseenFileMirrors(files, custom, TempName(p.id), FileName(p.id), Whole(p));
    } else {
      RenameNamedMirrors(files, custom, p);
    }
  }

  lemma RemoveMirrors(files: Dir, custom: map<Id, Profile>, id: Id)
    requires Mirrors(files, custom) && id in custom
    ensures Mirrors(files - {FileName(id)}, custom - {id})
  {
    forall other: Id
      ensures FileName(other) == FileName(id) ==> other == id
    {
      NamesAreApart(other, id);
    }
  }
}
