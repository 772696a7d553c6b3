/** Properties that relate several registry operations to each other. */
module RegistryProperties {
  import opened HotKeys
  import opened HotKeySerializer
  import opened Menu
  import opened Registry

  /** Create accepts a key that is already present. A lookup by that key then
      still finds the older entry; only a new key finds the new entry. */
  lemma CreateThenFind(s: Snapshot, key: Key, action: string, filePath: string)
    ensures var t := Create(s, key, action, filePath);
      FindFirst(t.hotKeys, key) ==
        if HasKey(s.hotKeys, key) then FindFirst(s.hotKeys, key) else Some(|s.hotKeys|)
  {
    var t := Create(s, key, action, filePath);
    var n := |s.hotKeys|;
    assert forall j :: 0 <= j < n ==> t.hotKeys[j] == s.hotKeys[j];
    assert t.hotKeys[n].key == key;
    match FindFirst(t.hotKeys, key)
    case Some(k) =>
      if HasKey(s.hotKeys, key) {
        var i := FindFirst(s.hotKeys, key).value;
        assert t.hotKeys[i].key == key;
        assert k <= i;
      }
  }

  /** Creating a key that is new to a list with distinct keys lets the run
      menu launch exactly the new entry. */
  lemma CreateThenRun(s: Snapshot, key: Key, action: string, filePath: string, launch: LaunchResult)
    requires DistinctKeys(s.hotKeys) && !HasKey(s.hotKeys, key)
    ensures var t := Create(s, key, action, filePath);
      RunMenu(t.hotKeys, key, launch) == Launched(HotKey(key, action, filePath), launch)
  {
    var t := Create(s, key, action, filePath);
    var n := |s.hotKeys|;
    assert forall j :: 0 <= j < n ==> t.hotKeys[j] == s.hotKeys[j];
    assert DistinctKeys(t.hotKeys);
  }

  /** Creating a key that is already present makes the run menu throw from
      ToDictionary, whatever key is pressed, on every visit until a Delete
      removes one of the two entries. */
  lemma CreateDuplicateBreaksRunMenu(s: Snapshot, key: Key, action: string, filePath: string,
                                     pressed: Key, launch: LaunchResult)
    requires HasKey(s.hotKeys, key)
    ensures var t := Create(s, key, action, filePath);
      RunMenu(t.hotKeys, pressed, launch).DuplicateKeyCrash?
  {
    var t := Create(s, key, action, filePath);
    var i := FindFirst(s.hotKeys, key).value;
    assert t.hotKeys[i] == s.hotKeys[i];
    assert t.hotKeys[|s.hotKeys|].key == key;
  }

  /** Create saves to the path just typed, so unless that string is the
      registry path, the registry file still holds the old list. A restart
      before the list is next saved to the registry path (by a Delete with a
      match, or a Create or Edit that types that path) loads the list without
      the new entry. */
  lemma RestartLosesCreate(s: Snapshot, key: Key, action: string, filePath: string)
    requires filePath != s.registryPath
    ensures var t := Create(s, key, action, filePath);
      Start(s.registryPath, t.files).hotKeys == Load(s.files, s.registryPath) &&
      Load(t.files, filePath) == t.hotKeys
  {
  }

  /** Edit, like Create, saves to the path just typed: unless that string is
      the registry path, a restart before the list is next saved to the
      registry path loads the entry with its old action and path. */
  lemma RestartLosesEdit(s: Snapshot, key: Key, action: string, filePath: string)
    requires HasKey(s.hotKeys, key)
    requires filePath != s.registryPath
    ensures var t := Edit(s, key, action, filePath);
      Start(s.registryPath, t.files).hotKeys == Load(s.files, s.registryPath) &&
      Load(t.files, filePath) == t.hotKeys &&
      (t.hotKeys != s.hotKeys <==> (s.hotKeys[FindFirst(s.hotKeys, key).value].action != action ||
                                    s.hotKeys[FindFirst(s.hotKeys, key).value].filePath != filePath))
  {
    var i := FindFirst(s.hotKeys, key).value;
    var t := Edit(s, key, action, filePath);
    if t.hotKeys == s.hotKeys {
      assert t.hotKeys[i] == s.hotKeys[i];
    }
  }

  /** Delete saves to the registry path, so the next start loads exactly the
      list Delete left. */
  lemma RestartKeepsDelete(s: Snapshot, key: Key)
    requires HasKey(s.hotKeys, key)
    ensures var t := Delete(s, key);
      Start(s.registryPath, t.files).hotKeys == t.hotKeys
  {
  }

  /** After a delete the key is still found exactly when a second entry had
      it; with distinct keys a delete therefore makes the key absent. */
  lemma DeleteThenFind(s: Snapshot, key: Key)
    requires HasKey(s.hotKeys, key)
    ensures var i := FindFirst(s.hotKeys, key).value;
      HasKey(Delete(s, key).hotKeys, key) <==> exists j :: i < j < |s.hotKeys| && s.hotKeys[j].key == key
    ensures DistinctKeys(s.hotKeys) ==> !HasKey(Delete(s, key).hotKeys, key)
  {
    RemoveFirstThenFind(s.hotKeys, key);
  }

  /** After an edit with a match, a lookup by the key finds the edited entry
      with the new action and path. */
  lemma EditThenFind(s: Snapshot, key: Key, action: string, filePath: string)
    requires HasKey(s.hotKeys, key)
    ensures var t := Edit(s, key, action, filePath);
      FindFirst(t.hotKeys, key) == FindFirst(s.hotKeys, key) &&
      t.hotKeys[FindFirst(t.hotKeys, key).value] == HotKey(key, action, filePath)
  {
    var i := FindFirst(s.hotKeys, key).value;
    EditKeepsLookup(s.hotKeys, i, action, filePath, key);
  }

  /** Edit and Delete keep the keys distinct; Create keeps them distinct
      exactly when the key is new. */
  lemma DistinctKeysPreserved(s: Snapshot, key: Key, action: string, filePath: string)
    requires DistinctKeys(s.hotKeys)
    ensures DistinctKeys(Edit(s, key, action, filePath).hotKeys)
    ensures DistinctKeys(Delete(s, key).hotKeys)
    ensures DistinctKeys(Create(s, key, action, filePath).hotKeys) <==> !HasKey(s.hotKeys, key)
  {
    var c := Create(s, key, action, filePath).hotKeys;
    assert forall j :: 0 <= j < |s.hotKeys| ==> c[j] == s.hotKeys[j];
    if HasKey(s.hotKeys, key) {
      var i := FindFirst(s.hotKeys, key).value;
      assert c[i].key == c[|s.hotKeys|].key;
    }
  }

  /** Starting from distinct keys, a session in which Create is never chosen
      never crashes in the run menu. */
  lemma {:induction false} NoCreateNoCrash(s: Snapshot, turns: seq<Turn>)
    requires DistinctKeys(s.hotKeys)
    requires forall j :: 0 <= j < |turns| ==> ParseKeyPress(turns[j].menuKey) != F1
    ensures !Session(s, turns).exit.Crashed?
    decreases |turns|
  {
    if |turns| > 0 {
      var t := turns[0];
      var rest := turns[1..];
      assert forall j :: 0 <= j < |rest| ==> rest[j] == turns[j + 1];
      DistinctKeysPreserved(s, t.key, t.action, t.filePath);
      match ParseKeyPress(t.menuKey)
      case F2 => NoCreateNoCrash(Edit(s, t.key, t.action, t.filePath), rest);
      case F3 => NoCreateNoCrash(Delete(s, t.key), rest);
      case F10 => NoCreateNoCrash(s, rest);
      case Unselected => NoCreateNoCrash(s, rest);
      case Backspace =>
    }
  }

  /** A concrete session: empty disk, registry "hotkeys.json"; create D1 with
      "open notes" and "notes.txt", delete D1, quit. The created list lands in
      notes.txt, the registry file never sees the entry, and after the delete
      it holds the empty list. */
  lemma NotesScenario()
    ensures var e := HotKey("D1", "open notes", "notes.txt");
      var s := Start("hotkeys.json", map[]);
      var create := Turn("F1", "D1", "open notes", "notes.txt", Started);
      var delete := Turn("F3", "D1", "", "", Started);
      var quit := Turn("Backspace", "", "", "", Started);
      var afterCreate := Create(s, "D1", "open notes", "notes.txt");
      afterCreate.hotKeys == [e] &&
      Load(afterCreate.files, "notes.txt") == [e] &&
      Load(afterCreate.files, "hotkeys.json") == [] &&
      Session(s, [create, delete, quit]) ==
        SessionResult(Snapshot([], "hotkeys.json", map["notes.txt" := [e], "hotkeys.json" := []]), 3, [], Quit)
  {
    var e := HotKey("D1", "open notes", "notes.txt");
    var s := Start("hotkeys.json", map[]);
    var create := Turn("F1", "D1", "open notes", "notes.txt", Started);
    var delete := Turn("F3", "D1", "", "", Started);
    var quit := Turn("Backspace", "", "", "", Started);
    var s1 := Create(s, "D1", "open notes", "notes.txt");
    assert s1.hotKeys == [e];
    var s2 := Delete(s1, "D1");
    assert s2 == Snapshot([], "hotkeys.json", map["notes.txt" := [e], "hotkeys.json" := []]);
    var turns := [create, delete, quit];
    assert turns[1..] == [delete, quit];
    assert turns[1..][1..] == [quit];
    assert Session(s2, [quit]) == SessionResult(s2, 1, [], Quit);
    assert Session(s1, [delete, quit]) == SessionResult(s2, 2, [], Quit);
  }
}
