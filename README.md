# Hotkey registry: a Dafny model

This project models a console utility. The user keeps a list of hotkeys,
each one a key, a free-text action label and a file path to open. The list
is loaded from a JSON file at start-up and changed through a menu:

- F1 creates an entry.
- F2 edits the first entry with a key.
- F3 deletes the first entry with a key.
- F10 opens the run menu, which opens the path of the key pressed.
- Backspace quits.

After every change the whole list is written to a file.

Modules, one per part of `ConsoleApp2/Program.cs`:

- `HotKeys` (hotkeys.dfy): the `HotKey` record and the list operations the
  manager relies on. These are `List.Find` (as `FindFirst`), the in-place
  field update (`EditAt`), `List.Remove` (`RemoveAt`) and
  `Enumerable.ToDictionary`, which fails on a duplicate key.
- `HotKeySerializer` (serializer.dfy): the file system is a `FileSystem`
  object whose `files` field maps a path to the list last written there.
  `Serialize` overwrites one path. `Deserialize` returns `[]` for a missing
  path.
- `Menu` (menu.dfy): the `KeyPress` enum with its values -1 to -5, and the
  parse of a pressed key's name into it. Any other name falls back to 0
  (`Unselected`).
- `Registry` (registry.dfy): each menu operation as a function on a
  `Snapshot`, which holds the list, the registry path and the files.
  `RunMenu` is the run-menu lookup. `Step` is one pass of the menu loop and
  `Session` is the whole loop over a sequence of console turns.
- `RegistryProperties` (properties.dfy): lemmas that relate several
  operations to each other.
- `Manager` (manager.dfy): the `HotKeyManager` class. Its `hotKeys` field
  is updated in place by methods whose parameters stand for the console
  prompts; `filePath` is set once by the constructor. `Run` is the `while (running)` loop and `Dispatch`
  is the switch inside it. Each method is proved to move the object through
  exactly the `Registry` function for its operation.

Three behaviours of the code are easy to miss:

- Create and Edit save the list to the path the user just typed. A local
  `filePath` shadows the field, so unless the typed path is the registry
  path, the registry file is not updated. A restart before the list is next
  saved to the registry path (by a Delete with a match, or a Create or Edit
  that types that path) therefore loses those changes (`RestartLosesCreate`,
  `RestartLosesEdit`, and the concrete `NotesScenario`). Delete always saves
  to the registry file; Create and Edit do so only when the typed path is
  that path. Every save writes the whole list.
- Nothing stops a duplicate key. After one, Edit and Delete act on the
  first match (`CreateThenFind`). Every visit to the run menu, until a Delete
  removes one of the two entries, throws from `ToDictionary` before a key is
  read. Nothing catches that exception,
  so the program ends (`CreateDuplicateBreaksRunMenu`, `Exit.Crashed`).
- The menu text advertises the digits 1 to 5. Those keys arrive as `D1` to
  `D5`, parse to 0 and take the invalid-choice branch
  (`AdvertisedDigitsAreUnselected`).

## Model

| member | source | states |
|---|---|---|
| `HotKeys.FindFirst` | ConsoleApp2/Program.cs:150 | the index found has the key and no earlier entry has it; none is found exactly when no entry has the key |
| `HotKeys.FindFirstByKeys` | ConsoleApp2/Program.cs:150 | two lists with the same keys in the same places have the same first match for every key |
| `HotKeys.EditAt` | ConsoleApp2/Program.cs:161-162 | only the entry at the index changes: its key stays, it gets the new action and path, and the length and every other entry stay the same |
| `HotKeys.EditKeepsLookup` | ConsoleApp2/Program.cs:150-162 | after an edit every key has the same first match as before, so a later entry with the same key is neither edited nor promoted |
| `HotKeys.RemoveAt` | ConsoleApp2/Program.cs:186 | the length drops by one; entries before the index stay and later ones shift down by one in order; the multiset loses exactly the removed entry |
| `HotKeys.RemoveFirstThenFind` | ConsoleApp2/Program.cs:183-186 | after removing the first match, the key is still found exactly when a later entry had it, and then the next such entry is found |
| `HotKeys.DistinctFindIsUnique` | ConsoleApp2/Program.cs:206-213 | with distinct keys, the entry that has a key is the first match for it |
| `HotKeys.ToDictionary` | ConsoleApp2/Program.cs:206 | succeeds exactly when the keys are distinct; it then maps each entry's key to that entry and holds no other key; a failure names a key that occurs twice |
| `HotKeySerializer.Save` | ConsoleApp2/Program.cs:18-22 | the written path holds exactly the list afterwards and every other file keeps its content |
| `HotKeySerializer.Load` | ConsoleApp2/Program.cs:24-33 | no contract of its own: the stored list for an existing path and `[]` otherwise; `LoadMissing`, `SaveThenLoad` and `LoadThenSave` state its properties |
| `HotKeySerializer.LoadMissing` | ConsoleApp2/Program.cs:26-32 | a path with no file loads as the empty list |
| `HotKeySerializer.SaveThenLoad` | ConsoleApp2/Program.cs:18-32 | loading a path just saved gives back the same list, entries and order |
| `HotKeySerializer.SaveLeavesOtherPaths` | ConsoleApp2/Program.cs:21 | saving to one path leaves what every other path loads unchanged |
| `HotKeySerializer.LoadThenSave` | ConsoleApp2/Program.cs:24-33 | loading an existing file and saving the list back leaves the file system as it was |
| `HotKeySerializer.Serialize` | ConsoleApp2/Program.cs:18-22 | the disk moves exactly as `Save` says: the path now holds the whole list and nothing else on disk changes |
| `HotKeySerializer.Deserialize` | ConsoleApp2/Program.cs:24-33 | returns the stored list when the file exists and `[]` otherwise, which is `Load` of the path |
| `Menu.Value` | ConsoleApp2/Program.cs:39-46 | the enum values lie between -5 and 0, and 0 is exactly the fallback that names no option |
| `Menu.ValueInjective` | ConsoleApp2/Program.cs:39-46 | the five options and the fallback have pairwise different values |
| `Menu.ParseKeyPress` | ConsoleApp2/Program.cs:68-73 | a key selects an option exactly when its name is F1, F2, F3, F10 or Backspace, and then the option's name is the key's name |
| `Menu.ParseValue` | ConsoleApp2/Program.cs:39-73 | a parsed key has value 0 exactly when its name is not one of the five option names, and a negative value otherwise |
| `Menu.ParseName` | ConsoleApp2/Program.cs:68-70 | each option's own key name parses to that option |
| `Menu.AdvertisedDigitsAreUnselected` | ConsoleApp2/Program.cs:59-73 | the digit keys D1 to D5 that the menu text offers select nothing |
| `Registry.Start` | ConsoleApp2/Program.cs:82-86 | the manager starts with the list stored at its registry path, or the empty list when there is no such file |
| `Registry.Create` | ConsoleApp2/Program.cs:121-141 | exactly one entry is appended at the end and the earlier entries keep their content and order; the list is saved to the typed path and every other path, the registry included when it differs, keeps its content |
| `Registry.Edit` | ConsoleApp2/Program.cs:143-174 | without a match nothing changes and nothing is saved; with one, only the first match gets the new action and path, and the list is saved to the newly typed path only |
| `Registry.Delete` | ConsoleApp2/Program.cs:176-198 | without a match nothing changes and nothing is saved; with one, exactly the first match is removed and the list is saved to the registry path only |
| `Registry.RunMenu` | ConsoleApp2/Program.cs:200-233 | duplicate keys make it throw, uncaught; with distinct keys an unmatched key launches nothing, and a matched key launches the one entry with that key, with the operating system's outcome reported |
| `Registry.Step` | ConsoleApp2/Program.cs:94-117 | a pass quits exactly on Backspace and crashes exactly in the run menu with duplicate keys; the run menu and an unselected key leave the state as it was |
| `Registry.Session` | ConsoleApp2/Program.cs:88-119 | no contract of its own: the loop applies `Step` to each turn in order until a pass stops it or the turns run out; `SessionEnds` states how it ends |
| `Registry.SessionEnds` | ConsoleApp2/Program.cs:88-119 | it waits for more input only after reading every turn; it quits only on a Backspace turn, the last it reads; a crash comes only from the run menu; no earlier turn it read was Backspace |
| `Registry.UnselectedChangesNothing` | ConsoleApp2/Program.cs:113-116 | a key that selects nothing only re-shows the menu, and the session goes on from the same state |
| `Registry.RunMenuChangesNothing` | ConsoleApp2/Program.cs:107-109 | a run-menu visit that does not crash adds its report and leaves the list and the files as they were |
| `RegistryProperties.CreateThenFind` | ConsoleApp2/Program.cs:135 | after a create, a lookup by the key finds the new entry only if the key was new; otherwise it finds the older entry |
| `RegistryProperties.CreateThenRun` | ConsoleApp2/Program.cs:206-218 | creating a new key in a list with distinct keys lets the run menu launch exactly the new entry |
| `RegistryProperties.CreateDuplicateBreaksRunMenu` | ConsoleApp2/Program.cs:206 | creating a key that is already present makes the run menu throw, whatever key is pressed |
| `RegistryProperties.RestartLosesCreate` | ConsoleApp2/Program.cs:133-137 | when the typed path is not the registry path, a restart loads the list as it was before the create |
| `RegistryProperties.RestartLosesEdit` | ConsoleApp2/Program.cs:159-164 | when the typed path is not the registry path, a restart after an edit with a match loads the list as it was before the edit, even though the list in memory changed whenever the action or the path differs |
| `RegistryProperties.RestartKeepsDelete` | ConsoleApp2/Program.cs:186-187 | after a delete with a match, a restart loads exactly the list the delete left |
| `RegistryProperties.DeleteThenFind` | ConsoleApp2/Program.cs:183-186 | after a delete the key is still present exactly when a later entry had it, so with distinct keys it is gone |
| `RegistryProperties.EditThenFind` | ConsoleApp2/Program.cs:150-162 | after an edit with a match, a lookup by the key finds the same position, now holding the key, the new action and the new path |
| `RegistryProperties.DistinctKeysPreserved` | ConsoleApp2/Program.cs:135-186 | edit and delete keep keys distinct, and create keeps them distinct exactly when the key is new |
| `RegistryProperties.NoCreateNoCrash` | ConsoleApp2/Program.cs:88-119 | from distinct keys, a session that never chooses create never crashes in the run menu |
| `RegistryProperties.NotesScenario` | ConsoleApp2/Program.cs:121-198 | from an empty disk, create D1 then delete D1 then quit: the list goes to notes.txt, the registry file never holds the entry, and it ends up holding the empty list |
| `Manager.HotKeyManager.constructor` | ConsoleApp2/Program.cs:82-86 | keeps the registry path and loads the list stored there |
| `Manager.HotKeyManager.CreateHotKey` | ConsoleApp2/Program.cs:121-141 | the object and the disk move exactly as `Registry.Create` says |
| `Manager.HotKeyManager.EditHotKey` | ConsoleApp2/Program.cs:143-174 | reports whether the key was found; the object and the disk move exactly as `Registry.Edit` says |
| `Manager.HotKeyManager.DeleteHotKey` | ConsoleApp2/Program.cs:176-198 | reports whether the key was found; the object and the disk move exactly as `Registry.Delete` says |
| `Manager.HotKeyManager.RunHotKeys` | ConsoleApp2/Program.cs:200-233 | modifies nothing and returns the `Registry.RunMenu` outcome for the current list |
| `Manager.HotKeyManager.Dispatch` | ConsoleApp2/Program.cs:96-117 | one pass of the switch moves the object and the disk exactly as `Registry.Step` says, and a pass that stops the loop changes nothing |
| `Manager.HotKeyManager.Run` | ConsoleApp2/Program.cs:88-119 | the `running` loop ends in the state, turn count, run-menu reports and exit that `Registry.Session` gives for the turns |

## Left out

- Console output is not modelled: the listing `ShowMenu` prints, the
  prompts, the success and error messages, `Console.Clear` and the
  `Console.ReadKey` pauses. Every read becomes a parameter. A `Turn` holds
  the menu key, the key typed, the action line, the path line and the
  launch outcome. An operation ignores the parts it does not read.
- The input is a finite sequence of turns. When it runs out, `Run` stops
  with `AwaitingInput`. The program itself would block on the next key.
- The Newtonsoft JSON encoding and decoding are not modelled. A file holds
  the list itself. A malformed file or a `null` payload at start-up is
  outside the model.
- I/O exceptions are not modelled. In the program, a typed path that
  `File.WriteAllText` refuses (for example an empty line) throws uncaught.
  In the model every path can be written.
- `Process.Start` and the operating system's file association are not
  modelled. Their result is a parameter: started, or failed with a message.
  Both are reported, and neither changes any state.
- `Program.Main` is not modelled. It only passes the fixed name
  `hotkeys.json` to the manager and calls `Run`.
- Keys are modelled by the name of their `ConsoleKey` value. For a value
  without a name, `Enum.TryParse` would parse the non-negative number it
  prints. That number is never one of -1 to -5, so it takes the same
  invalid-choice branch as 0. The model maps it to `Unselected`.
- Aliasing is not modelled. `HotKey` is a class in the program, but each
  object in the list is created fresh and is never shared. A value list
  updated at the index `List.Find` returns therefore behaves the same.
  `List.Remove` compares references; it removes that same index.
- Paths are compared as strings. Different spellings of one file
  (`hotkeys.json` and `./hotkeys.json`, a relative and an absolute path,
  letter case on Windows) are different files in the model.
- HotKeys.ToDictionary: a failure is only shown to name a key that occurs
  twice. The model does not prove that it names the first repeated key in
  list order, as the exception message would.
