/** HotKeyManager: the in-memory list, the registry path it was loaded from,
    and the menu operations that change them in place. Console prompts are
    parameters; the files live in a FileSystem object. */
module Manager {
  import opened HotKeys
  import opened HotKeySerializer
  import opened Menu
  import opened Registry

  class HotKeyManager {
    var hotKeys: seq<HotKey>
    var filePath: string
    const disk: FileSystem

    /** The manager's state together with the files, as a value. */
    function Current(): Snapshot
      reads this, disk
    {
      Snapshot(hotKeys, filePath, disk.files)
    }

    /** Remembers the registry path and loads the list stored there, or the
        empty list when there is no such file. */
    constructor (filePath: string, disk: FileSystem)
      ensures this.disk == disk && this.filePath == filePath
      ensures Current() == Start(filePath, disk.files)
    {
      this.filePath := filePath;
      this.disk := disk;
      new;
      hotKeys := Deserialize(disk, filePath);
    }

    /** CreateHotKey with the key pressed and the two lines typed. */
    method CreateHotKey(key: Key, action: string, filePath: string)
      modifies this`hotKeys, disk
      ensures Current() == Create(old(Current()), key, action, filePath)
    {
      hotKeys := hotKeys + [HotKey(key, action, filePath)];
      Serialize(disk, hotKeys, filePath);
    }

    /** EditHotKey with the key pressed and, when it matches, the two lines
        typed; `found` tells which message is shown. */
    method EditHotKey(key: Key, action: string, filePath: string) returns (found: bool)
      modifies this`hotKeys, disk
      ensures found <==> HasKey(old(hotKeys), key)
      ensures Current() == Edit(old(Current()), key, action, filePath)
    {
      var index := FindFirst(hotKeys, key);
      found := index.Some?;
      if found {
        hotKeys := EditAt(hotKeys, index.value, action, filePath);
        Serialize(disk, hotKeys, filePath);
      }
    }

    /** DeleteHotKey with the key pressed; `found` tells which message is shown. */
    method DeleteHotKey(key: Key) returns (found: bool)
      modifies this`hotKeys, disk
      ensures found <==> HasKey(old(hotKeys), key)
      ensures Current() == Delete(old(Current()), key)
    {
      var index := FindFirst(hotKeys, key);
      found := index.Some?;
      if found {
        hotKeys := RemoveAt(hotKeys, index.value);
        Serialize(disk, hotKeys, this.filePath);
      }
    }

    /** RunHotKeys with the key pressed in the run menu and what the operating
        system reports for the launch. It has no modifies clause: the list
        and the files stay as they are. */
    method RunHotKeys(key: Key, launch: LaunchResult) returns (outcome: RunOutcome)
      ensures outcome == RunMenu(hotKeys, key, launch)
    {
      outcome := RunMenu(hotKeys, key, launch);
    }

    /** The switch in Run's loop: carries out the option the menu key
        selects. `stop` is the exit when the pass ends the loop (Backspace,
        or the uncaught ToDictionary exception); otherwise `report` holds the
        run-menu outcome, if the run menu was chosen. */
    method Dispatch(turn: Turn) returns (stop: Option<Exit>, report: seq<RunOutcome>)
      modifies this`hotKeys, disk
      ensures Step(old(Current()), turn) ==
        if stop.Some? then Stop(stop.value) else Continue(Current(), report)
      ensures stop.Some? ==> Current() == old(Current())
    {
      stop, report := None, [];
      var keyPress := ParseKeyPress(turn.menuKey);
      match keyPress {
        case F1 =>
          CreateHotKey(turn.key, turn.action, turn.filePath);
        case F2 =>
          var _ := EditHotKey(turn.key, turn.action, turn.filePath);
        case F3 =>
          var _ := DeleteHotKey(turn.key);
        case F10 =>
          var outcome := RunHotKeys(turn.key, turn.launch);
          if outcome.DuplicateKeyCrash? {
            stop := Some(Crashed(outcome.duplicate));
          } else {
            report := [outcome];
          }
        case Backspace =>
          stop := Some(Quit);
        case Unselected =>
      }
    }

    /** Run: shows the menu and dispatches on the key pressed until Backspace
        clears `running`. A ToDictionary exception in the run menu leaves the
        loop and the program (Crashed); running out of turns leaves the loop
        waiting for the next key (AwaitingInput). */
    method Run(turns: seq<Turn>) returns (consumed: nat, reports: seq<RunOutcome>, exit: Exit)
      modifies this`hotKeys, disk
      ensures SessionResult(Current(), consumed, reports, exit) == Session(old(Current()), turns)
    {
      ghost var start := Current();
      var running := true;
      consumed, reports := 0, [];
      while running && consumed < |turns|
        invariant consumed <= |turns|
        invariant running ==> After(consumed, reports, Session(Current(), turns[consumed..])) == Session(start, turns)
        invariant !running ==> SessionResult(Current(), consumed, reports, Quit) == Session(start, turns)
        decreases |turns| - consumed
      {
        ghost var before := Current();
        var stop, report := Dispatch(turns[consumed]);
        match stop {
          case None =>
            SessionContinues(start, before, turns, consumed, reports, Current(), report);
            reports := reports + report;
          case Some(e) =>
            SessionStops(start, before, turns, consumed, reports, e);
            if e.Crashed? {
              consumed, exit := consumed + 1, e;
              return;
            }
            running := false;
        }
        consumed := consumed + 1;
      }
      exit := if running then AwaitingInput else Quit;
    }
  }
}
