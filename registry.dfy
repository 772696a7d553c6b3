/** HotKeyManager's behaviour on values: what each menu operation does to the
    in-memory list and to the files, the run-menu lookup, and the menu loop as
    a function of the keys and lines typed. */
module Registry {
  import opened HotKeys
  import opened HotKeySerializer
  import opened Menu

  /** The manager's list and registry path, with the file system beside them. */
  datatype Snapshot = Snapshot(hotKeys: seq<HotKey>, registryPath: string, files: Files)

  /** What the manager starts with: the list stored at its registry path. */
  function Start(registryPath: string, files: Files): (s: Snapshot)
    ensures registryPath !in files ==> s.hotKeys == []
    ensures registryPath in files ==> s.hotKeys == files[registryPath]
    ensures s.registryPath == registryPath && s.files == files
  {
    Snapshot(Load(files, registryPath), registryPath, files)
  }

  /** CreateHotKey: appends {key, action, filePath} and saves the whole list
      to the typed `filePath` (a local that shadows the registry path). */
  function Create(s: Snapshot, key: Key, action: string, filePath: string): (t: Snapshot)
    ensures |t.hotKeys| == |s.hotKeys| + 1
    ensures t.hotKeys[..|s.hotKeys|] == s.hotKeys
    ensures t.hotKeys[|s.hotKeys|] == HotKey(key, action, filePath)
    ensures Load(t.files, filePath) == t.hotKeys
    ensures forall p :: p != filePath ==> Load(t.files, p) == Load(s.files, p)
    ensures t.registryPath == s.registryPath
  {
    var hotKeys := s.hotKeys + [HotKey(key, action, filePath)];
    assert hotKeys[..|s.hotKeys|] == s.hotKeys;
    s.(hotKeys := hotKeys, files := Save(s.files, filePath, hotKeys))
  }

  /** EditHotKey: when some entry has `key`, the first one gets the new action
      and path, and the whole list is saved to the newly typed path; when none
      has it, nothing changes and nothing is saved. */
  function Edit(s: Snapshot, key: Key, action: string, filePath: string): (t: Snapshot)
    ensures !HasKey(s.hotKeys, key) ==> t == s
    ensures HasKey(s.hotKeys, key) ==>
      var i := FindFirst(s.hotKeys, key).value;
      t.hotKeys == EditAt(s.hotKeys, i, action, filePath) &&
      Load(t.files, filePath) == t.hotKeys &&
      (forall p :: p != filePath ==> Load(t.files, p) == Load(s.files, p))
    ensures t.registryPath == s.registryPath
  {
    match FindFirst(s.hotKeys, key)
    case None => s
    case Some(i) =>
      var hotKeys := EditAt(s.hotKeys, i, action, filePath);
      s.(hotKeys := hotKeys, files := Save(s.files, filePath, hotKeys))
  }

  /** DeleteHotKey: when some entry has `key`, the first one is removed and
      the list is saved to the registry path; otherwise nothing changes. */
  function Delete(s: Snapshot, key: Key): (t: Snapshot)
    ensures !HasKey(s.hotKeys, key) ==> t == s
    ensures HasKey(s.hotKeys, key) ==>
      var i := FindFirst(s.hotKeys, key).value;
      t.hotKeys == RemoveAt(s.hotKeys, i) &&
      Load(t.files, s.registryPath) == t.hotKeys &&
      (forall p :: p != s.registryPath ==> Load(t.files, p) == Load(s.files, p))
    ensures t.registryPath == s.registryPath
  {
    match FindFirst(s.hotKeys, key)
    case None => s
    case Some(i) =>
      var hotKeys := RemoveAt(s.hotKeys, i);
      s.(hotKeys := hotKeys, files := Save(s.files, s.registryPath, hotKeys))
  }

  /** What the operating system reports for Process.Start(path): it started,
      or it threw with this message. */
  datatype LaunchResult = Started | Failed(message: string)

  /** The run menu's result: the entry whose path was handed to Process.Start
      and how that went; the key matched nothing; or ToDictionary threw on a
      duplicate key, which nothing catches. */
  datatype RunOutcome =
    | Launched(entry: HotKey, result: LaunchResult)
    | NotFound(key: Key)
    | DuplicateKeyCrash(duplicate: Key)

  /** What RunHotKeys does: builds the key-to-entry dictionary, then looks up the key
      pressed and launches that entry's path. */
  function RunMenu(hotKeys: seq<HotKey>, key: Key, launch: LaunchResult): (o: RunOutcome)
    ensures o.DuplicateKeyCrash? <==> !DistinctKeys(hotKeys)
    ensures o.NotFound? <==> DistinctKeys(hotKeys) && !HasKey(hotKeys, key)
    ensures o.NotFound? ==> o.key == key
    ensures o.Launched? ==> o.result == launch
    ensures o.Launched? ==> forall j :: 0 <= j < |hotKeys| && hotKeys[j].key == key ==> o.entry == hotKeys[j]
    ensures o.Launched? ==> o.entry.key == key && o.entry in hotKeys
  {
    match ToDictionary(hotKeys)
    case DuplicateKey(k) => DuplicateKeyCrash(k)
    case Built(m) =>
      if key in m then Launched(m[key], launch) else NotFound(key)
  }

  /** Everything read from the console in one pass of the menu loop: the menu
      key, then the answers the chosen operation asks for (the key to create,
      edit, delete or run; the action text and path lines), and the outcome the
      operating system gives for a launch. An operation ignores what it does
      not read. */
  datatype Turn = Turn(menuKey: Key, key: Key, action: string, filePath: string, launch: LaunchResult)

  /** How the loop ended: Backspace cleared the `running` flag; an uncaught
      ToDictionary exception ended the program; or the input seen so far ran
      out with the loop still waiting for a key. */
  datatype Exit = Quit | Crashed(duplicate: Key) | AwaitingInput

  /** The state after the loop, how many turns it read, the run-menu reports
      in order, and how it ended. */
  datatype SessionResult = SessionResult(final: Snapshot, consumed: nat, reports: seq<RunOutcome>, exit: Exit)

  /** A result shifted past `n` earlier turns that produced `reports`. */
  function After(n: nat, reports: seq<RunOutcome>, r: SessionResult): SessionResult
  {
    r.(consumed := n + r.consumed, reports := reports + r.reports)
  }

  /** True when the turn's menu key is Backspace. */
  predicate Quits(t: Turn)
  {
    ParseKeyPress(t.menuKey) == Backspace
  }

  /** One pass of the loop: the state goes on to `next` with the run-menu
      report if any, or the loop stops with `exit`. */
  datatype StepResult = Continue(next: Snapshot, report: seq<RunOutcome>) | Stop(exit: Exit)

  /** One pass of HotKeyManager.Run's loop: the switch on the parsed menu key. */
  function Step(s: Snapshot, t: Turn): (r: StepResult)
    ensures r.Stop? ==> !r.exit.AwaitingInput?
    ensures (r.Stop? && r.exit.Quit?) <==> Quits(t)
    ensures (r.Stop? && r.exit.Crashed?) <==>
      ParseKeyPress(t.menuKey) == F10 && !DistinctKeys(s.hotKeys)
    ensures r.Continue? ==> r.next.registryPath == s.registryPath && |r.report| <= 1
    ensures r.Continue? && ParseKeyPress(t.menuKey) !in {F1, F2, F3} ==> r.next == s
  {
    match ParseKeyPress(t.menuKey)
    case F1 => Continue(Create(s, t.key, t.action, t.filePath), [])
    case F2 => Continue(Edit(s, t.key, t.action, t.filePath), [])
    case F3 => Continue(Delete(s, t.key), [])
    case F10 =>
      var o := RunMenu(s.hotKeys, t.key, t.launch);
      if o.DuplicateKeyCrash? then Stop(Crashed(o.duplicate)) else Continue(s, [o])
    case Backspace => Stop(Quit)
    case Unselected => Continue(s, [])
  }

  /** HotKeyManager.Run: the menu loop over the turns typed. */
  function Session(s: Snapshot, turns: seq<Turn>): (r: SessionResult)
    decreases |turns|
  {
    if |turns| == 0 then SessionResult(s, 0, [], AwaitingInput)
    else
      match Step(s, turns[0])
      case Stop(e) => SessionResult(s, 1, [], e)
      case Continue(next, report) => After(1, report, Session(next, turns[1..]))
  }

  /** How the loop ends: it waits for more input only after reading every
      turn; it quits only on a Backspace turn, which is the last it reads;
      it crashes only in the run menu; and no turn before the last one read
      is a Backspace. The registry path never changes. */
  lemma {:induction false} SessionEnds(s: Snapshot, turns: seq<Turn>)
    ensures var r := Session(s, turns);
      r.consumed <= |turns| &&
      (r.exit.AwaitingInput? ==> r.consumed == |turns|) &&
      (r.exit.Quit? ==> 0 < r.consumed && Quits(turns[r.consumed - 1])) &&
      (r.exit.Crashed? ==> 0 < r.consumed && ParseKeyPress(turns[r.consumed - 1].menuKey) == F10) &&
      (forall j :: 0 <= j < r.consumed && (j < r.consumed - 1 || r.exit.AwaitingInput?) ==> !Quits(turns[j])) &&
      r.final.registryPath == s.registryPath
    decreases |turns|
  {
    if |turns| > 0 {
      var rest := turns[1..];
      assert forall j :: 1 <= j < |turns| ==> turns[j] == rest[j - 1];
      match Step(s, turns[0])
      case Stop(e) =>
      case Continue(next, report) => SessionEnds(next, rest);
    }
  }

  /** The loop's invariant, one pass further: when the session from `start`
      is the session from `s` after `i` turns, and the next turn continues to
      `next`, it is the session from `next` after `i + 1` turns. */
  lemma SessionContinues(start: Snapshot, s: Snapshot, turns: seq<Turn>, i: nat,
                         reports: seq<RunOutcome>, next: Snapshot, report: seq<RunOutcome>)
    requires i < |turns|
    requires After(i, reports, Session(s, turns[i..])) == Session(start, turns)
    requires Step(s, turns[i]) == Continue(next, report)
    ensures After(i + 1, reports + report, Session(next, turns[i + 1..])) == Session(start, turns)
    ensures report == [] ==> After(i + 1, reports, Session(next, turns[i + 1..])) == Session(start, turns)
  {
    assert turns[i..][0] == turns[i] && turns[i..][1..] == turns[i + 1..];
    var later := Session(next, turns[i + 1..]);
    assert Session(s, turns[i..]) == After(1, report, later);
    assert reports + (report + later.reports) == (reports + report) + later.reports;
    if report == [] {
      assert reports + [] == reports;
    }
  }

  /** The loop's invariant at a turn that stops the loop. */
  lemma SessionStops(start: Snapshot, s: Snapshot, turns: seq<Turn>, i: nat,
                     reports: seq<RunOutcome>, exit: Exit)
    requires i < |turns|
    requires After(i, reports, Session(s, turns[i..])) == Session(start, turns)
    requires Step(s, turns[i]) == Stop(exit)
    ensures SessionResult(s, i + 1, reports, exit) == Session(start, turns)
  {
    assert turns[i..][0] == turns[i];
    assert reports + [] == reports;
  }

  /** A key that selects no option only re-shows the menu: the rest of the
      session goes on from the same state. */
  lemma UnselectedChangesNothing(s: Snapshot, t: Turn, rest: seq<Turn>)
    requires ParseKeyPress(t.menuKey) == Unselected
    ensures Session(s, [t] + rest) == After(1, [], Session(s, rest))
  {
    assert ([t] + rest)[1..] == rest;
  }

  /** The run menu never changes the list or the files: after a visit that
      does not crash, the rest of the session goes on from the same state. */
  lemma RunMenuChangesNothing(s: Snapshot, t: Turn, rest: seq<Turn>)
    requires ParseKeyPress(t.menuKey) == F10
    requires DistinctKeys(s.hotKeys)
    ensures Session(s, [t] + rest) == After(1, [RunMenu(s.hotKeys, t.key, t.launch)], Session(s, rest))
  {
    assert ([t] + rest)[1..] == rest;
  }
}
