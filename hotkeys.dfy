/** The registry's entries and the list operations the manager uses on them:
    List.Find, an update in place, List.Remove and Enumerable.ToDictionary. */
module HotKeys {

  /** A key as the console reports it: the name of its ConsoleKey value
      ("F1", "D1", "A", "Backspace"). Two keys are equal when their names are. */
  type Key = string

  /** One registry entry: the key, a free-text label and the path to open. */
  datatype HotKey = HotKey(key: Key, action: string, filePath: string)

  datatype Option<T> = None | Some(value: T)

  /** True when `key` belongs to some entry of the list. */
  predicate HasKey(hotKeys: seq<HotKey>, key: Key)
  {
    exists j :: 0 <= j < |hotKeys| && hotKeys[j].key == key
  }

  /** List.Find(hk => hk.Key == key), as the index of the entry it returns;
      None stands for the null it returns when no entry has the key. */
  function FindFirst(hotKeys: seq<HotKey>, key: Key): (r: Option<nat>)
    ensures r.Some? ==> r.value < |hotKeys| && hotKeys[r.value].key == key
    ensures r.Some? ==> forall j :: 0 <= j < r.value ==> hotKeys[j].key != key
    ensures r.None? <==> !HasKey(hotKeys, key)
  {
    if |hotKeys| == 0 then None
    else if hotKeys[0].key == key then Some(0)
    else match FindFirst(hotKeys[1..], key)
      case None =>
        assert forall j :: 1 <= j < |hotKeys| ==> hotKeys[j] == hotKeys[1..][j - 1];
        None
      case Some(i) => Some(i + 1)
  }

  /** The first match is determined by the keys alone: two lists with the
      same keys in the same places have the same first match for every key. */
  lemma {:induction false} FindFirstByKeys(s: seq<HotKey>, t: seq<HotKey>, key: Key)
    requires |s| == |t|
    requires forall j :: 0 <= j < |s| ==> s[j].key == t[j].key
    ensures FindFirst(s, key) == FindFirst(t, key)
  {
    if |s| > 0 && s[0].key != key {
      FindFirstByKeys(s[1..], t[1..], key);
    }
  }

  /** The list after the entry at index i got a new Action and FilePath
      (EditHotKey assigns both fields of the object List.Find returned). */
  function EditAt(hotKeys: seq<HotKey>, i: nat, action: string, filePath: string): (r: seq<HotKey>)
    requires i < |hotKeys|
    ensures |r| == |hotKeys|
    ensures r[i].key == hotKeys[i].key && r[i].action == action && r[i].filePath == filePath
    ensures forall j :: 0 <= j < |r| && j != i ==> r[j] == hotKeys[j]
  {
    hotKeys[i := hotKeys[i].(action := action, filePath := filePath)]
  }

  /** An edit keeps every key where it was, so afterwards every key still has
      the same first match as before; in particular a second entry with the
      edited key is neither edited nor promoted. */
  lemma EditKeepsLookup(hotKeys: seq<HotKey>, i: nat, action: string, filePath: string, key: Key)
    requires i < |hotKeys|
    ensures FindFirst(EditAt(hotKeys, i, action, filePath), key) == FindFirst(hotKeys, key)
  {
    FindFirstByKeys(EditAt(hotKeys, i, action, filePath), hotKeys, key);
  }

  /** The list after List.Remove took out the entry at index i. */
  function RemoveAt(hotKeys: seq<HotKey>, i: nat): (r: seq<HotKey>)
    requires i < |hotKeys|
    ensures |r| == |hotKeys| - 1
    ensures forall j :: 0 <= j < i ==> r[j] == hotKeys[j]
    ensures forall j :: i <= j < |r| ==> r[j] == hotKeys[j + 1]
    ensures multiset(r) + multiset{hotKeys[i]} == multiset(hotKeys)
  {
    assert hotKeys == hotKeys[..i] + [hotKeys[i]] + hotKeys[i + 1..];
    hotKeys[..i] + hotKeys[i + 1..]
  }

  /** Removing the first entry with `key` leaves the key findable exactly when
      a later entry also has it, and then the lookup finds the next one. */
  lemma {:induction false} RemoveFirstThenFind(hotKeys: seq<HotKey>, key: Key)
    requires FindFirst(hotKeys, key).Some?
    ensures var i := FindFirst(hotKeys, key).value;
      var r := FindFirst(RemoveAt(hotKeys, i), key);
      (r.None? <==> forall j :: i < j < |hotKeys| ==> hotKeys[j].key != key) &&
      (r.Some? ==> i <= r.value && hotKeys[r.value + 1].key == key &&
                   forall j :: i < j <= r.value ==> hotKeys[j].key != key)
  {
    var i := FindFirst(hotKeys, key).value;
    var rest := RemoveAt(hotKeys, i);
    match FindFirst(rest, key)
    case None =>
      forall j | i < j < |hotKeys| ensures hotKeys[j].key != key {
        assert rest[j - 1] == hotKeys[j];
      }
    case Some(k) =>
      forall j | i < j <= k ensures hotKeys[j].key != key {
        assert rest[j - 1] == hotKeys[j];
      }
      assert rest[k] == hotKeys[k + 1];
  }

  /** No two entries share a key. */
  predicate DistinctKeys(hotKeys: seq<HotKey>)
  {
    forall i, j :: 0 <= i < j < |hotKeys| ==> hotKeys[i].key != hotKeys[j].key
  }

  /** With distinct keys, the first entry with a key is the only one. */
  lemma DistinctFindIsUnique(hotKeys: seq<HotKey>, key: Key, j: nat)
    requires DistinctKeys(hotKeys)
    requires j < |hotKeys| && hotKeys[j].key == key
    ensures FindFirst(hotKeys, key) == Some(j)
  {
  }

  /** Appending an entry keeps the keys distinct exactly when its key is new. */
  lemma DistinctSnoc(init: seq<HotKey>, last: HotKey)
    ensures DistinctKeys(init + [last]) <==> DistinctKeys(init) && !HasKey(init, last.key)
  {
    var s := init + [last];
    assert forall j :: 0 <= j < |init| ==> s[j] == init[j];
    assert s[|init|] == last;
  }

  /** What ToDictionary(hk => hk.Key, hk => hk) gives: the dictionary, or the
      ArgumentException it throws on the first key it meets a second time. */
  datatype Dictionary = Built(entries: map<Key, HotKey>) | DuplicateKey(key: Key)

  /** Enumerable.ToDictionary over the list: the entries are added in list
      order, and adding a key already present fails. */
  function ToDictionary(hotKeys: seq<HotKey>): (r: Dictionary)
    ensures r.Built? <==> DistinctKeys(hotKeys)
    ensures r.Built? ==> forall k :: k in r.entries ==> HasKey(hotKeys, k)
    ensures r.Built? ==> forall j :: 0 <= j < |hotKeys| ==>
      hotKeys[j].key in r.entries && r.entries[hotKeys[j].key] == hotKeys[j]
    ensures r.DuplicateKey? ==>
      exists i, j :: 0 <= i < j < |hotKeys| && hotKeys[i].key == r.key && hotKeys[j].key == r.key
    decreases |hotKeys|
  {
    if |hotKeys| == 0 then Built(map[])
    else
      var n := |hotKeys| - 1;
      var init := hotKeys[..n];
      var last := hotKeys[n];
      assert hotKeys == init + [last];
      assert forall j :: 0 <= j < n ==> init[j] == hotKeys[j];
      DistinctSnoc(init, last);
      match ToDictionary(init)
      case DuplicateKey(k) => DuplicateKey(k)
      case Built(m) =>
        if last.key in m then
          assert HasKey(init, last.key);
          DuplicateKey(last.key)
        else
          Built(m[last.key := last])
  }
}
