/** Size-bounded saving of messages.json and preferences.json.

    After writing a table the bot looks at the file size and, while the file
    is over its ceiling and the table is not empty, deletes the oldest entry
    and writes again. The byte size of a written table is left abstract: a
    function from the table to a natural number, passed in by the caller. */
module Storage {
  import opened Records
  import opened OrderedMaps

  /** The message log left once its oldest entries are removed, one at a
      time, until the size is within limit or nothing is left. */
  function Evicted<T>(log: seq<T>, size: seq<T> -> nat, limit: nat): (kept: seq<T>)
    ensures |kept| <= |log| && kept == log[|log| - |kept|..]
    ensures kept == [] || size(kept) <= limit
    ensures forall k :: 0 <= k < |log| - |kept| ==> size(log[k..]) > limit
    decreases |log|
  {
    if log != [] && size(log) > limit then
      var kept := Evicted(log[1..], size, limit);
      assert forall k :: 1 <= k < |log| - |kept| ==> log[k..] == log[1..][k - 1..];
      kept
    else log
  }

  /** save_messages: the eviction loop over the in-memory list, which the
      caller's list shares (pop(0) changes the bot's own log). */
  method EvictMessages(log: seq<LogEntry>, size: seq<LogEntry> -> nat) returns (kept: seq<LogEntry>)
    ensures kept == Evicted(log, size, MaxMessagesFileSize)
  {
    kept := log;
    ghost var dropped := 0;
    while size(kept) > MaxMessagesFileSize && kept != []
      invariant 0 <= dropped <= |log| && kept == log[dropped..]
      invariant Evicted(kept, size, MaxMessagesFileSize) == Evicted(log, size, MaxMessagesFileSize)
      decreases |kept|
    {
      kept := kept[1..];
      dropped := dropped + 1;
    }
  }

  /** How many first-inserted keys preference eviction deletes, counting
      from n: the least m >= n at which the table fits or is empty. */
  function EvictionCount(prefs: ODict<UserId, Pref>, size: ODict<UserId, Pref> -> nat, limit: nat, n: nat): (m: nat)
    requires prefs.Valid() && n <= |prefs.keys|
    ensures n <= m <= |prefs.keys|
    ensures forall k :: n <= k < m ==> size(prefs.Drop(k)) > limit
    ensures m == |prefs.keys| || size(prefs.Drop(m)) <= limit
    decreases |prefs.keys| - n
  {
    if n < |prefs.keys| && size(prefs.Drop(n)) > limit then EvictionCount(prefs, size, limit, n + 1)
    else n
  }

  /** The preference table left once its first-inserted keys are deleted,
      one at a time, until the size is within limit or nothing is left. */
  function EvictedPrefs(prefs: ODict<UserId, Pref>, size: ODict<UserId, Pref> -> nat, limit: nat): (kept: ODict<UserId, Pref>)
    requires prefs.Valid()
    ensures kept.Valid()
    ensures kept.keys == [] || size(kept) <= limit
  {
    prefs.Drop(EvictionCount(prefs, size, limit, 0))
  }

  /** save_preferences: deletes next(iter(preferences)), the oldest key,
      while the file is over its ceiling. */
  method EvictPreferences(prefs: ODict<UserId, Pref>, size: ODict<UserId, Pref> -> nat) returns (kept: ODict<UserId, Pref>)
    requires prefs.Valid()
    ensures kept == EvictedPrefs(prefs, size, MaxPreferencesFileSize)
  {
    kept := prefs;
    ghost var n := 0;
    while size(kept) > MaxPreferencesFileSize && kept.keys != []
      invariant n <= |prefs.keys| && kept == prefs.Drop(n)
      invariant EvictionCount(prefs, size, MaxPreferencesFileSize, n) == EvictionCount(prefs, size, MaxPreferencesFileSize, 0)
      decreases |prefs.keys| - n
    {
      DropStep(prefs, n);
      kept := kept.Remove(kept.keys[0]);
      n := n + 1;
    }
  }

  /** Preference eviction removes users only in insertion order and never
      changes a surviving user's preference: the survivors are the newest
      keys, in their original order. */
  lemma EvictedPrefsKeepsNewest(prefs: ODict<UserId, Pref>, size: ODict<UserId, Pref> -> nat, limit: nat)
    requires prefs.Valid()
    ensures var kept := EvictedPrefs(prefs, size, limit);
            |kept.keys| <= |prefs.keys|
            && kept.keys == prefs.keys[|prefs.keys| - |kept.keys|..]
            && (forall u :: u in kept.vals ==> u in prefs.vals && kept.vals[u] == prefs.vals[u])
            && (forall k :: 0 <= k < |prefs.keys| - |kept.keys| ==> size(prefs.Drop(k)) > limit)
  {
    var m := EvictionCount(prefs, size, limit, 0);
    assert EvictedPrefs(prefs, size, limit) == prefs.Drop(m);
  }
}
