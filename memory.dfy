/**
 * A per-session memory store: a backing file that maps a session id to the
 * ordered list of text entries recorded for that session, oldest first.
 * Every append keeps only the most recent `maxItems` entries of the session.
 *
 * The backing file is modelled as the field `file` of `MemoryStore`; reading
 * and rewriting it become `Read` and `Write`. The pure functions below give
 * the effect of each operation on the stored mapping, and the lemmas state
 * what follows from a sequence of operations.
 */
module Memory {

  datatype Option<T> = None | Some(value: T)

  /** The entries of one session, oldest first. */
  type Log = seq<string>

  /** The whole content of the backing file. */
  type Store = map<string, Log>

  const DefaultPath: string := "memory.json"
  const DefaultMaxItems: int := 100

  function Min(a: int, b: int): int { if a <= b then a else b }
  function Max(a: int, b: int): int { if a <= b then b else a }

  /** Python's `xs[start:]` for a possibly negative `start`. */
  function SliceFrom<T>(xs: seq<T>, start: int): seq<T>
  {
    var i := if start < 0 then Max(0, |xs| + start) else Min(start, |xs|);
    xs[i..]
  }

  /**
   * The pruning step `log[-maxItems:]`. For a positive bound it keeps the
   * newest `maxItems` entries; a bound of 0 keeps the whole log (since
   * `-0 == 0`), and a negative bound drops the oldest `-maxItems` entries.
   */
  function Prune<T>(log: seq<T>, maxItems: int): (r: seq<T>)
    ensures maxItems >= 1 ==> r == log[|log| - Min(maxItems, |log|)..]
    ensures maxItems == 0 ==> r == log
    ensures maxItems < 0 ==> r == log[Min(-maxItems, |log|)..]
  {
    SliceFrom(log, -maxItems)
  }

  /** What a read returns for a session: its log, or `[]` if it is absent. */
  function Lookup(store: Store, sessionId: string): Log
  {
    if sessionId in store then store[sessionId] else []
  }

  /** The store after appending `text` to `sessionId` and pruning that log. */
  function AppendEntry(store: Store, sessionId: string, text: string, maxItems: int): (r: Store)
    ensures r.Keys == store.Keys + {sessionId}
    ensures forall k :: k in store && k != sessionId ==> r[k] == store[k]
    ensures maxItems >= 1 ==> 1 <= |r[sessionId]| <= maxItems && r[sessionId][|r[sessionId]| - 1] == text
    ensures maxItems == 0 ==> r[sessionId] == Lookup(store, sessionId) + [text]
  {
    store[sessionId := Prune(Lookup(store, sessionId) + [text], maxItems)]
  }

  /** The store after clearing `sessionId`: emptied if present, untouched otherwise. */
  function ClearEntry(store: Store, sessionId: string): (r: Store)
    ensures r.Keys == store.Keys
    ensures sessionId in store ==> r[sessionId] == []
    ensures forall k :: k in store && k != sessionId ==> r[k] == store[k]
    ensures sessionId !in store ==> r == store
  {
    if sessionId in store then store[sessionId := []] else store
  }

  /** The store after appending each of `texts` to `sessionId`, in order. */
  function AppendAll(store: Store, sessionId: string, texts: seq<string>, maxItems: int): Store
    decreases |texts|
  {
    if texts == [] then store
    else AppendAll(AppendEntry(store, sessionId, texts[0], maxItems), sessionId, texts[1..], maxItems)
  }

  /** A session's log after appending each of `texts` to it, in order. */
  function AppendLog<T>(log: seq<T>, texts: seq<T>, maxItems: int): seq<T>
    decreases |texts|
  {
    if texts == [] then log
    else AppendLog(Prune(log + [texts[0]], maxItems), texts[1..], maxItems)
  }

  /** Every session holds at most `maxItems` entries. */
  predicate Bounded(store: Store, maxItems: int)
  {
    forall k :: k in store ==> |store[k]| <= maxItems
  }

  /**
   * Pruning an earlier log and then extending it gives the same result as
   * pruning the whole extended log: the evicted entries would have been
   * evicted anyway.
   */
  lemma PruneAbsorbs<T>(log: seq<T>, more: seq<T>, maxItems: int)
    requires maxItems >= 0
    ensures Prune(Prune(log, maxItems) + more, maxItems) == Prune(log + more, maxItems)
  {
  }

  /** Regrouping used when the first of several appends is taken off. */
  lemma SplitFirst<T>(before: seq<T>, xs: seq<T>)
    requires xs != []
    ensures before + xs == (before + [xs[0]]) + xs[1..]
  {
  }

  /** A second update of the same key replaces the first. */
  lemma UpdateOverrides<K, V>(m: map<K, V>, k: K, first: V, second: V)
    ensures m[k := first][k := second] == m[k := second]
  {
  }

  /** Replaying appends on the whole store replays them on the session's log. */
  lemma {:induction false} AppendAllSession(store: Store, sessionId: string, texts: seq<string>, maxItems: int)
    ensures sessionId in AppendAll(store, sessionId, texts, maxItems) <==> sessionId in store || texts != []
    ensures Lookup(AppendAll(store, sessionId, texts, maxItems), sessionId)
         == AppendLog(Lookup(store, sessionId), texts, maxItems)
    decreases |texts|
  {
    if texts != [] {
      AppendAllSession(AppendEntry(store, sessionId, texts[0], maxItems), sessionId, texts[1..], maxItems);
    }
  }

  /**
   * After appending `texts` one by one (at least one of them), a log holds
   * the newest `maxItems` entries of its old content followed by `texts`.
   */
  lemma {:induction false} AppendLogKeepsNewest<T>(log: seq<T>, texts: seq<T>, maxItems: int)
    requires maxItems >= 0 && texts != []
    ensures AppendLog(log, texts, maxItems) == Prune(log + texts, maxItems)
    decreases |texts|
  {
    var first, rest := texts[0], texts[1..];
    SplitFirst(log, texts);
    if rest != [] {
      AppendLogKeepsNewest(Prune(log + [first], maxItems), rest, maxItems);
      PruneAbsorbs(log + [first], rest, maxItems);
    }
  }

  /** The same, stated for the store: the session ends up present and pruned. */
  lemma AppendAllKeepsNewest(store: Store, sessionId: string, texts: seq<string>, maxItems: int)
    requires maxItems >= 0 && texts != []
    ensures sessionId in AppendAll(store, sessionId, texts, maxItems)
    ensures AppendAll(store, sessionId, texts, maxItems)[sessionId]
         == Prune(Lookup(store, sessionId) + texts, maxItems)
  {
    AppendAllSession(store, sessionId, texts, maxItems);
    AppendLogKeepsNewest(Lookup(store, sessionId), texts, maxItems);
  }

  /** Appending to one session leaves every other session exactly as it was. */
  lemma {:induction false} AppendAllOthersUnchanged(store: Store, sessionId: string, texts: seq<string>, maxItems: int, other: string)
    requires other != sessionId
    ensures other in AppendAll(store, sessionId, texts, maxItems) <==> other in store
    ensures Lookup(AppendAll(store, sessionId, texts, maxItems), other) == Lookup(store, other)
    decreases |texts|
  {
    if texts != [] {
      AppendAllOthersUnchanged(AppendEntry(store, sessionId, texts[0], maxItems), sessionId, texts[1..], maxItems, other);
    }
  }

  /**
   * Starting from an absent or empty session with a positive bound: at most
   * `maxItems` appends leave exactly the appended entries in order; more
   * leave only the last `maxItems` of them, oldest first.
   */
  lemma FromEmptySession(store: Store, sessionId: string, texts: seq<string>, maxItems: int)
    requires maxItems >= 1 && Lookup(store, sessionId) == []
    ensures |texts| <= maxItems ==> Lookup(AppendAll(store, sessionId, texts, maxItems), sessionId) == texts
    ensures |texts| > maxItems ==>
      Lookup(AppendAll(store, sessionId, texts, maxItems), sessionId) == texts[|texts| - maxItems..]
  {
    if texts != [] {
      AppendAllKeepsNewest(store, sessionId, texts, maxItems);
      assert Lookup(store, sessionId) + texts == texts;
    }
  }

  /** With `maxItems == 0` nothing is ever evicted: the log grows without bound. */
  lemma ZeroBoundNeverEvicts(store: Store, sessionId: string, texts: seq<string>)
    ensures Lookup(AppendAll(store, sessionId, texts, 0), sessionId) == Lookup(store, sessionId) + texts
  {
    if texts != [] {
      AppendAllKeepsNewest(store, sessionId, texts, 0);
    }
  }

  /** With a positive bound, appending and clearing keep every session within it. */
  lemma {:induction false} AppendAllPreservesBound(store: Store, sessionId: string, texts: seq<string>, maxItems: int)
    requires maxItems >= 1 && Bounded(store, maxItems)
    ensures Bounded(AppendAll(store, sessionId, texts, maxItems), maxItems)
    decreases |texts|
  {
    if texts != [] {
      var next := AppendEntry(store, sessionId, texts[0], maxItems);
      assert Bounded(next, maxItems);
      AppendAllPreservesBound(next, sessionId, texts[1..], maxItems);
    }
  }

  lemma ClearPreservesBound(store: Store, sessionId: string, maxItems: int)
    requires maxItems >= 0 && Bounded(store, maxItems)
    ensures Bounded(ClearEntry(store, sessionId), maxItems)
  {
  }

  /** After a clear, reading the session gives `[]` whether or not it was present. */
  lemma ClearThenLookup(store: Store, sessionId: string)
    ensures Lookup(ClearEntry(store, sessionId), sessionId) == []
    ensures sessionId in ClearEntry(store, sessionId) <==> sessionId in store
  {
  }

  /** The store object; `file` stands for the content of the backing file at `path`. */
  class MemoryStore {
    const path: string
    const maxItems: int
    var file: Store
    /** How many times the backing file has been (re)written. */
    ghost var writes: nat

    /**
     * `existing` is the content of the file at `path` if it exists. A missing
     * file is created holding the empty mapping; an existing one is kept.
     */
    constructor (existing: Option<Store>, path: string := DefaultPath, maxItems: int := DefaultMaxItems)
      ensures this.path == path && this.maxItems == maxItems
      ensures existing.None? ==> file == map[] && writes == 1
      ensures existing.Some? ==> file == existing.value && writes == 0
    {
      this.path := path;
      this.maxItems := maxItems;
      if existing.None? {
        file := map[];
        writes := 1;
      } else {
        file := existing.value;
        writes := 0;
      }
    }

    method Read() returns (data: Store)
      ensures data == file
    {
      data := file;
    }

    method Write(data: Store)
      modifies this
      ensures file == data && writes == old(writes) + 1
    {
      file := data;
      writes := writes + 1;
    }

    method AppendSessionMemory(sessionId: string, text: string)
      modifies this
      ensures file == AppendEntry(old(file), sessionId, text, maxItems)
      ensures writes == old(writes) + 1
    {
      var data := Read();
      if sessionId !in data {
        data := data[sessionId := []];
        UpdateOverrides(file, sessionId, [], Prune([text], maxItems));
      }
      data := data[sessionId := data[sessionId] + [text]];
      UpdateOverrides(data, sessionId, data[sessionId], Prune(data[sessionId], maxItems));
      data := data[sessionId := Prune(data[sessionId], maxItems)];
      Write(data);
    }

    method GetSessionMemory(sessionId: string) returns (entries: Log)
      ensures sessionId in file ==> entries == file[sessionId]
      ensures sessionId !in file ==> entries == []
    {
      var data := Read();
      entries := if sessionId in data then data[sessionId] else [];
    }

    method ClearSession(sessionId: string)
      modifies this
      ensures file == ClearEntry(old(file), sessionId)
      ensures writes == old(writes) + (if sessionId in old(file) then 1 else 0)
    {
      var data := Read();
      if sessionId in data {
        data := data[sessionId := []];
        Write(data);
      }
    }
  }

  /** Four appends to a store bounded at three keep the newest three. */
  method EvictionExample()
  {
    var store := new MemoryStore(None, maxItems := 3);
    store.AppendSessionMemory("a", "1");
    store.AppendSessionMemory("a", "2");
    store.AppendSessionMemory("a", "3");
    store.AppendSessionMemory("a", "4");
    var got := store.GetSessionMemory("a");
    assert got == ["2", "3", "4"];
  }

  /** Clearing a session that was never used writes nothing and it still reads as empty. */
  method ClearUnusedExample()
  {
    var store := new MemoryStore(None);
    store.ClearSession("never_used");
    assert store.writes == 1 && "never_used" !in store.file;
    var got := store.GetSessionMemory("never_used");
    assert got == [];
  }

  /** Reopening over the file another handle left behind reads the same entries. */
  method ReopenExample()
  {
    var first := new MemoryStore(None);
    first.AppendSessionMemory("s", "hello");
    var second := new MemoryStore(Some(first.file));
    var got := second.GetSessionMemory("s");
    assert got == ["hello"];
  }
}
