# Session memory store

A Dafny model of `MemoryStore`, the per-session memory of a demo chatbot. The
store keeps a backing JSON file. The file maps a session id to the ordered
list of text entries recorded for that session, oldest first. It has three
operations:

- append an entry to a session, then keep only the newest `max_items` entries;
- read a session's entries, where an unknown session reads as `[]`;
- clear a session, which empties its list only if the session is present.

`memory.dfy` holds one module, `Memory`:

- `MemoryStore` is a class. Its field `file` stands for the content of the
  backing file. `Read` and `Write` model the private `_read` and `_write`, and
  the ghost counter `writes` counts how often the file is rewritten. The
  constructor's `existing` parameter gives the file's content if it exists,
  or `None` if it does not.
- `AppendEntry` and `ClearEntry` are pure functions that give each
  operation's effect on the stored mapping. Each method is proved to have
  exactly that effect.
- `Prune` is Python's `log[-max_items:]`, reproduced for every integer
  `max_items`, including 0 and negative values.
- `AppendAll` and `AppendLog` replay a sequence of appends. The lemmas state
  what such a sequence leaves behind.
- Three client methods (`EvictionExample`, `ClearUnusedExample`,
  `ReopenExample`) show concrete scenarios that follow from the class's
  contracts alone.

## Model

| member | source | states |
|---|---|---|
| Memory.MemoryStore.constructor | memory.py:14-19 | keeps `path` and `max_items` (default `"memory.json"` and 100); a missing file is created holding the empty mapping, which is one write; an existing file's content is kept unchanged with no write |
| Memory.MemoryStore.Read | memory.py:21-24 | returns the whole stored mapping |
| Memory.MemoryStore.Write | memory.py:26-29 | replaces the whole stored mapping and counts one rewrite of the file |
| Memory.MemoryStore.AppendSessionMemory | memory.py:31-38 | follows the source's steps (create the key, append, prune, write back); the new mapping is `AppendEntry` of the old one, and the file is rewritten exactly once |
| Memory.MemoryStore.GetSessionMemory | memory.py:40-42 | returns the session's stored list, or `[]` when the session is absent; it has no `modifies` clause, so the mapping is unchanged |
| Memory.MemoryStore.ClearSession | memory.py:44-48 | the new mapping is `ClearEntry` of the old one; the file is rewritten once if the session was present and not at all otherwise |
| Memory.Prune | memory.py:37 | `log[-max_items:]`: for `max_items >= 1`, the newest `min(max_items, len)` entries in order; for 0, the whole log; for a negative value, the log without its oldest `-max_items` entries |
| Memory.AppendEntry | memory.py:31-38 | the key set gains the session; every other session keeps its list; with `max_items >= 1`, the session holds between 1 and `max_items` entries and the last one is the new text; with `max_items == 0`, the old list plus the text |
| Memory.ClearEntry | memory.py:44-48 | the key set is unchanged; a present session maps to `[]` and every other session keeps its list; for an absent session the mapping is identical |
| Memory.PruneAbsorbs | memory.py:35-37 | for `max_items >= 0`, pruning early and then adding more entries gives the same result as pruning once at the end |
| Memory.AppendLogKeepsNewest | memory.py:35-37 | for `max_items >= 0`, one or more appends in a row leave `Prune(old log + texts)`: the newest entries, in insertion order |
| Memory.AppendAllSession | memory.py:33-38 | replaying appends on the whole mapping replays them on the session's list; the session is present afterwards iff it was before or something was appended |
| Memory.AppendAllKeepsNewest | memory.py:31-38 | after one or more appends the session is present and holds `Prune(old list or [] + texts)` |
| Memory.AppendAllOthersUnchanged | memory.py:33-38 | any number of appends to one session leave every other session's presence and list unchanged |
| Memory.FromEmptySession | memory.py:35-37 | from an absent or empty session with `max_items >= 1`: N appends with N ≤ `max_items` leave exactly `[t1, ..., tN]`; with N > `max_items`, only the last `max_items` texts, oldest first |
| Memory.ZeroBoundNeverEvicts | memory.py:37 | with `max_items == 0`, appends never evict: the list is the old list followed by every appended text |
| Memory.AppendAllPreservesBound | memory.py:35-37 | with `max_items >= 1`, if every session holds at most `max_items` entries, it still does after any number of appends |
| Memory.ClearPreservesBound | memory.py:44-48 | clearing keeps every session within a bound of `max_items >= 0` |
| Memory.ClearThenLookup | memory.py:40-48 | after a clear, reading the session gives `[]`, and the session is present iff it was before |

## Left out

- The JSON encoding and decoding of the file, and the existence check on the path, are not modelled. The file is the `file` field, and whether it exists is a constructor parameter.
- A file that is malformed or cannot be read or written raises an error in the source. These I/O failures are not modelled.
- The module-level `threading.Lock` is not modelled. The lock is held separately by `_read` and `_write`, so an append's read-modify-write is not atomic across threads. No claim is made about concurrent appends.
- The rest of the repository is not part of this model. The chat agent and its provider fallback (`agent_langchain.py`) and the web UI (`app.py`) are left out.
- The file name `path` is only stored. Two handles on the same path share a file only through the `existing` parameter; `ReopenExample` shows this.
