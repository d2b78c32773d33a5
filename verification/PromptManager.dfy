/** The service object around the prompt store and its cache (prompt-manager.service.ts). */
module PromptManager {
  import opened Common
  import opened PromptStore

  class PromptManagerService {
    var store: Store
    var cache: map<string, Cached>

    /** The store is well formed and the cache holds exactly what is in force. */
    ghost predicate Valid(f: Files)
      reads this
    {
      StoreInv(store) && CacheAgrees(cache, store.rows, f)
    }

    /** Starts empty: no row, nothing cached. */
    constructor ()
      ensures store == Store([], []) && cache == map[]
      ensures StoreInv(store)
    {
      store := Store([], []);
      cache := map[];
    }

    method OnModuleInit(f: Files)
      requires StoreInv(store)
      modifies this
      ensures store == Act(old(store), Start(f))
      ensures Valid(f) && Extends(old(store), store)
    {
      SyncFromFiles(f);
      ReloadCache(f);
      SeedAllKeepsInv(old(store), LoadAll(f, f.dirs));
    }

    method SyncFromFiles(f: Files)
      modifies `store
      ensures store == SeededAll(old(store), LoadAll(f, f.dirs))
    {
      var fromFiles := LoadAll(f, f.dirs);
      var i := 0;
      while i < |fromFiles|
        invariant i <= |fromFiles|
        invariant SeededAll(store, fromFiles[i..]) == SeededAll(old(store), fromFiles)
      {
        var t := fromFiles[i];
        assert fromFiles[i..][0] == t && fromFiles[i..][1..] == fromFiles[i + 1..];
        i := i + 1;
        if HasVersion(store.rows, t.key, t.version) {
          continue;
        }
        var hasActive := HasActive(store.rows, t.key);
        var row := Row(t, !hasActive, false);
        store := store.(rows := store.rows + [row]);
        store := store.(history := store.history + [EntryOf(t, "seed from prompt/templates", "system")]);
      }
    }

    /** Cleared and refilled: active rows first, then files for the catalog keys still missing. */
    method ReloadCache(f: Files)
      modifies `cache
      ensures CacheAgrees(cache, store.rows, f)
    {
      var active := CacheActiveRows(store.rows);
      cache := FillFromFiles(active, store.rows, f);
    }

    method UpdatePrompt(key: string, input: Input, f: Files) returns (saved: Row)
      requires StoreInv(store)
      modifies this
      ensures store == Act(old(store), Update(key, input))
      ensures saved == store.rows[|old(store).rows|]
      ensures saved.active && saved.template.version == NextVersion(old(store).rows, key)
      ensures Valid(f) && Extends(old(store), store)
      ensures key in cache && cache[key] == CachedRow(saved)
    {
      var t := NewTemplate(store.rows, key, input);
      store := store.(rows := Deactivated(store.rows, key));
      saved := Row(t, true, true);
      store := store.(rows := store.rows + [saved]);
      var note := if input.note.Some? then input.note.value else "admin update";
      var author := if input.changedBy.Some? then input.changedBy.value else "admin";
      store := store.(history := store.history + [EntryOf(t, note, author)]);
      ReloadCache(f);
      UpdateKeepsInv(old(store), key, input);
      UpdateTakesEffect(old(store), key, input, f, key);
    }

    /** The prompt in force, or the latest file for a key the cache does not know. */
    method GetActive(key: string, f: Files) returns (r: Option<Cached>)
      requires Valid(f)
      ensures InForce(store.rows, f, key).Some? ==> r == InForce(store.rows, f, key)
      ensures InForce(store.rows, f, key).None? ==>
        r == (if LoadLatest(f, key).Some? then Some(Cached(LoadLatest(f, key).value, FromFile)) else None)
    {
      if key in cache {
        return Some(cache[key]);
      }
      var t := LoadLatest(f, key);
      r := if t.Some? then Some(Cached(t.value, FromFile)) else None;
    }
  }

  function ActiveCached(rows: seq<Row>, key: string): Option<Cached> {
    var active := ActiveRow(rows, key);
    if active.Some? then Some(CachedRow(active.value)) else None
  }

  method CacheActiveRows(rows: seq<Row>) returns (cache: map<string, Cached>)
    ensures forall key :: Lookup(cache, key) == ActiveCached(rows, key)
  {
    cache := map[];
    for i := 0 to |rows|
      invariant forall key :: Lookup(cache, key) == ActiveCached(rows[..i], key)
    {
      assert rows[..i + 1][..i] == rows[..i];
      ghost var before := cache;
      if rows[i].active {
        cache := cache[rows[i].template.key := CachedRow(rows[i])];
      }
      forall key ensures Lookup(cache, key) == ActiveCached(rows[..i + 1], key) {
        assert Lookup(before, key) == ActiveCached(rows[..i], key);
      }
    }
    assert rows[..|rows|] == rows;
  }

  /** What the cache holds for a key once the catalog keys in `filled` are served. */
  function FilledBy(rows: seq<Row>, f: Files, key: string, filled: seq<string>): Option<Cached> {
    if ActiveCached(rows, key).Some? then ActiveCached(rows, key)
    else if key in filled && LoadLatest(f, key).Some? then Some(Cached(LoadLatest(f, key).value, FromFile))
    else None
  }

  method FillFromFiles(active: map<string, Cached>, rows: seq<Row>, f: Files) returns (cache: map<string, Cached>)
    requires forall key :: Lookup(active, key) == ActiveCached(rows, key)
    ensures CacheAgrees(cache, rows, f)
  {
    cache := active;
    for k := 0 to |PROMPT_KEYS|
      invariant forall key :: Lookup(cache, key) == FilledBy(rows, f, key, PROMPT_KEYS[..k])
    {
      cache := FillOne(cache, rows, f, PROMPT_KEYS[..k], PROMPT_KEYS[k]);
      assert PROMPT_KEYS[..k + 1] == PROMPT_KEYS[..k] + [PROMPT_KEYS[k]];
    }
    assert PROMPT_KEYS[..|PROMPT_KEYS|] == PROMPT_KEYS;
    forall key ensures Lookup(cache, key) == InForce(rows, f, key) {
      assert Lookup(cache, key) == FilledBy(rows, f, key, PROMPT_KEYS);
    }
  }

  method FillOne(before: map<string, Cached>, rows: seq<Row>, f: Files, ghost filled: seq<string>, key: string)
    returns (cache: map<string, Cached>)
    requires forall k :: Lookup(before, k) == FilledBy(rows, f, k, filled)
    ensures forall k :: Lookup(cache, k) == FilledBy(rows, f, k, filled + [key])
  {
    cache := before;
    assert Lookup(before, key) == FilledBy(rows, f, key, filled);
    if key !in cache {
      var t := LoadLatest(f, key);
      if t.Some? {
        cache := cache[key := Cached(t.value, FromFile)];
      }
    }
    forall k ensures Lookup(cache, k) == FilledBy(rows, f, k, filled + [key]) {
      assert Lookup(before, k) == FilledBy(rows, f, k, filled);
    }
  }
}
