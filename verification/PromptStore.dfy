/**
 * Versioned prompts (prompt-manager.service.ts): rows seeded from files or written by an
 * administrator, a history of texts, and a cache of what is in force.
 */
module PromptStore {
  import opened Common
  import opened Sorting
  import opened Text

  datatype Template = Template(
    key: string, version: nat, name: string, description: Option<string>, system: string, user: string)

  datatype Row = Row(template: Template, active: bool, admin: bool)

  datatype Entry = Entry(key: string, version: nat, system: string, user: string, note: string, changedBy: string)

  /** The rows and the history in order of insertion. */
  datatype Store = Store(rows: seq<Row>, history: seq<Entry>)

  datatype Source = FromDb | FromFile

  datatype Cached = Cached(template: Template, source: Source)

  // ----- Template files -----

  /** The files of one version folder: the optional name and description, and the two texts. */
  datatype Texts = Texts(name: Option<string>, description: Option<string>, system: string, user: string)

  /** The template directories: version folders per key, and those that hold both texts. */
  datatype Files = Files(dirs: seq<string>, versions: map<string, seq<nat>>, texts: map<(string, nat), Texts>)

  function Ascending(): (nat, nat) -> bool {
    (x: nat, y: nat) => x <= y
  }

  function FileVersions(f: Files, key: string): seq<nat> {
    if key in f.versions then Sort(f.versions[key], Ascending()) else []
  }

  /** None when a text is missing. */
  function LoadFile(f: Files, key: string, version: nat): Option<Template> {
    if (key, version) !in f.texts then None
    else
      var t := f.texts[(key, version)];
      Some(Template(key, version, if NonEmpty(t.name).Some? then t.name.value else key, t.description, t.system, t.user))
  }

  function LoadLatest(f: Files, key: string): Option<Template> {
    var vs := FileVersions(f, key);
    if vs == [] then None else LoadFile(f, key, vs[|vs| - 1])
  }

  function LoadVersions(f: Files, key: string, vs: seq<nat>): seq<Template> {
    if vs == [] then []
    else
      var t := LoadFile(f, key, vs[0]);
      (if t.Some? then [t.value] else []) + LoadVersions(f, key, vs[1..])
  }

  function LoadAll(f: Files, dirs: seq<string>): seq<Template> {
    if dirs == [] then [] else LoadVersions(f, dirs[0], FileVersions(f, dirs[0])) + LoadAll(f, dirs[1..])
  }

  const PROMPT_KEYS := ["keyword", "matching", "investigation", "recommendation", "image", "ocr", "report"]

  // ----- Queries -----

  predicate HasKey(rows: seq<Row>, key: string) {
    exists i :: 0 <= i < |rows| && rows[i].template.key == key
  }

  predicate HasVersion(rows: seq<Row>, key: string, version: nat) {
    exists i :: 0 <= i < |rows| && rows[i].template.key == key && rows[i].template.version == version
  }

  predicate IsActive(r: Row, key: string) {
    r.template.key == key && r.active
  }

  predicate HasActive(rows: seq<Row>, key: string) {
    exists i :: 0 <= i < |rows| && IsActive(rows[i], key)
  }

  /** The row of the key with the greatest version. */
  function LatestRow(rows: seq<Row>, key: string): (r: Option<Row>)
    ensures r.None? <==> !HasKey(rows, key)
    ensures r.Some? ==> r.value in rows && r.value.template.key == key
    ensures r.Some? ==> forall i | 0 <= i < |rows| && rows[i].template.key == key ::
      rows[i].template.version <= r.value.template.version
  {
    if rows == [] then None
    else
      var front, last := rows[..|rows| - 1], rows[|rows| - 1];
      var r := LatestRow(front, key);
      assert rows == front + [last];
      assert HasKey(rows, key) <==> HasKey(front, key) || last.template.key == key by {
        if last.template.key == key {
          assert rows[|front|].template.key == key;
        }
        if HasKey(front, key) {
          var i :| 0 <= i < |front| && front[i].template.key == key;
          assert rows[i].template.key == key;
        }
      }
      if last.template.key == key && (r.None? || r.value.template.version <= last.template.version) then Some(last) else r
  }

  function ActiveRow(rows: seq<Row>, key: string): (r: Option<Row>)
    ensures r.Some? ==> r.value in rows && IsActive(r.value, key)
    ensures r.Some? <==> HasActive(rows, key)
  {
    if rows == [] then None
    else
      var front, last := rows[..|rows| - 1], rows[|rows| - 1];
      assert HasActive(rows, key) <==> HasActive(front, key) || IsActive(last, key) by {
        if IsActive(last, key) {
          assert IsActive(rows[|front|], key);
        }
        if HasActive(front, key) {
          var i :| 0 <= i < |front| && IsActive(front[i], key);
          assert IsActive(rows[i], key);
        }
      }
      if IsActive(last, key) then Some(last) else ActiveRow(front, key)
  }

  // ----- Operations -----

  function EntryOf(t: Template, note: string, author: string): Entry {
    Entry(t.key, t.version, t.system, t.user, note, author)
  }

  function Inserted(s: Store, row: Row, note: string, author: string): Store {
    Store(s.rows + [row], s.history + [EntryOf(row.template, note, author)])
  }

  /** Seeding one file: only versions not stored yet, active only if the key has no active row. */
  function Seeded(s: Store, t: Template): Store {
    if HasVersion(s.rows, t.key, t.version) then s
    else Inserted(s, Row(t, !HasActive(s.rows, t.key), false), "seed from prompt/templates", "system")
  }

  function SeededAll(s: Store, ts: seq<Template>): Store
    decreases |ts|
  {
    if ts == [] then s else SeededAll(Seeded(s, ts[0]), ts[1..])
  }

  datatype Input = Input(
    name: Option<string>, description: Option<Option<string>>, system: string, user: string,
    note: Option<string>, changedBy: Option<string>)

  function Deactivated(rows: seq<Row>, key: string): (r: seq<Row>)
    ensures |r| == |rows|
    ensures forall i | 0 <= i < |r| :: r[i] == if IsActive(rows[i], key) then rows[i].(active := false) else rows[i]
  {
    seq(|rows|, i requires 0 <= i < |rows| => if IsActive(rows[i], key) then rows[i].(active := false) else rows[i])
  }

  function NextVersion(rows: seq<Row>, key: string): nat {
    var latest := LatestRow(rows, key);
    (if latest.Some? then latest.value.template.version else 0) + 1
  }

  function NewTemplate(rows: seq<Row>, key: string, input: Input): Template {
    var latest := LatestRow(rows, key);
    var oldName := if latest.Some? then NonEmpty(Some(latest.value.template.name)) else None;
    var name := OrElse(NonEmpty(input.name), oldName);
    var oldDescription := if latest.Some? then latest.value.template.description else None;
    Template(key, NextVersion(rows, key), if name.Some? then name.value else key,
      if input.description.Some? then input.description.value else oldDescription, input.system, input.user)
  }

  function Updated(s: Store, key: string, input: Input): Store {
    Inserted(Store(Deactivated(s.rows, key), s.history), Row(NewTemplate(s.rows, key, input), true, true),
      if input.note.Some? then input.note.value else "admin update",
      if input.changedBy.Some? then input.changedBy.value else "admin")
  }

  // ----- The cache -----

  function CachedRow(r: Row): Cached {
    Cached(r.template, if r.admin then FromDb else FromFile)
  }

  /** What is in force for a key: its active row, or for catalog keys the latest file. */
  function InForce(rows: seq<Row>, f: Files, key: string): Option<Cached> {
    var active := ActiveRow(rows, key);
    if active.Some? then Some(CachedRow(active.value))
    else if key in PROMPT_KEYS && LoadLatest(f, key).Some? then Some(Cached(LoadLatest(f, key).value, FromFile))
    else None
  }

  function Lookup(cache: map<string, Cached>, key: string): Option<Cached> {
    if key in cache then Some(cache[key]) else None
  }

  ghost predicate CacheAgrees(cache: map<string, Cached>, rows: seq<Row>, f: Files) {
    forall key :: Lookup(cache, key) == InForce(rows, f, key)
  }

  // ----- Invariants -----

  predicate OneRowPerVersion(rows: seq<Row>) {
    forall i, j | 0 <= i < j < |rows| && rows[i].template.key == rows[j].template.key ::
      rows[i].template.version != rows[j].template.version
  }

  predicate OneActivePerKey(rows: seq<Row>) {
    forall i, j | 0 <= i < j < |rows| && rows[i].active && rows[j].active :: rows[i].template.key != rows[j].template.key
  }

  /** A key with rows always has an active one. */
  predicate KeysAreActive(rows: seq<Row>) {
    forall i | 0 <= i < |rows| :: HasActive(rows, rows[i].template.key)
  }

  /** The i-th history entry holds the text of the i-th row. */
  predicate HistoryMatches(s: Store) {
    |s.history| == |s.rows| && forall i | 0 <= i < |s.rows| ::
      s.history[i] == EntryOf(s.rows[i].template, s.history[i].note, s.history[i].changedBy)
  }

  predicate StoreInv(s: Store) {
    OneRowPerVersion(s.rows) && OneActivePerKey(s.rows) && KeysAreActive(s.rows) && HistoryMatches(s)
  }

  /** No row and no history entry is lost or rewritten; only the active flag may change. */
  predicate Extends(s: Store, t: Store) {
    && s.history <= t.history && |s.rows| <= |t.rows|
    && forall i | 0 <= i < |s.rows| :: t.rows[i].template == s.rows[i].template && t.rows[i].admin == s.rows[i].admin
  }

  lemma ActiveStays(rows: seq<Row>, more: Row, key: string)
    ensures HasActive(rows + [more], key) <==> HasActive(rows, key) || IsActive(more, key)
  {
    var all := rows + [more];
    assert all[|rows|] == more;
    if HasActive(rows, key) {
      var i :| 0 <= i < |rows| && IsActive(rows[i], key);
      assert IsActive(all[i], key);
    }
    if IsActive(more, key) {
      assert IsActive(all[|rows|], key);
    }
  }

  /** An active row added to a key without one. */
  lemma InsertActive(s: Store, row: Row, note: string, author: string)
    requires OneRowPerVersion(s.rows) && OneActivePerKey(s.rows) && HistoryMatches(s)
    requires !HasActive(s.rows, row.template.key) && row.active
    requires forall i | 0 <= i < |s.rows| && s.rows[i].template.key != row.template.key :: HasActive(s.rows, s.rows[i].template.key)
    requires !HasVersion(s.rows, row.template.key, row.template.version)
    ensures StoreInv(Inserted(s, row, note, author)) && Extends(s, Inserted(s, row, note, author))
  {
    var all := s.rows + [row];
    forall i | 0 <= i < |all| ensures HasActive(all, all[i].template.key) {
      ActiveStays(s.rows, row, all[i].template.key);
    }
    assert forall i | 0 <= i < |s.rows| :: !IsActive(s.rows[i], row.template.key);
  }

  lemma InsertKeepsInv(s: Store, row: Row, note: string, author: string)
    requires StoreInv(s) && !HasVersion(s.rows, row.template.key, row.template.version)
    requires row.active <==> !HasActive(s.rows, row.template.key)
    ensures StoreInv(Inserted(s, row, note, author)) && Extends(s, Inserted(s, row, note, author))
  {
    if row.active {
      InsertActive(s, row, note, author);
    } else {
      var all := s.rows + [row];
      forall i | 0 <= i < |all| ensures HasActive(all, all[i].template.key) {
        ActiveStays(s.rows, row, all[i].template.key);
      }
    }
  }

  lemma SeedKeepsInv(s: Store, t: Template)
    requires StoreInv(s)
    ensures StoreInv(Seeded(s, t)) && Extends(s, Seeded(s, t))
  {
    if !HasVersion(s.rows, t.key, t.version) {
      InsertKeepsInv(s, Row(t, !HasActive(s.rows, t.key), false), "seed from prompt/templates", "system");
    }
  }

  lemma {:induction false} SeedAllKeepsInv(s: Store, ts: seq<Template>)
    requires StoreInv(s)
    ensures StoreInv(SeededAll(s, ts)) && Extends(s, SeededAll(s, ts))
    decreases |ts|
  {
    if ts == [] {
    } else {
      SeedKeepsInv(s, ts[0]);
      SeedAllKeepsInv(Seeded(s, ts[0]), ts[1..]);
    }
  }

  lemma OtherKeysStayActive(rows: seq<Row>, key: string, other: string)
    requires other != key
    ensures HasActive(Deactivated(rows, key), other) <==> HasActive(rows, other)
  {
    var d := Deactivated(rows, key);
    if HasActive(rows, other) {
      var i :| 0 <= i < |rows| && IsActive(rows[i], other);
      assert IsActive(d[i], other);
    }
    if HasActive(d, other) {
      var i :| 0 <= i < |d| && IsActive(d[i], other);
      assert IsActive(rows[i], other);
    }
  }

  /** An update's version is greater than every earlier version of the key, so it is new. */
  lemma NextVersionIsNew(rows: seq<Row>, key: string)
    ensures forall i | 0 <= i < |rows| && rows[i].template.key == key :: rows[i].template.version < NextVersion(rows, key)
    ensures !HasVersion(rows, key, NextVersion(rows, key))
  {
  }

  lemma DeactivateKeeps(s: Store, key: string)
    requires StoreInv(s)
    ensures var d := Store(Deactivated(s.rows, key), s.history);
      && OneRowPerVersion(d.rows) && OneActivePerKey(d.rows) && HistoryMatches(d) && Extends(s, d)
      && !HasActive(d.rows, key)
      && (forall i | 0 <= i < |d.rows| && d.rows[i].template.key != key :: HasActive(d.rows, d.rows[i].template.key))
  {
    var d := Deactivated(s.rows, key);
    forall i | 0 <= i < |d| && d[i].template.key != key ensures HasActive(d, d[i].template.key) {
      OtherKeysStayActive(s.rows, key, s.rows[i].template.key);
    }
  }

  lemma VersionsSurviveDeactivation(rows: seq<Row>, key: string, version: nat)
    ensures HasVersion(Deactivated(rows, key), key, version) <==> HasVersion(rows, key, version)
  {
    var d := Deactivated(rows, key);
    if HasVersion(rows, key, version) {
      var i :| 0 <= i < |rows| && rows[i].template.key == key && rows[i].template.version == version;
      assert d[i].template == rows[i].template;
    }
  }

  lemma UpdateKeepsInv(s: Store, key: string, input: Input)
    requires StoreInv(s)
    ensures StoreInv(Updated(s, key, input)) && Extends(s, Updated(s, key, input))
  {
    var d := Store(Deactivated(s.rows, key), s.history);
    var row := Row(NewTemplate(s.rows, key, input), true, true);
    NextVersionIsNew(s.rows, key);
    VersionsSurviveDeactivation(s.rows, key, NextVersion(s.rows, key));
    DeactivateKeeps(s, key);
    var note := if input.note.Some? then input.note.value else "admin update";
    var author := if input.changedBy.Some? then input.changedBy.value else "admin";
    InsertActive(d, row, note, author);
    ExtendsTransitive(s, d, Inserted(d, row, note, author));
  }

  // ----- What each operation does to the prompts in force -----

  lemma {:induction false} ActiveIsUnique(rows: seq<Row>, key: string, i: nat)
    requires OneActivePerKey(rows) && i < |rows| && IsActive(rows[i], key)
    ensures ActiveRow(rows, key) == Some(rows[i])
  {
    var k := |rows| - 1;
    if IsActive(rows[k], key) {
      assert i == k;
    } else {
      ActiveIsUnique(rows[..k], key, i);
    }
  }

  /** After an update the new text is in force for its key, and nothing changes for other keys. */
  lemma UpdateTakesEffect(s: Store, key: string, input: Input, f: Files, other: string)
    requires StoreInv(s)
    ensures InForce(Updated(s, key, input).rows, f, key) == Some(Cached(NewTemplate(s.rows, key, input), FromDb))
    ensures other != key ==> InForce(Updated(s, key, input).rows, f, other) == InForce(s.rows, f, other)
  {
    var t := Updated(s, key, input).rows;
    var d := Deactivated(s.rows, key);
    UpdateKeepsInv(s, key, input);
    assert IsActive(t[|s.rows|], key);
    ActiveIsUnique(t, key, |s.rows|);
    if other != key {
      ActiveStays(d, t[|s.rows|], other);
      OtherKeysStayActive(s.rows, key, other);
      if HasActive(s.rows, other) {
        var i :| 0 <= i < |s.rows| && IsActive(s.rows[i], other);
        ActiveIsUnique(s.rows, other, i);
        assert t[i] == s.rows[i];
        ActiveIsUnique(t, other, i);
      }
    }
  }

  lemma SeedKeepsActive(s: Store, t: Template, key: string)
    requires StoreInv(s) && HasActive(s.rows, key)
    ensures HasActive(Seeded(s, t).rows, key) && ActiveRow(Seeded(s, t).rows, key) == ActiveRow(s.rows, key)
  {
    if !HasVersion(s.rows, t.key, t.version) {
      var row := Row(t, !HasActive(s.rows, t.key), false);
      ActiveStays(s.rows, row, key);
      SeedKeepsInv(s, t);
      var i :| 0 <= i < |s.rows| && IsActive(s.rows[i], key);
      ActiveIsUnique(s.rows, key, i);
      assert Seeded(s, t).rows[i] == s.rows[i];
      ActiveIsUnique(Seeded(s, t).rows, key, i);
    }
  }

  /**
   * Seeding never changes what is in force for a key that has rows: a newer file version is stored
   * but stays inactive, and a file never replaces the stored text of its version.
   */
  lemma {:induction false} SeedingKeepsPromptsInForce(s: Store, ts: seq<Template>, key: string)
    requires StoreInv(s) && HasKey(s.rows, key)
    ensures ActiveRow(SeededAll(s, ts).rows, key) == ActiveRow(s.rows, key) && ActiveRow(s.rows, key).Some?
    decreases |ts|
  {
    var i :| 0 <= i < |s.rows| && s.rows[i].template.key == key;
    assert HasActive(s.rows, s.rows[i].template.key);
    if ts == [] {
    } else {
      SeedKeepsActive(s, ts[0], key);
      SeedKeepsInv(s, ts[0]);
      assert Seeded(s, ts[0]).rows[i].template.key == key;
      SeedingKeepsPromptsInForce(Seeded(s, ts[0]), ts[1..], key);
    }
  }

  predicate SeedsKey(ts: seq<Template>, k: nat, key: string) {
    k < |ts| && ts[k].key == key && forall j | 0 <= j < k :: ts[j].key != key
  }

  /** On a key without rows, seeding activates the first file of the key. */
  lemma {:induction false} SeedingActivatesFirst(s: Store, ts: seq<Template>, key: string, k: nat)
    requires StoreInv(s) && !HasKey(s.rows, key) && SeedsKey(ts, k, key)
    ensures ActiveRow(SeededAll(s, ts).rows, key) == Some(Row(ts[k], true, false))
    decreases |ts|
  {
    var next := Seeded(s, ts[0]);
    SeedKeepsInv(s, ts[0]);
    if k == 0 {
      assert !HasVersion(s.rows, key, ts[0].version);
      assert !HasActive(s.rows, key);
      assert next.rows[|s.rows|] == Row(ts[0], true, false);
      assert IsActive(next.rows[|s.rows|], key);
      ActiveIsUnique(next.rows, key, |s.rows|);
      assert next.rows[|s.rows|].template.key == key;
      SeedingKeepsPromptsInForce(next, ts[1..], key);
    } else {
      assert ts[0].key != key;
      assert forall i | 0 <= i < |next.rows| :: next.rows[i].template.key != key;
      SeedingActivatesFirst(next, ts[1..], key, k - 1);
    }
  }

  // ----- Runs -----

  /** Starting the service seeds the files it was shipped with; administrators update prompts. */
  datatype Action = Start(files: Files) | Update(key: string, input: Input)

  function Act(s: Store, a: Action): Store {
    match a
    case Start(f) => SeededAll(s, LoadAll(f, f.dirs))
    case Update(key, input) => Updated(s, key, input)
  }

  function Acts(s: Store, actions: seq<Action>): Store
    decreases |actions|
  {
    if actions == [] then s else Acts(Act(s, actions[0]), actions[1..])
  }

  lemma ExtendsTransitive(a: Store, b: Store, c: Store)
    requires Extends(a, b) && Extends(b, c)
    ensures Extends(a, c)
  {
  }

  /**
   * Over any run of restarts and updates: one row per version, exactly one active row per key that
   * has rows, each text stored once and for all and equal to its history entry.
   */
  lemma {:induction false} RunKeepsInv(s: Store, actions: seq<Action>)
    requires StoreInv(s)
    ensures StoreInv(Acts(s, actions)) && Extends(s, Acts(s, actions))
    decreases |actions|
  {
    if actions == [] {
    } else {
      match actions[0] {
        case Start(f) => SeedAllKeepsInv(s, LoadAll(f, f.dirs));
        case Update(key, input) => UpdateKeepsInv(s, key, input);
      }
      var mid := Act(s, actions[0]);
      RunKeepsInv(mid, actions[1..]);
      ExtendsTransitive(s, mid, Acts(mid, actions[1..]));
    }
  }
}
