/**
 * What updates and restarts store, text by text, and what is in force afterwards
 * (prompt-manager.service.ts).
 */
module PromptTheorems {
  import opened Common
  import opened PromptStore
  import opened Sorting
  import opened Text

  // ----- Template files -----

  /** `t` is the template in the files of its key and version; a missing or empty name becomes the key. */
  predicate ReadsFrom(t: Template, texts: Texts) {
    && t.system == texts.system && t.user == texts.user && t.description == texts.description
    && t.name == if texts.name.Some? && texts.name.value != "" then texts.name.value else t.key
  }

  /** The version folder is listed for the key and holds both texts. */
  predicate InFiles(f: Files, key: string, version: nat) {
    key in f.versions && version in f.versions[key] && (key, version) in f.texts
  }

  predicate IsFile(t: Template, f: Files) {
    t.key in f.dirs && InFiles(f, t.key, t.version) && ReadsFrom(t, f.texts[(t.key, t.version)])
  }

  lemma LoadFileIsExact(f: Files, key: string, version: nat)
    ensures LoadFile(f, key, version).Some? <==> (key, version) in f.texts
    ensures LoadFile(f, key, version).Some? ==>
      var t := LoadFile(f, key, version).value;
      t.key == key && t.version == version && ReadsFrom(t, f.texts[(key, version)])
  {
  }

  predicate IsGreatest(versions: seq<nat>, v: nat) {
    v in versions && forall w | w in versions :: w <= v
  }

  lemma AscendingIsOrder()
    ensures TotalPreorder(Ascending())
  {
  }

  /** The latest file is that of the greatest version, and there is none if that folder lacks a text. */
  lemma LatestFileIsExact(f: Files, key: string, v: nat)
    requires key in f.versions && IsGreatest(f.versions[key], v)
    ensures LoadLatest(f, key) == LoadFile(f, key, v)
  {
    var sorted := FileVersions(f, key);
    AscendingIsOrder();
    SortSorts(f.versions[key], Ascending());
    SortKeepsMembers(f.versions[key], Ascending());
    assert v in sorted;
    var last := sorted[|sorted| - 1];
    var i :| 0 <= i < |sorted| && sorted[i] == v;
    assert i < |sorted| - 1 ==> Ascending()(sorted[i], last);
    assert last in sorted;
  }

  lemma {:induction false} LoadedVersions(f: Files, key: string, vs: seq<nat>, t: Template)
    ensures t in LoadVersions(f, key, vs) <==> t.key == key && t.version in vs && LoadFile(f, key, t.version) == Some(t)
  {
    if vs == [] {
    } else {
      LoadedVersions(f, key, vs[1..], t);
      LoadFileIsExact(f, key, vs[0]);
      assert vs == [vs[0]] + vs[1..];
    }
  }

  lemma {:induction false} LoadedDirs(f: Files, dirs: seq<string>, t: Template)
    ensures t in LoadAll(f, dirs) <==>
      t.key in dirs && InFiles(f, t.key, t.version) && ReadsFrom(t, f.texts[(t.key, t.version)])
  {
    if dirs == [] {
    } else {
      LoadedDirs(f, dirs[1..], t);
      LoadedVersions(f, dirs[0], FileVersions(f, dirs[0]), t);
      LoadFileIsExact(f, t.key, t.version);
      assert dirs == [dirs[0]] + dirs[1..];
      if t.key in f.versions {
        SortKeepsMembers(f.versions[t.key], Ascending());
      }
    }
  }

  /** The templates loaded at a start are exactly those in the files. */
  lemma LoadedAreFiles(f: Files, t: Template)
    ensures t in LoadAll(f, f.dirs) <==> IsFile(t, f)
  {
    LoadedDirs(f, f.dirs, t);
  }

  // ----- What a start stores -----

  predicate SomeVersion(ts: seq<Template>, key: string, version: nat) {
    exists i :: 0 <= i < |ts| && ts[i].key == key && ts[i].version == version
  }

  lemma HasVersionSnoc(rows: seq<Row>, row: Row, key: string, version: nat)
    ensures HasVersion(rows + [row], key, version) <==>
      HasVersion(rows, key, version) || (row.template.key == key && row.template.version == version)
  {
    var all := rows + [row];
    assert all[|rows|] == row;
    if HasVersion(rows, key, version) {
      var i :| 0 <= i < |rows| && rows[i].template.key == key && rows[i].template.version == version;
      assert all[i] == rows[i];
    }
  }

  lemma {:induction false} SeededVersions(s: Store, ts: seq<Template>, key: string, version: nat)
    ensures HasVersion(SeededAll(s, ts).rows, key, version) <==> HasVersion(s.rows, key, version) || SomeVersion(ts, key, version)
    decreases |ts|
  {
    if ts == [] {
    } else {
      SeededVersions(Seeded(s, ts[0]), ts[1..], key, version);
      if !HasVersion(s.rows, ts[0].key, ts[0].version) {
        HasVersionSnoc(s.rows, Row(ts[0], !HasActive(s.rows, ts[0].key), false), key, version);
      }
      if i :| 0 <= i < |ts| && ts[i].key == key && ts[i].version == version && i > 0 {
        assert ts[1..][i - 1] == ts[i];
      }
    }
  }

  /** The rows behind the n-th are seeds from `ts`, each with its history entry. */
  predicate SeedsFrom(s: Store, n: nat, ts: seq<Template>) {
    |s.history| == |s.rows| && forall i | n <= i < |s.rows| ::
      && !s.rows[i].admin && s.rows[i].template in ts
      && s.history[i] == EntryOf(s.rows[i].template, "seed from prompt/templates", "system")
  }

  lemma SeedAddsSeed(s: Store, n: nat, t: Template, ts: seq<Template>)
    requires SeedsFrom(s, n, ts) && n <= |s.rows| && t in ts
    ensures SeedsFrom(Seeded(s, t), n, ts) && |Seeded(s, t).rows| >= n
  {
  }

  lemma {:induction false} SeededRows(s: Store, n: nat, ts: seq<Template>, all: seq<Template>)
    requires SeedsFrom(s, n, all) && n <= |s.rows| && forall t | t in ts :: t in all
    ensures SeedsFrom(SeededAll(s, ts), n, all)
    decreases |ts|
  {
    if ts == [] {
    } else {
      assert ts[0] in ts;
      SeedAddsSeed(s, n, ts[0], all);
      SeededRows(Seeded(s, ts[0]), n, ts[1..], all);
    }
  }

  /**
   * A start stores exactly the versions in the files that were not stored, with the files' texts;
   * the rows that were there stay as they are, active flag included.
   */
  lemma StartStoresFiles(s: Store, f: Files)
    requires StoreInv(s)
    ensures var t, n := Act(s, Start(f)), |s.rows|;
      && n <= |t.rows| == |t.history| && t.rows[..n] == s.rows && t.history[..n] == s.history
      && (forall i | n <= i < |t.rows| ::
            && IsFile(t.rows[i].template, f) && !t.rows[i].admin
            && t.history[i] == EntryOf(t.rows[i].template, "seed from prompt/templates", "system"))
    ensures forall key, version: nat ::
      HasVersion(Act(s, Start(f)).rows, key, version) <==>
        HasVersion(s.rows, key, version) || (key in f.dirs && InFiles(f, key, version))
  {
    var ts := LoadAll(f, f.dirs);
    var t := Act(s, Start(f));
    SeedAllKeepsInv(s, ts);
    SeededRows(s, |s.rows|, ts, ts);
    SeedingAppends(s, ts);
    forall i | |s.rows| <= i < |t.rows| ensures IsFile(t.rows[i].template, f) {
      LoadedAreFiles(f, t.rows[i].template);
    }
    forall key, version: nat
      ensures HasVersion(t.rows, key, version) <==> HasVersion(s.rows, key, version) || (key in f.dirs && InFiles(f, key, version))
    {
      SeededVersions(s, ts, key, version);
      VersionIsLoaded(f, key, version);
    }
  }

  lemma VersionIsLoaded(f: Files, key: string, version: nat)
    ensures SomeVersion(LoadAll(f, f.dirs), key, version) <==> key in f.dirs && InFiles(f, key, version)
  {
    var ts := LoadAll(f, f.dirs);
    if i :| 0 <= i < |ts| && ts[i].key == key && ts[i].version == version {
      LoadedAreFiles(f, ts[i]);
    }
    if key in f.dirs && InFiles(f, key, version) {
      LoadFileIsExact(f, key, version);
      LoadedAreFiles(f, LoadFile(f, key, version).value);
    }
  }

  lemma {:induction false} SeedingAppends(s: Store, ts: seq<Template>)
    requires |s.history| == |s.rows|
    ensures s.rows <= SeededAll(s, ts).rows && s.history <= SeededAll(s, ts).history
    decreases |ts|
  {
    if ts == [] {
    } else {
      SeedingAppends(Seeded(s, ts[0]), ts[1..]);
    }
  }

  // ----- What a start activates -----

  /** The first of `ts` for this key is `t`. */
  ghost predicate Leads(ts: seq<Template>, t: Template) {
    exists k: nat :: SeedsKey(ts, k, t.key) && ts[k] == t
  }

  lemma LeadsAppend(a: seq<Template>, b: seq<Template>, t: Template)
    requires Leads(a, t) || ((forall u | u in a :: u.key != t.key) && Leads(b, t))
    ensures Leads(a + b, t)
  {
    if Leads(a, t) {
      var k: nat :| SeedsKey(a, k, t.key) && a[k] == t;
      assert SeedsKey(a + b, k, t.key) && (a + b)[k] == t;
    } else {
      var k: nat :| SeedsKey(b, k, t.key) && b[k] == t;
      assert SeedsKey(a + b, |a| + k, t.key) && (a + b)[|a| + k] == t;
    }
  }

  lemma {:induction false} LowestLeads(f: Files, vs: seq<nat>, t: Template)
    requires SortedBy(vs, Ascending()) && t.version in vs && LoadFile(f, t.key, t.version) == Some(t)
    requires forall v: nat | v in vs && (t.key, v) in f.texts :: t.version <= v
    ensures Leads(LoadVersions(f, t.key, vs), t)
  {
    var first := LoadFile(f, t.key, vs[0]);
    LoadFileIsExact(f, t.key, vs[0]);
    assert vs == [vs[0]] + vs[1..];
    if first.Some? {
      assert vs[0] in vs;
      var i :| 0 <= i < |vs| && vs[i] == t.version;
      assert i > 0 ==> Ascending()(vs[0], vs[i]);
      assert SeedsKey(LoadVersions(f, t.key, vs), 0, t.key);
    } else {
      forall i, j | 0 <= i < j < |vs[1..]| ensures Ascending()(vs[1..][i], vs[1..][j]) {
        assert Ascending()(vs[i + 1], vs[j + 1]);
      }
      LowestLeads(f, vs[1..], t);
      assert [] + LoadVersions(f, t.key, vs[1..]) == LoadVersions(f, t.key, vs[1..]);
    }
  }

  lemma {:induction false} LowestLeadsAll(f: Files, dirs: seq<string>, t: Template)
    requires t.key in dirs && InFiles(f, t.key, t.version) && LoadFile(f, t.key, t.version) == Some(t)
    requires forall v: nat | InFiles(f, t.key, v) :: t.version <= v
    ensures Leads(LoadAll(f, dirs), t)
  {
    var here, rest := LoadVersions(f, dirs[0], FileVersions(f, dirs[0])), LoadAll(f, dirs[1..]);
    assert dirs == [dirs[0]] + dirs[1..];
    if dirs[0] == t.key {
      AscendingIsOrder();
      SortSorts(f.versions[t.key], Ascending());
      SortKeepsMembers(f.versions[t.key], Ascending());
      forall v: nat | v in FileVersions(f, t.key) && (t.key, v) in f.texts ensures t.version <= v {
        assert InFiles(f, t.key, v);
      }
      LowestLeads(f, FileVersions(f, t.key), t);
    } else {
      forall u | u in here ensures u.key != t.key {
        LoadedVersions(f, dirs[0], FileVersions(f, dirs[0]), u);
      }
      LowestLeadsAll(f, dirs[1..], t);
    }
    LeadsAppend(here, rest, t);
  }

  /** On a key without rows a start activates the lowest version in the files that has both texts. */
  lemma StartActivatesLowest(s: Store, f: Files, t: Template)
    requires StoreInv(s) && !HasKey(s.rows, t.key) && IsFile(t, f)
    requires forall v: nat | InFiles(f, t.key, v) :: t.version <= v
    ensures ActiveRow(Act(s, Start(f)).rows, t.key) == Some(Row(t, true, false))
  {
    LoadFileIsExact(f, t.key, t.version);
    LowestLeadsAll(f, f.dirs, t);
    var ts := LoadAll(f, f.dirs);
    var k: nat :| SeedsKey(ts, k, t.key) && ts[k] == t;
    SeedingActivatesFirst(s, ts, t.key, k);
  }

  // ----- What an update stores -----

  /** Row `i` has the greatest version of the key. */
  predicate IsLatest(rows: seq<Row>, key: string, i: int) {
    && 0 <= i < |rows| && rows[i].template.key == key
    && forall j | 0 <= j < |rows| && rows[j].template.key == key :: rows[j].template.version <= rows[i].template.version
  }

  /** A name given, or else the latest one, or else the key; empty names count as none. */
  predicate IsName(name: string, asked: Option<string>, latest: Option<string>, key: string) {
    if asked.Some? && asked.value != "" then name == asked.value
    else if latest.Some? && latest.value != "" then name == latest.value
    else name == key
  }

  /** What an update adds in front of an empty or a latest row. */
  predicate Continues(t: Template, latest: Option<Template>, key: string, input: Input) {
    && t.key == key && t.system == input.system && t.user == input.user
    && t.version == (if latest.Some? then latest.value.version + 1 else 1)
    && IsName(t.name, input.name, if latest.Some? then Some(latest.value.name) else None, key)
    && t.description == (if input.description.Some? then input.description.value
                         else if latest.Some? then latest.value.description else None)
  }

  lemma NewTemplateContinues(rows: seq<Row>, key: string, input: Input)
    requires OneRowPerVersion(rows)
    ensures !HasKey(rows, key) ==> Continues(NewTemplate(rows, key, input), None, key, input)
    ensures forall i | IsLatest(rows, key, i) :: Continues(NewTemplate(rows, key, input), Some(rows[i].template), key, input)
  {
    forall i | IsLatest(rows, key, i) ensures LatestRow(rows, key) == Some(rows[i]) {
      var r := LatestRow(rows, key).value;
      var j :| 0 <= j < |rows| && rows[j] == r;
    }
  }

  /**
   * An update appends one active row with the texts given and one history entry with the note and
   * the author, and deactivates the key's active row; nothing else changes.
   */
  lemma UpdateIsExact(s: Store, key: string, input: Input)
    requires StoreInv(s)
    ensures var t, n := Act(s, Update(key, input)), |s.rows|;
      && |t.rows| == n + 1 && |t.history| == n + 1 && t.history[..n] == s.history
      && (forall i | 0 <= i < n :: t.rows[i] == s.rows[i].(active := s.rows[i].active && s.rows[i].template.key != key))
      && t.rows[n].active && t.rows[n].admin
      && (!HasKey(s.rows, key) ==> Continues(t.rows[n].template, None, key, input))
      && (forall i | IsLatest(s.rows, key, i) :: Continues(t.rows[n].template, Some(s.rows[i].template), key, input))
      && t.history[n] == Entry(key, t.rows[n].template.version, input.system, input.user,
           if input.note.Some? then input.note.value else "admin update",
           if input.changedBy.Some? then input.changedBy.value else "admin")
  {
    NewTemplateContinues(s.rows, key, input);
  }

  // ----- What is in force -----

  /** The active row, from the database or a file as it was written, or a catalog key's latest file. */
  lemma InForceIsExact(rows: seq<Row>, f: Files, key: string)
    requires OneActivePerKey(rows)
    ensures forall i | 0 <= i < |rows| && IsActive(rows[i], key) ::
      InForce(rows, f, key) == Some(Cached(rows[i].template, if rows[i].admin then FromDb else FromFile))
    ensures (forall i | 0 <= i < |rows| :: !IsActive(rows[i], key)) ==>
      var file := LoadLatest(f, key);
      if file.Some? && key in {"keyword", "matching", "investigation", "recommendation", "image", "ocr", "report"}
      then InForce(rows, f, key) == Some(Cached(file.value, FromFile))
      else InForce(rows, f, key).None?
  {
    forall i | 0 <= i < |rows| && IsActive(rows[i], key)
      ensures InForce(rows, f, key) == Some(Cached(rows[i].template, if rows[i].admin then FromDb else FromFile))
    {
      ActiveIsUnique(rows, key, i);
    }
  }
}
