/** The sectioned key/value store of an INI-style configuration file, and
    the upsert the login-theme script applies to it: for each section of an
    update table, in order, the section is created when missing and each of
    its keys is set, in order. */
module IniStore {
  import opened Wrappers

  type Section = map<string, string>
  type Store = map<string, Section>

  datatype Entry = Entry(key: string, value: string)

  /** One section of an update table with its entries in order. */
  datatype SectionUpdate = SectionUpdate(name: string, entries: seq<Entry>)

  /** The value of `key` in `section`, if both exist. */
  function Get(store: Store, section: string, key: string): Option<string> {
    if section in store && key in store[section] then Some(store[section][key]) else None
  }

  // ---------------------------------------------------------------------------
  // Reference definitions: which assignment an update table makes last

  /** The entry at `j` is the last one for `key`. */
  predicate LastEntry(entries: seq<Entry>, key: string, j: int) {
    && 0 <= j < |entries| && entries[j].key == key
    && forall l :: j < l < |entries| ==> entries[l].key != key
  }

  /** The value the last entry for `key` carries, if any entry has that key. */
  function LastValue(entries: seq<Entry>, key: string): (v: Option<string>)
    ensures v.Some? <==> exists j :: 0 <= j < |entries| && entries[j].key == key
    ensures v.Some? ==> exists j :: LastEntry(entries, key, j) && entries[j].value == v.value
    decreases |entries|
  {
    if |entries| == 0 then None
    else
      var n := |entries|;
      if entries[n - 1].key == key then
        assert LastEntry(entries, key, n - 1);
        Some(entries[n - 1].value)
      else
        LastEntryLift(entries, key);
        LastValue(entries[..n - 1], key)
  }

  /** When the last entry has another key, dropping it changes neither
      whether the key is listed nor which entry lists it last. */
  lemma LastEntryLift(entries: seq<Entry>, key: string)
    requires |entries| > 0 && entries[|entries| - 1].key != key
    ensures var init := entries[..|entries| - 1];
      && (forall j :: 0 <= j < |init| ==> init[j] == entries[j])
      && ((exists j :: 0 <= j < |entries| && entries[j].key == key) <==>
          (exists j :: 0 <= j < |init| && init[j].key == key))
      && (forall j :: LastEntry(init, key, j) ==> LastEntry(entries, key, j))
  {
  }

  /** The update `u` is for `section` and has an entry for `key`. */
  predicate Lists(u: SectionUpdate, section: string, key: string) {
    u.name == section && LastValue(u.entries, key).Some?
  }

  /** The update at `i` is the last one that lists `key` in `section`. */
  predicate LastUpdate(us: seq<SectionUpdate>, section: string, key: string, i: int) {
    && 0 <= i < |us| && Lists(us[i], section, key)
    && forall l :: i < l < |us| ==> !Lists(us[l], section, key)
  }

  /** The value the table assigns last to `key` in `section`: from the last
      update of that section that lists the key. */
  function Assigned(us: seq<SectionUpdate>, section: string, key: string): Option<string>
    decreases |us|
  {
    if |us| == 0 then None
    else
      var last := us[|us| - 1];
      if Lists(last, section, key) then LastValue(last.entries, key)
      else Assigned(us[..|us| - 1], section, key)
  }

  /** `Assigned` finds a value exactly when some update lists the key in the
      section, and then it is the value of the last such update. */
  lemma {:induction false} AssignedSpec(us: seq<SectionUpdate>, section: string, key: string)
    ensures var v := Assigned(us, section, key);
      && (v.Some? <==> exists i :: 0 <= i < |us| && Lists(us[i], section, key))
      && (v.Some? ==> exists i :: LastUpdate(us, section, key, i) && LastValue(us[i].entries, key) == v)
    decreases |us|
  {
    if |us| > 0 {
      var n := |us|;
      var init := us[..n - 1];
      AssignedSpec(init, section, key);
      if Lists(us[n - 1], section, key) {
        assert LastUpdate(us, section, key, n - 1);
      } else {
        LastUpdateLift(us, section, key);
        if Assigned(init, section, key).Some? {
          var i :| LastUpdate(init, section, key, i) && LastValue(init[i].entries, key) == Assigned(init, section, key);
          assert LastUpdate(us, section, key, i) && us[i] == init[i];
        }
      }
    }
  }

  /** When the last update does not list the key, dropping it changes
      neither whether the key is listed nor which update lists it last. */
  lemma LastUpdateLift(us: seq<SectionUpdate>, section: string, key: string)
    requires |us| > 0 && !Lists(us[|us| - 1], section, key)
    ensures var init := us[..|us| - 1];
      && (forall i :: 0 <= i < |init| ==> init[i] == us[i])
      && ((exists i :: 0 <= i < |us| && Lists(us[i], section, key)) <==>
          (exists i :: 0 <= i < |init| && Lists(init[i], section, key)))
      && (forall i :: LastUpdate(init, section, key, i) ==> LastUpdate(us, section, key, i))
  {
  }

  /** Some update of the table is for `section`. */
  predicate Names(us: seq<SectionUpdate>, section: string) {
    exists i :: 0 <= i < |us| && us[i].name == section
  }

  // ---------------------------------------------------------------------------
  // The upsert

  /** `config.set(section, key, value)` for each entry, in order. */
  function SetAll(sec: Section, entries: seq<Entry>): (r: Section)
    ensures forall k :: k in r <==> k in sec || LastValue(entries, k).Some?
    ensures forall k :: k in r ==> r[k] == if LastValue(entries, k).Some? then LastValue(entries, k).value else sec[k]
    decreases |entries|
  {
    if |entries| == 0 then sec
    else
      var n := |entries|;
      var init := entries[..n - 1];
      assert forall j :: 0 <= j < n - 1 ==> init[j] == entries[j];
      SetAll(sec, init)[entries[n - 1].key := entries[n - 1].value]
  }

  /** A section of the store, empty when the store has none of that name. */
  function SectionOf(store: Store, name: string): Section {
    if name in store then store[name] else map[]
  }

  /** One section of the table: `add_section` unless it exists, then its entries. */
  function Upsert(store: Store, u: SectionUpdate): (r: Store)
    ensures r.Keys == store.Keys + {u.name}
    ensures forall s :: s in store && s != u.name ==> r[s] == store[s]
  {
    store[u.name := SetAll(SectionOf(store, u.name), u.entries)]
  }

  /** The whole table, section by section in order. */
  function Merge(store: Store, us: seq<SectionUpdate>): (r: Store)
    ensures forall s :: s in r <==> s in store || Names(us, s)
    decreases |us|
  {
    if |us| == 0 then store
    else
      var n := |us|;
      var init := us[..n - 1];
      assert forall s :: Names(us, s) <==> Names(init, s) || us[n - 1].name == s;
      Upsert(Merge(store, init), us[n - 1])
  }

  // ---------------------------------------------------------------------------
  // What the upsert leaves behind

  lemma UpsertGet(store: Store, u: SectionUpdate, s: string, k: string)
    ensures Get(Upsert(store, u), s, k) ==
      if s == u.name && LastValue(u.entries, k).Some? then LastValue(u.entries, k) else Get(store, s, k)
  {
  }

  /** After the merge, a key holds the value the table assigns it last, and
      every key the table does not assign keeps its value (or stays absent). */
  lemma {:induction false} MergeGet(store: Store, us: seq<SectionUpdate>, s: string, k: string)
    ensures Get(Merge(store, us), s, k) == if Assigned(us, s, k).Some? then Assigned(us, s, k) else Get(store, s, k)
    decreases |us|
  {
    if |us| > 0 {
      var n := |us|;
      MergeGet(store, us[..n - 1], s, k);
      UpsertGet(Merge(store, us[..n - 1]), us[n - 1], s, k);
    }
  }

  /** Sections the table does not name are left exactly as they were. */
  lemma {:induction false} MergeKeepsOtherSections(store: Store, us: seq<SectionUpdate>, s: string)
    requires s in store && !Names(us, s)
    ensures s in Merge(store, us) && Merge(store, us)[s] == store[s]
    decreases |us|
  {
    if |us| > 0 {
      var n := |us|;
      assert !Names(us[..n - 1], s) by {
        assert forall i :: 0 <= i < n - 1 ==> us[..n - 1][i] == us[i];
      }
      MergeKeepsOtherSections(store, us[..n - 1], s);
      assert us[n - 1].name != s;
    }
  }

  /** Two stores with the same sections and the same value at every key are equal. */
  lemma StoreExtensionality(a: Store, b: Store)
    requires a.Keys == b.Keys
    requires forall s, k :: Get(a, s, k) == Get(b, s, k)
    ensures a == b
  {
    forall s | s in a
      ensures a[s] == b[s]
    {
      forall k
        ensures k in a[s] <==> k in b[s]
        ensures k in a[s] ==> a[s][k] == b[s][k]
      {
        assert Get(a, s, k) == Get(b, s, k);
      }
    }
  }

  /** Applying the table to its own result changes nothing. */
  lemma MergeIdempotent(store: Store, us: seq<SectionUpdate>)
    ensures Merge(Merge(store, us), us) == Merge(store, us)
  {
    var once := Merge(store, us);
    var twice := Merge(once, us);
    forall s, k
      ensures Get(twice, s, k) == Get(once, s, k)
    {
      MergeGet(store, us, s, k);
      MergeGet(once, us, s, k);
    }
    StoreExtensionality(twice, once);
  }

  // ---------------------------------------------------------------------------
  // Tables without repetitions

  /** No section is listed twice and no key twice within a section, as in a
      table written as a dictionary of dictionaries. */
  predicate Distinct(us: seq<SectionUpdate>) {
    && (forall i, l :: 0 <= i < l < |us| ==> us[i].name != us[l].name)
    && (forall i, j, l :: 0 <= i < |us| && 0 <= j < l < |us[i].entries| ==>
          us[i].entries[j].key != us[i].entries[l].key)
  }

  /** In a table without repetitions, every listed key is assigned its listed value. */
  lemma DistinctAssigned(us: seq<SectionUpdate>, i: nat, j: nat)
    requires Distinct(us)
    requires i < |us| && j < |us[i].entries|
    ensures Assigned(us, us[i].name, us[i].entries[j].key) == Some(us[i].entries[j].value)
  {
    var s := us[i].name;
    var e := us[i].entries[j];
    assert LastValue(us[i].entries, e.key).Some?;
    AssignedSpec(us, s, e.key);
    var v := Assigned(us, s, e.key);
    var i' :| LastUpdate(us, s, e.key, i') && LastValue(us[i'].entries, e.key) == v;
    assert i' == i;
    var w := LastValue(us[i].entries, e.key);
    var j' :| LastEntry(us[i].entries, e.key, j') && us[i].entries[j'].value == w.value;
    assert j' == j;
  }

  /** In a table without repetitions, every listed entry holds after the merge. */
  lemma MergeEntry(store: Store, us: seq<SectionUpdate>, i: nat, j: nat)
    requires Distinct(us)
    requires i < |us| && j < |us[i].entries|
    ensures Get(Merge(store, us), us[i].name, us[i].entries[j].key) == Some(us[i].entries[j].value)
  {
    DistinctAssigned(us, i, j);
    MergeGet(store, us, us[i].name, us[i].entries[j].key);
  }

  /** The merge of a table without repetitions: its sections exist, each of
      its entries holds, and nothing it does not list changes. */
  lemma MergeDistinct(store: Store, us: seq<SectionUpdate>)
    requires Distinct(us)
    ensures forall i :: 0 <= i < |us| ==> us[i].name in Merge(store, us)
    ensures forall i, j :: 0 <= i < |us| && 0 <= j < |us[i].entries| ==>
      Get(Merge(store, us), us[i].name, us[i].entries[j].key) == Some(us[i].entries[j].value)
    ensures forall s, k :: (forall i, j :: 0 <= i < |us| && 0 <= j < |us[i].entries| ==>
        !(us[i].name == s && us[i].entries[j].key == k)) ==>
      Get(Merge(store, us), s, k) == Get(store, s, k)
  {
    forall i | 0 <= i < |us|
      ensures us[i].name in Merge(store, us)
    {
      assert Names(us, us[i].name);
    }
    forall i, j | 0 <= i < |us| && 0 <= j < |us[i].entries|
      ensures Get(Merge(store, us), us[i].name, us[i].entries[j].key) == Some(us[i].entries[j].value)
    {
      MergeEntry(store, us, i, j);
    }
    forall s, k | (forall i, j :: 0 <= i < |us| && 0 <= j < |us[i].entries| ==>
        !(us[i].name == s && us[i].entries[j].key == k))
      ensures Get(Merge(store, us), s, k) == Get(store, s, k)
    {
      MergeGet(store, us, s, k);
      AssignedSpec(us, s, k);
      forall i | 0 <= i < |us|
        ensures !Lists(us[i], s, k)
      {
        if us[i].name == s {
          assert forall j :: 0 <= j < |us[i].entries| ==> us[i].entries[j].key != k;
        }
      }
    }
  }
}
