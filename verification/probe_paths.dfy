/**
  The probe loops of insert, search and remove, characterised by the probe
  path `(hash1(key) + j * hash2(key)) % TABLE_SIZE`, j = 0 .. TABLE_SIZE - 1:
  each loop acts at the FIRST slot on the path where it stops, and gives up
  after TABLE_SIZE probes.
 */
module ProbePaths {
  import opened KeyFormat
  import opened Hashing
  import opened HashTable

  /** The j-th slot on the probe path of `key`. */
  function Probe(key: string, j: nat): (idx: nat)
    ensures idx < TABLE_SIZE
  {
    ProbeIndex(Hash1(key), Hash2(key), j)
  }

  /** Probe j is the first on the path where search and remove stop. */
  ghost predicate FirstSearchStop(t: Table, key: string, j: nat) {
    && j < TABLE_SIZE
    && SearchStops(t[Probe(key, j)], key)
    && forall j' :: 0 <= j' < j ==> !SearchStops(t[Probe(key, j')], key)
  }

  /** Probe j is the first on the path where insert stops. */
  ghost predicate FirstAdmitting(t: Table, key: string, j: nat) {
    && j < TABLE_SIZE
    && Admits(t[Probe(key, j)], key)
    && forall j' :: 0 <= j' < j ==> !Admits(t[Probe(key, j')], key)
  }

  /* --------------------------------------------------------------- search */

  lemma {:induction false} FindFromFirstStop(t: Table, key: string, start: nat, step: nat, i: nat, m: nat)
    requires i <= m < TABLE_SIZE
    requires forall j :: i <= j < m ==> !SearchStops(t[ProbeIndex(start, step, j)], key)
    requires SearchStops(t[ProbeIndex(start, step, m)], key)
    ensures FindFrom(t, key, ProbeIndex(start, step, i), step, i) ==
      if Hit(t[ProbeIndex(start, step, m)], key) then Some(ProbeIndex(start, step, m)) else None
    decreases m - i
  {
    if i < m {
      FindFromFirstStop(t, key, start, step, i + 1, m);
    }
  }

  lemma {:induction false} FindFromNoStop(t: Table, key: string, start: nat, step: nat, i: nat)
    requires i <= TABLE_SIZE
    requires forall j :: i <= j < TABLE_SIZE ==> !SearchStops(t[ProbeIndex(start, step, j)], key)
    ensures FindFrom(t, key, ProbeIndex(start, step, i), step, i) == None
    decreases TABLE_SIZE - i
  {
    if i < TABLE_SIZE {
      FindFromNoStop(t, key, start, step, i + 1);
    }
  }

  lemma ProbeZero(key: string)
    ensures Probe(key, 0) == Hash1(key)
  {
  }

  /** Search walks the probe path, skipping tombstones and nodes without the
      key: at the first null slot it answers none, and at the first live node
      holding the key it answers that node's value. */
  lemma SearchAtFirstStop(t: Table, key: string, j: nat)
    requires ValidateKeyFormat(key)
    requires FirstSearchStop(t, key, j)
    ensures Find(t, key) == (if Hit(t[Probe(key, j)], key) then Some(Probe(key, j)) else None)
    ensures Search(t, key) == (if Hit(t[Probe(key, j)], key) then Some(t[Probe(key, j)].value.value) else None)
  {
    ProbeZero(key);
    var h1, h2 := Hash1(key), Hash2(key);
    forall j' | 0 <= j' < j
      ensures !SearchStops(t[ProbeIndex(h1, h2, j')], key)
    {
      assert Probe(key, j') == ProbeIndex(h1, h2, j');
    }
    FindFromFirstStop(t, key, h1, h2, 0, j);
  }

  /** After TABLE_SIZE probes that meet neither a null slot nor a live node
      holding the key, search answers none. */
  lemma SearchExhausted(t: Table, key: string)
    requires ValidateKeyFormat(key)
    requires forall j :: 0 <= j < TABLE_SIZE ==> !SearchStops(t[Probe(key, j)], key)
    ensures Find(t, key) == None
    ensures Search(t, key) == None
  {
    ProbeZero(key);
    var h1, h2 := Hash1(key), Hash2(key);
    forall j | 0 <= j < TABLE_SIZE
      ensures !SearchStops(t[ProbeIndex(h1, h2, j)], key)
    {
      assert Probe(key, j) == ProbeIndex(h1, h2, j);
    }
    FindFromNoStop(t, key, h1, h2, 0);
  }

  /* --------------------------------------------------------------- insert */

  lemma {:induction false} InsertFromFirstAdmitting(t: Table, key: string, value: string, start: nat, step: nat, i: nat, m: nat)
    requires i <= m < TABLE_SIZE
    requires forall j :: i <= j < m ==> !Admits(t[ProbeIndex(start, step, j)], key)
    requires Admits(t[ProbeIndex(start, step, m)], key)
    ensures InsertFrom(t, key, value, ProbeIndex(start, step, i), step, i).outcome == Placed(ProbeIndex(start, step, m))
    decreases m - i
  {
    if i < m {
      InsertFromFirstAdmitting(t, key, value, start, step, i + 1, m);
    }
  }

  lemma {:induction false} InsertFromNoneAdmitting(t: Table, key: string, value: string, start: nat, step: nat, i: nat)
    requires i <= TABLE_SIZE
    requires forall j :: i <= j < TABLE_SIZE ==> !Admits(t[ProbeIndex(start, step, j)], key)
    ensures InsertFrom(t, key, value, ProbeIndex(start, step, i), step, i).outcome == TableFull
    decreases TABLE_SIZE - i
  {
    if i < TABLE_SIZE {
      InsertFromNoneAdmitting(t, key, value, start, step, i + 1);
    }
  }

  /** Insert lands at the first slot on the probe path that is null or whose
      node (tombstone or not) lacks the key. */
  lemma InsertAtFirstAdmitting(t: Table, key: string, value: string, j: nat)
    requires ValidateKeyFormat(key)
    requires FirstAdmitting(t, key, j)
    ensures Insert(t, key, value).outcome == Placed(Probe(key, j))
  {
    ProbeZero(key);
    var h1, h2 := Hash1(key), Hash2(key);
    forall j' | 0 <= j' < j
      ensures !Admits(t[ProbeIndex(h1, h2, j')], key)
    {
      assert Probe(key, j') == ProbeIndex(h1, h2, j');
    }
    InsertFromFirstAdmitting(t, key, value, h1, h2, 0, j);
  }

  /** When all TABLE_SIZE probes meet nodes already holding the key, insert
      reports a full table and changes nothing. */
  lemma InsertExhausted(t: Table, key: string, value: string)
    requires ValidateKeyFormat(key)
    requires forall j :: 0 <= j < TABLE_SIZE ==> !Admits(t[Probe(key, j)], key)
    ensures Insert(t, key, value) == InsertResult(t, TableFull)
  {
    ProbeZero(key);
    var h1, h2 := Hash1(key), Hash2(key);
    forall j | 0 <= j < TABLE_SIZE
      ensures !Admits(t[ProbeIndex(h1, h2, j)], key)
    {
      assert Probe(key, j) == ProbeIndex(h1, h2, j);
    }
    InsertFromNoneAdmitting(t, key, value, h1, h2, 0);
  }

  /* --------------------------------------------------------------- remove */

  /** Remove walks the same path as search: reaching a null slot first, it
      changes nothing; reaching first a live node holding the key, it takes the
      key out of that node alone, which becomes a tombstone iff its list empties. */
  lemma RemoveAtFirstStop(t: Table, key: string, j: nat)
    requires ValidateKeyFormat(key)
    requires FirstSearchStop(t, key, j)
    ensures t[Probe(key, j)].None? ==> Remove(t, key) == RemoveResult(t, NotFound)
    ensures Hit(t[Probe(key, j)], key) ==>
      Remove(t, key).outcome == Removed(Probe(key, j)) && TakenFrom(t, Remove(t, key).table, key, Probe(key, j))
  {
    SearchAtFirstStop(t, key, j);
  }

  /** After TABLE_SIZE probes without a stop, remove changes nothing. */
  lemma RemoveExhausted(t: Table, key: string)
    requires ValidateKeyFormat(key)
    requires forall j :: 0 <= j < TABLE_SIZE ==> !SearchStops(t[Probe(key, j)], key)
    ensures Remove(t, key) == RemoveResult(t, NotFound)
  {
    SearchExhausted(t, key);
  }
}
