/**
  How insert, search, remove and clear interact, as the code behaves: fresh
  keys land on their home slot and share its value, a duplicate insert puts
  the key into a second slot, tombstones are never revived, and only clearing
  resets slots.
 */
module TableProperties {
  import opened KeyFormat
  import opened Hashing
  import opened HashTable
  import opened ProbePaths

  /* ---------------------------------------------------------- invariants */

  lemma AppendFresh(s: seq<string>, key: string)
    requires NoDuplicates(s) && key !in s
    ensures NoDuplicates(s + [key])
  {
    var s' := s + [key];
    forall i, j | 0 <= i < j < |s'|
      ensures s'[i] != s'[j]
    {
      if j == |s| {
        assert s'[i] == s[i];
      }
    }
  }

  /** Insert keeps every key list free of duplicates, every stored key in the
      key format, and every node that is not a tombstone non-empty. */
  lemma InsertPreservesWellFormed(t: Table, key: string, value: string)
    requires WellFormed(t)
    ensures WellFormed(Insert(t, key, value).table)
  {
    var r := Insert(t, key, value);
    if r.outcome.Placed? {
      var j := r.outcome.slot;
      if t[j].Some? {
        AppendFresh(t[j].value.keys, key);
      }
      assert WellFormedNode(r.table[j].value);
    }
  }

  /** Remove keeps the same invariant: a node whose last key goes becomes a
      tombstone, so no live node is ever left empty. */
  lemma RemovePreservesWellFormed(t: Table, key: string)
    requires WellFormed(t)
    ensures WellFormed(Remove(t, key).table)
  {
    var r := Remove(t, key);
    if r.outcome.Removed? {
      var j := r.outcome.slot;
      var n, n' := t[j].value, r.table[j].value;
      assert WellFormedNode(n);
      forall k | k in n'.keys
        ensures ValidateKeyFormat(k)
      {
        assert k != key;
      }
      assert WellFormedNode(n');
    }
  }

  lemma EmptyTableWellFormed()
    ensures WellFormed(EmptyTable())
  {
  }

  /** Any run of console commands from a well-formed table keeps it well formed. */
  lemma {:induction false} RunPreservesWellFormed(t: Table, cs: seq<Command>)
    requires WellFormed(t)
    ensures WellFormed(Run(t, cs))
    decreases |cs|
  {
    if cs != [] {
      match cs[0] {
        case InsertCmd(k, v) => InsertPreservesWellFormed(t, k, v);
        case RemoveCmd(k) => RemovePreservesWellFormed(t, k);
        case ClearCmd => EmptyTableWellFormed();
      }
      RunPreservesWellFormed(Apply(t, cs[0]), cs[1..]);
    }
  }

  /* ------------------------------------------------------------ tombstones */

  /** Nothing is undone between `t` and `t'`: an occupied slot stays occupied
      and a tombstone stays a tombstone. */
  ghost predicate Evolves(t: Table, t': Table) {
    forall x :: 0 <= x < TABLE_SIZE ==>
      (t[x].Some? ==> t'[x].Some?) && (Tombstone(t[x]) ==> Tombstone(t'[x]))
  }

  predicate ClearFree(cs: seq<Command>) {
    forall i :: 0 <= i < |cs| ==> !cs[i].ClearCmd?
  }

  lemma PutEvolves(t: Table, t': Table, key: string, value: string, j: nat)
    requires PutAt(t, t', key, value, j)
    ensures Evolves(t, t')
  {
  }

  lemma TakeEvolves(t: Table, t': Table, key: string, j: nat)
    requires TakenFrom(t, t', key, j)
    ensures Evolves(t, t')
  {
  }

  /** Insert and remove never null a slot and never reset `isDeleted`. */
  lemma ApplyEvolves(t: Table, c: Command)
    requires !c.ClearCmd?
    ensures Evolves(t, Apply(t, c))
  {
    match c {
      case InsertCmd(k, v) =>
        var r := Insert(t, k, v);
        if r.outcome.Placed? {
          PutEvolves(t, r.table, k, v, r.outcome.slot);
        }
      case RemoveCmd(k) =>
        var r := Remove(t, k);
        if r.outcome.Removed? {
          TakeEvolves(t, r.table, k, r.outcome.slot);
        }
    }
  }

  /** Without a clear, no slot is ever nulled and no tombstone ever revived. */
  lemma {:induction false} RunWithoutClearEvolves(t: Table, cs: seq<Command>)
    requires ClearFree(cs)
    ensures Evolves(t, Run(t, cs))
    decreases |cs|
  {
    if cs != [] {
      ApplyEvolves(t, cs[0]);
      assert ClearFree(cs[1..]) by {
        forall i | 0 <= i < |cs[1..]|
          ensures !cs[1..][i].ClearCmd?
        {
          assert cs[1..][i] == cs[i + 1];
        }
      }
      RunWithoutClearEvolves(Apply(t, cs[0]), cs[1..]);
    }
  }

  /** A tombstone stays invisible until the table is cleared: whatever keys are
      later appended to it, no search ever reads its value. */
  lemma TombstoneNeverFound(t: Table, cs: seq<Command>, j: nat, key: string)
    requires ClearFree(cs)
    requires j < TABLE_SIZE && Tombstone(t[j])
    ensures Tombstone(Run(t, cs)[j])
    ensures Find(Run(t, cs), key) != Some(j)
  {
    RunWithoutClearEvolves(t, cs);
  }

  /** `clearTable` nulls every slot, after which every search answers none and
      the table is as the constructor built it. */
  lemma ClearThenSearch(t: Table, cs: seq<Command>, key: string)
    ensures Run(t, cs + [ClearCmd]) == EmptyTable()
    ensures Search(Run(t, cs + [ClearCmd]), key) == None
    decreases |cs|
  {
    if cs != [] {
      assert (cs + [ClearCmd])[1..] == cs[1..] + [ClearCmd];
      ClearThenSearch(Apply(t, cs[0]), cs[1..], key);
    } else {
      assert Run(EmptyTable(), []) == EmptyTable();
    }
  }

  /* --------------------------------------------------- insert then search */

  /** A key whose home slot is null, or a live node without it, is found right
      after insert, with the value the slot now holds: the inserted value in a
      null slot, the node's pre-existing value otherwise. */
  lemma InsertThenSearch(t: Table, key: string, value: string)
    requires ValidateKeyFormat(key)
    requires t[Hash1(key)].None? || (Live(t[Hash1(key)]) && key !in t[Hash1(key)].value.keys)
    ensures Insert(t, key, value).outcome == Placed(Hash1(key))
    ensures Search(Insert(t, key, value).table, key) ==
      Some(if t[Hash1(key)].None? then value else t[Hash1(key)].value.value)
  {
  }

  /** Scenario: two distinct keys with the same home slot share one node and
      the value of the first, in landing order. */
  lemma CollidingKeysShareValue(k1: string, v1: string, k2: string, v2: string)
    requires ValidateKeyFormat(k1) && ValidateKeyFormat(k2)
    requires k1 != k2 && Hash1(k1) == Hash1(k2)
    ensures var t := Insert(Insert(EmptyTable(), k1, v1).table, k2, v2).table;
      && t[Hash1(k1)] == Some(Node([k1, k2], v1, false))
      && Search(t, k1) == Some(v1)
      && Search(t, k2) == Some(v1)
  {
    var h := Hash1(k1);
    var r1 := Insert(EmptyTable(), k1, v1);
    assert r1.outcome == Placed(h);
    var t1 := r1.table;
    assert t1[h] == Some(Node([k1], v1, false));
    var r2 := Insert(t1, k2, v2);
    assert Admits(t1[Hash1(k2)], k2);
    assert r2.outcome == Placed(h);
    var t2 := r2.table;
    assert [k1] + [k2] == [k1, k2];
    assert t2[h] == Some(Node([k1, k2], v1, false));
    assert Hit(t2[h], k1) && Hit(t2[h], k2);
  }

  /** A duplicate insert is not a no-op: past the home slot already holding
      the key, the key goes into the next probe slot, so it then occupies two
      slots, while search still answers from the first one. */
  lemma DuplicateInsert(t: Table, key: string, value: string)
    requires ValidateKeyFormat(key)
    requires Holds(t[Hash1(key)], key)
    requires Admits(t[Probe(key, 1)], key)
    ensures Probe(key, 1) != Hash1(key)
    ensures Insert(t, key, value).outcome == Placed(Probe(key, 1))
    ensures Holds(Insert(t, key, value).table[Hash1(key)], key)
    ensures Holds(Insert(t, key, value).table[Probe(key, 1)], key)
    ensures Live(t[Hash1(key)]) ==>
      Search(Insert(t, key, value).table, key) == Search(t, key) == Some(t[Hash1(key)].value.value)
  {
    var h1, h2 := Hash1(key), Hash2(key);
    assert h2 >= 1;
    ProbeZero(key);
    assert Probe(key, 1) == (h1 + h2) % TABLE_SIZE;
    StepMoves(h1, h2);
    assert FirstAdmitting(t, key, 1);
    InsertAtFirstAdmitting(t, key, value, 1);
  }

  /** Appending a key to a tombstone on its home slot changes nothing search
      can see: the key stays unfindable there. */
  lemma InsertIntoTombstoneIsInvisible(t: Table, key: string, value: string)
    requires ValidateKeyFormat(key)
    requires Tombstone(t[Hash1(key)]) && key !in t[Hash1(key)].value.keys
    ensures Insert(t, key, value).outcome == Placed(Hash1(key))
    ensures Tombstone(Insert(t, key, value).table[Hash1(key)])
    ensures Holds(Insert(t, key, value).table[Hash1(key)], key)
    ensures Search(Insert(t, key, value).table, key) == Search(t, key)
  {
    var t' := Insert(t, key, value).table;
    SameStopsSameFind(t, t', key, Hash1(key), Hash2(key), 0);
  }

  /* ------------------------------------------------- stability of search */

  /** Search from `index` only looks at emptiness and hits, so two tables that
      agree on both give the same answer. */
  lemma {:induction false} SameStopsSameFind(t: Table, t': Table, key: string, index: nat, step: nat, i: nat)
    requires index < TABLE_SIZE && i <= TABLE_SIZE
    requires forall x :: 0 <= x < TABLE_SIZE ==> (t[x].None? <==> t'[x].None?) && (Hit(t[x], key) <==> Hit(t'[x], key))
    ensures FindFrom(t', key, index, step, i) == FindFrom(t, key, index, step, i)
    decreases TABLE_SIZE - i
  {
    if i < TABLE_SIZE && t[index].Some? && !Hit(t[index], key) {
      SameStopsSameFind(t, t', key, (index + step) % TABLE_SIZE, step, i + 1);
    }
  }

  /** `t'` keeps what search for `key` sees in `t`: occupied slots stay
      occupied, hits stay hits (with their value) and nothing new becomes a hit. */
  ghost predicate KeepsMatches(t: Table, t': Table, key: string) {
    forall x :: 0 <= x < TABLE_SIZE ==>
      && (t[x].Some? ==> t'[x].Some?)
      && (Hit(t[x], key) <==> Hit(t'[x], key))
      && (Hit(t[x], key) ==> t'[x].value.value == t[x].value.value)
  }

  lemma {:induction false} KeptMatchesKeepFind(t: Table, t': Table, key: string, index: nat, step: nat, i: nat)
    requires index < TABLE_SIZE && i <= TABLE_SIZE
    requires KeepsMatches(t, t', key)
    requires FindFrom(t, key, index, step, i).Some?
    ensures FindFrom(t', key, index, step, i) == FindFrom(t, key, index, step, i)
    decreases TABLE_SIZE - i
  {
    if !Hit(t[index], key) {
      KeptMatchesKeepFind(t, t', key, (index + step) % TABLE_SIZE, step, i + 1);
    }
  }

  lemma KeptMatchesKeepSearch(t: Table, t': Table, key: string)
    requires KeepsMatches(t, t', key)
    requires Search(t, key).Some?
    ensures Search(t', key) == Search(t, key)
  {
    KeptMatchesKeepFind(t, t', key, Hash1(key), Hash2(key), 0);
  }

  /** Putting another key into a slot keeps what search for `key` sees. */
  lemma PutKeepsMatches(t: Table, t': Table, other: string, value: string, j: nat, key: string)
    requires key != other
    requires PutAt(t, t', other, value, j)
    ensures KeepsMatches(t, t', key)
  {
    assert key !in [other];
    if t[j].Some? {
      assert key in t[j].value.keys + [other] <==> key in t[j].value.keys;
    }
  }

  /** Taking another key out of a live node keeps what search for `key` sees. */
  lemma TakeKeepsMatches(t: Table, t': Table, other: string, j: nat, key: string)
    requires key != other
    requires TakenFrom(t, t', other, j)
    ensures KeepsMatches(t, t', key)
  {
    assert key in t'[j].value.keys <==> key in t[j].value.keys;
  }

  /** A found key stays found, with the same value, when another key is
      inserted: the other key only fills null slots or is appended to nodes. */
  lemma SearchUnaffectedByOtherInsert(t: Table, key: string, other: string, value: string)
    requires key != other
    requires Search(t, key).Some?
    ensures Search(Insert(t, other, value).table, key) == Search(t, key)
  {
    var r := Insert(t, other, value);
    if r.outcome.Placed? {
      PutKeepsMatches(t, r.table, other, value, r.outcome.slot, key);
      KeptMatchesKeepSearch(t, r.table, key);
    }
  }

  /** A found key stays found, with the same value, when another key is
      removed: a node it shares never empties, so never becomes a tombstone. */
  lemma SearchUnaffectedByOtherRemove(t: Table, key: string, other: string)
    requires key != other
    requires Search(t, key).Some?
    ensures Search(Remove(t, other).table, key) == Search(t, key)
  {
    var r := Remove(t, other);
    if r.outcome.Removed? {
      TakeKeepsMatches(t, r.table, other, r.outcome.slot, key);
      KeptMatchesKeepSearch(t, r.table, key);
    }
  }

  /* ---------------------------------------------------- remove then search */

  /** When at most one live node (slot `j`) holds the key, remove makes the
      key unfindable. */
  lemma RemoveThenSearch(t: Table, key: string, j: nat)
    requires WellFormed(t)
    requires forall x :: 0 <= x < TABLE_SIZE && x != j ==> !Hit(t[x], key)
    ensures Search(Remove(t, key).table, key) == None
  {
    var r := Remove(t, key);
    if ValidateKeyFormat(key) {
      if r.outcome.Removed? {
        assert r.outcome.slot == j;
        assert WellFormedNode(t[j].value);
        assert !Hit(r.table[j], key);
        assert forall x :: 0 <= x < TABLE_SIZE ==> !Hit(r.table[x], key);
      } else {
        assert r.table == t && Find(t, key).None?;
      }
    }
  }

  lemma InsertIntoEmpty(key: string, x: string)
    requires ValidateKeyFormat(key)
    ensures Insert(EmptyTable(), key, x).outcome == Placed(Hash1(key))
    ensures Insert(EmptyTable(), key, x).table[Hash1(key)] == Some(Node([key], x, false))
    ensures forall i :: 0 <= i < TABLE_SIZE && i != Hash1(key) ==> Insert(EmptyTable(), key, x).table[i].None?
  {
  }

  lemma ProbeOneMoves(key: string)
    requires ValidateKeyFormat(key)
    ensures Probe(key, 1) != Hash1(key)
  {
    assert Hash2(key) >= 1;
    ProbeZero(key);
    StepMoves(Hash1(key), Hash2(key));
  }

  /** The table after inserting `key` twice into a fresh table: the first
      value at the home slot, the second at the next probe slot. */
  lemma TwiceInserted(key: string, x: string, y: string)
    requires ValidateKeyFormat(key)
    ensures var t2 := Insert(Insert(EmptyTable(), key, x).table, key, y).table;
      && t2[Hash1(key)] == Some(Node([key], x, false))
      && t2[Probe(key, 1)] == Some(Node([key], y, false))
  {
    var h1, p1 := Hash1(key), Probe(key, 1);
    var t1 := Insert(EmptyTable(), key, x).table;
    InsertIntoEmpty(key, x);
    ProbeOneMoves(key);
    ProbeZero(key);
    assert FirstAdmitting(t1, key, 1);
    InsertAtFirstAdmitting(t1, key, y, 1);
  }

  /** Removing a key that is alone in its home node turns that node into a
      tombstone and leaves every other slot alone. */
  lemma RemoveSoleKeyAtHome(t: Table, key: string, x: string)
    requires ValidateKeyFormat(key)
    requires t[Hash1(key)] == Some(Node([key], x, false))
    ensures Search(t, key) == Some(x)
    ensures Remove(t, key).outcome == Removed(Hash1(key))
    ensures Remove(t, key).table[Hash1(key)] == Some(Node([], x, true))
    ensures forall i :: 0 <= i < TABLE_SIZE && i != Hash1(key) ==> Remove(t, key).table[i] == t[i]
  {
  }

  /** A table holding `key` alone at its home slot and alone at the next probe
      slot: search answers from the home slot, remove empties that slot into a
      tombstone, and search then answers from the second slot. */
  lemma RemoveFirstOfTwo(t: Table, key: string, x: string, y: string)
    requires ValidateKeyFormat(key)
    requires t[Hash1(key)] == Some(Node([key], x, false))
    requires t[Probe(key, 1)] == Some(Node([key], y, false))
    ensures Search(t, key) == Some(x)
    ensures Remove(t, key).outcome == Removed(Hash1(key))
    ensures Search(Remove(t, key).table, key) == Some(y)
  {
    ProbeOneMoves(key);
    RemoveSoleKeyAtHome(t, key, x);
    ProbeZero(key);
    var t' := Remove(t, key).table;
    assert FirstSearchStop(t', key, 1);
    SearchAtFirstStop(t', key, 1);
  }

  /** Scenario: the single-occurrence condition above matters. On a fresh table,
      insert `key` twice and remove it once: search still finds it, with the
      second insert's value. */
  lemma DuplicateSurvivesRemove(key: string, x: string, y: string)
    requires ValidateKeyFormat(key)
    ensures var t1 := Insert(EmptyTable(), key, x).table;
      var t2 := Insert(t1, key, y).table;
      && Search(t2, key) == Some(x)
      && Remove(t2, key).outcome == Removed(Hash1(key))
      && Search(Remove(t2, key).table, key) == Some(y)
  {
    TwiceInserted(key, x, y);
    var t2 := Insert(Insert(EmptyTable(), key, x).table, key, y).table;
    RemoveFirstOfTwo(t2, key, x, y);
  }
}
