/**
  The table of `HashTabel`: TABLE_SIZE slots, each null or a node holding a
  key list, a value and an `isDeleted` flag. Every slot gets its own node, so
  the table is modelled as a value: a sequence of optional nodes, and every
  operation returns the new table.
 */
module HashTable {
  import opened KeyFormat
  import opened Hashing

  datatype Option<T> = None | Some(value: T)

  /** `HashNode`: the keys sharing this slot in landing order, the value the
      slot was created with, and the tombstone flag. */
  datatype Node = Node(keys: seq<string>, value: string, isDeleted: bool)

  type Table = t: seq<Option<Node>> | |t| == TABLE_SIZE witness seq(TABLE_SIZE, _ => None)

  /** The slot is a node whose key list contains `key` (deleted or not). */
  predicate Holds(slot: Option<Node>, key: string) {
    slot.Some? && key in slot.value.keys
  }

  /** The slot is a node that is not a tombstone. */
  predicate Live(slot: Option<Node>) {
    slot.Some? && !slot.value.isDeleted
  }

  predicate Tombstone(slot: Option<Node>) {
    slot.Some? && slot.value.isDeleted
  }

  /** What search and remove look for: a live node whose keys contain `key`. */
  predicate Hit(slot: Option<Node>, key: string) {
    Live(slot) && key in slot.value.keys
  }

  /** Where insert stops: a null slot, or any node (tombstones included) whose
      keys lack `key`. */
  predicate Admits(slot: Option<Node>, key: string) {
    slot.None? || key !in slot.value.keys
  }

  /** Where search and remove stop probing. */
  predicate SearchStops(slot: Option<Node>, key: string) {
    slot.None? || Hit(slot, key)
  }

  predicate NoDuplicates(s: seq<string>) {
    forall i, j :: 0 <= i < j < |s| ==> s[i] != s[j]
  }

  /** Node invariant kept by insert and remove: distinct, well-formed keys, and
      a node that is not a tombstone holds at least one key. */
  predicate WellFormedNode(n: Node) {
    && NoDuplicates(n.keys)
    && (forall k :: k in n.keys ==> ValidateKeyFormat(k))
    && (!n.isDeleted ==> |n.keys| >= 1)
  }

  predicate WellFormed(t: Table) {
    forall i :: 0 <= i < |t| && t[i].Some? ==> WellFormedNode(t[i].value)
  }

  /** The table built by the constructor, and the table `clearTable` leaves:
      every slot null. */
  function EmptyTable(): (t: Table)
    ensures forall i :: 0 <= i < |t| ==> t[i].None?
  {
    seq(TABLE_SIZE, _ => None)
  }

  /* ---------------------------------------------------------------- insert */

  datatype InsertOutcome = InsertInvalidKey | TableFull | Placed(slot: nat)
  datatype InsertResult = InsertResult(table: Table, outcome: InsertOutcome)

  /** `t'` is `t` with `key` put into slot `j` the way insert does it: a new node
      `([key], value, false)` in a null slot, otherwise `key` appended with the
      node's value and tombstone flag untouched; every other slot as it was. */
  ghost predicate PutAt(t: Table, t': Table, key: string, value: string, j: nat) {
    && j < TABLE_SIZE
    && (forall x :: 0 <= x < TABLE_SIZE && x != j ==> t'[x] == t[x])
    && (t[j].None? ==> t'[j] == Some(Node([key], value, false)))
    && (t[j].Some? ==> t'[j] == Some(Node(t[j].value.keys + [key], t[j].value.value, t[j].value.isDeleted)))
  }

  /** The probe loop of `insert` from iteration `i` at slot `index`. */
  function InsertFrom(t: Table, key: string, value: string, index: nat, step: nat, i: nat): (r: InsertResult)
    requires index < TABLE_SIZE && i <= TABLE_SIZE
    ensures r.outcome != InsertInvalidKey
    ensures r.outcome == TableFull ==> r.table == t
    ensures r.outcome.Placed? ==> PutAt(t, r.table, key, value, r.outcome.slot) && Admits(t[r.outcome.slot], key)
    decreases TABLE_SIZE - i
  {
    if i == TABLE_SIZE then InsertResult(t, TableFull)
    else if t[index].None? then
      InsertResult(t[index := Some(Node([key], value, false))], Placed(index))
    else if key !in t[index].value.keys then
      var n := t[index].value;
      InsertResult(t[index := Some(n.(keys := n.keys + [key]))], Placed(index))
    else
      InsertFrom(t, key, value, (index + step) % TABLE_SIZE, step, i + 1)
  }

  /** `insert(key, value)`. A key whose home slot `hash1(key)` admits it lands
      there; the step `hash2(key)` is only taken past slots already holding it. */
  function Insert(t: Table, key: string, value: string): (r: InsertResult)
    ensures !ValidateKeyFormat(key) ==> r == InsertResult(t, InsertInvalidKey)
    ensures ValidateKeyFormat(key) ==> r.outcome != InsertInvalidKey
    ensures r.outcome.InsertInvalidKey? || r.outcome.TableFull? ==> r.table == t
    ensures r.outcome.Placed? ==> PutAt(t, r.table, key, value, r.outcome.slot) && Admits(t[r.outcome.slot], key)
    ensures ValidateKeyFormat(key) && Admits(t[Hash1(key)], key) ==> r.outcome == Placed(Hash1(key))
  {
    if !ValidateKeyFormat(key) then InsertResult(t, InsertInvalidKey)
    else InsertFrom(t, key, value, Hash1(key), Hash2(key), 0)
  }

  /* ---------------------------------------------------------------- search */

  /** The probe loop of `search` from iteration `i`: the slot whose value it
      returns, if any. */
  function FindFrom(t: Table, key: string, index: nat, step: nat, i: nat): (r: Option<nat>)
    requires index < TABLE_SIZE && i <= TABLE_SIZE
    ensures r.Some? ==> r.value < TABLE_SIZE && Hit(t[r.value], key)
    decreases TABLE_SIZE - i
  {
    if i == TABLE_SIZE then None
    else if t[index].None? then None
    else if Hit(t[index], key) then Some(index)
    else FindFrom(t, key, (index + step) % TABLE_SIZE, step, i + 1)
  }

  /** The slot `search(key)` reads its value from; none for a malformed key. */
  function Find(t: Table, key: string): (r: Option<nat>)
    ensures !ValidateKeyFormat(key) ==> r == None
    ensures r.Some? ==> r.value < TABLE_SIZE && Hit(t[r.value], key)
  {
    if !ValidateKeyFormat(key) then None
    else FindFrom(t, key, Hash1(key), Hash2(key), 0)
  }

  /** `search(key)`: the value of the first live node on the probe path holding
      `key`, or none (Java's `null`). */
  function Search(t: Table, key: string): (r: Option<string>)
    ensures !ValidateKeyFormat(key) ==> r == None
    ensures ValidateKeyFormat(key) && t[Hash1(key)].None? ==> r == None
    ensures ValidateKeyFormat(key) && Hit(t[Hash1(key)], key) ==> r == Some(t[Hash1(key)].value.value)
  {
    match Find(t, key)
    case None => None
    case Some(j) => Some(t[j].value.value)
  }

  /* ---------------------------------------------------------------- remove */

  /** Position of the first occurrence of `x`. */
  function IndexOf(s: seq<string>, x: string): (i: nat)
    requires x in s
    ensures i < |s| && s[i] == x && x !in s[..i]
  {
    if s[0] == x then 0 else 1 + IndexOf(s[1..], x)
  }

  /** `List.remove(Object)`: drop the first occurrence of `x`, if any. */
  function RemoveFirst(s: seq<string>, x: string): (r: seq<string>)
    ensures x !in s ==> r == s
    ensures x in s ==> |r| == |s| - 1
    ensures x in s ==> r == s[..IndexOf(s, x)] + s[IndexOf(s, x) + 1..]
    ensures forall y :: y != x ==> (y in r <==> y in s)
    ensures NoDuplicates(s) ==> x !in r && NoDuplicates(r)
  {
    if x in s then
      var i := IndexOf(s, x);
      assert s == s[..i] + [x] + s[i + 1..];
      s[..i] + s[i + 1..]
    else s
  }

  /** The unlinking step of `remove`: take `key` out of the node's list and
      mark the node deleted when the list is then empty. */
  function Unlink(n: Node, key: string): (n': Node)
    ensures n'.keys == RemoveFirst(n.keys, key) && n'.value == n.value
    ensures n'.isDeleted <==> n.isDeleted || n'.keys == []
  {
    var keys := RemoveFirst(n.keys, key);
    if keys == [] then n.(keys := keys, isDeleted := true) else n.(keys := keys)
  }

  datatype RemoveOutcome = RemoveInvalidKey | NotFound | Removed(slot: nat)
  datatype RemoveResult = RemoveResult(table: Table, outcome: RemoveOutcome)

  /** `t'` is `t` with `key` removed from the live node in slot `j` holding it:
      the value is kept, the node becomes a tombstone exactly when its key list
      empties, and every other slot is as it was. */
  ghost predicate TakenFrom(t: Table, t': Table, key: string, j: nat) {
    && j < TABLE_SIZE
    && Hit(t[j], key)
    && (forall x :: 0 <= x < TABLE_SIZE && x != j ==> t'[x] == t[x])
    && t'[j].Some?
    && t'[j].value.keys == RemoveFirst(t[j].value.keys, key)
    && t'[j].value.value == t[j].value.value
    && (t'[j].value.isDeleted <==> t'[j].value.keys == [])
  }

  /** `remove(key)`. Its probe loop has exactly the stop conditions of the
      probe loop of `search`, so it is modelled by the same
      `Find`: at the slot search would read, the key is taken out; when search
      would find nothing, nothing changes. */
  function Remove(t: Table, key: string): (r: RemoveResult)
    ensures !ValidateKeyFormat(key) ==> r == RemoveResult(t, RemoveInvalidKey)
    ensures ValidateKeyFormat(key) ==> r.outcome != RemoveInvalidKey
    ensures r.outcome.RemoveInvalidKey? || r.outcome.NotFound? ==> r.table == t
    ensures r.outcome.Removed? ==> TakenFrom(t, r.table, key, r.outcome.slot)
    ensures ValidateKeyFormat(key) && t[Hash1(key)].None? ==> r == RemoveResult(t, NotFound)
    ensures ValidateKeyFormat(key) && Hit(t[Hash1(key)], key) ==> r.outcome == Removed(Hash1(key))
  {
    if !ValidateKeyFormat(key) then RemoveResult(t, RemoveInvalidKey)
    else match Find(t, key)
      case None => RemoveResult(t, NotFound)
      case Some(j) => RemoveResult(t[j := Some(Unlink(t[j].value, key))], Removed(j))
  }

  /* ---------------------------------------------------------- command runs */

  /** The state-changing commands of the console (search, display and export
      only read the table). */
  datatype Command = InsertCmd(key: string, value: string) | RemoveCmd(key: string) | ClearCmd

  /** A command whose key is malformed; the console reports it and the table
      is left alone. */
  predicate Ignored(c: Command) {
    !c.ClearCmd? && !ValidateKeyFormat(c.key)
  }

  /** One console command: `clearTable` nulls every slot; an insert only
      changes slots that then hold its key; a remove only changes slots that
      held its key in a live node; a malformed key changes nothing. */
  function Apply(t: Table, c: Command): (r: Table)
    ensures c.ClearCmd? ==> forall i :: 0 <= i < TABLE_SIZE ==> r[i].None?
    ensures c.InsertCmd? ==> forall i :: 0 <= i < TABLE_SIZE && r[i] != t[i] ==> Holds(r[i], c.key)
    ensures c.RemoveCmd? ==> forall i :: 0 <= i < TABLE_SIZE && r[i] != t[i] ==> Hit(t[i], c.key)
    ensures Ignored(c) ==> r == t
  {
    match c
    case InsertCmd(k, v) => Insert(t, k, v).table
    case RemoveCmd(k) => Remove(t, k).table
    case ClearCmd => EmptyTable()
  }

  /** A sequence of console commands, applied in order. A run of commands
      that all have malformed keys leaves the table as it was. */
  function Run(t: Table, cs: seq<Command>): (r: Table)
    ensures (forall k :: 0 <= k < |cs| ==> Ignored(cs[k])) ==> r == t
    decreases |cs|
  {
    if cs == [] then t else Run(Apply(t, cs[0]), cs[1..])
  }
}
