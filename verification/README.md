# HashTabel in Dafny

A Dafny model of the open-addressing hash table in `src/HashTabel.java`. The
table has 2500 slots. Each slot is null or a node holding a list of keys, one
value and an `isDeleted` (tombstone) flag. Keys must have the format
`\d{2}[A-Z]{2}\d{2}`. The first hash, `hash1`, picks the home slot. The second
hash, `hash2`, is the probe step. Insert, search and remove each walk at most
2500 slots along the probe path `(hash1(key) + j * hash2(key)) % 2500`.

The table is modelled as a value: a sequence of 2500 optional nodes. Every
operation is a pure function that returns the new table together with an
outcome. The outcome stands for the message the program prints.

Modules, one file each:

- `KeyFormat` (`key_format.dfy`): the key pattern, the validator, and
  `generateRandomKey` with its random draws passed in as parameters.
- `Hashing` (`hashing.dfy`): `TABLE_SIZE`, `hash1`, `hash2`, the probe
  index, and their closed forms.
- `HashTable` (`hash_table.dfy`): nodes, the table, insert, search, remove,
  clear, and runs of console commands.
- `ProbePaths` (`probe_paths.dfy`): each probe loop described as "acts at
  the first stopping slot on the probe path, or gives up after 2500 probes".
- `TableProperties` (`table_properties.dfy`): the invariants, how the
  operations interact, and concrete scenarios.
- `Occupancy` (`occupancy.dfy`): the live-slot enumeration behind
  `exportToFile` and `display`.

### Behaviour as written

The model follows the code wherever the code differs from a textbook
double-hashing table with tombstones.

- **Where insert stops.** Insert stops at the first slot that is null or
  whose node lacks the key. That node may be live, a tombstone, or hold
  other keys. A fresh key therefore always lands on its home slot
  (`HashTable.Insert`). A key that collides there is appended to the node
  already in the slot, and it shares that node's value
  (`TableProperties.CollidingKeysShareValue`).
- **Duplicate inserts are not a no-op.** Inserting a key already stored at
  its home slot stores it a second time further along its probe path: in the
  next probe slot when that slot admits it (`TableProperties.DuplicateInsert`),
  otherwise in the first later one that does (`ProbePaths.InsertAtFirstAdmitting`).
- **Remove can leave the key findable.** After such a double insert,
  removing the key once leaves it findable with the second value
  (`TableProperties.DuplicateSurvivesRemove`). "Search after remove finds
  nothing" holds when at most one live node holds the key
  (`TableProperties.RemoveThenSearch`).
- **Tombstones are never revived.** A tombstone's `isDeleted` flag is never
  reset. A key appended to a tombstone is stored but invisible to search
  (`TableProperties.InsertIntoTombstoneIsInvisible`,
  `TableProperties.TombstoneNeverFound`). Only `clearTable` nulls slots again
  (`TableProperties.RunWithoutClearEvolves`).
- **`hash2` adds one after every character, not once at the end.** It
  equals the base-17 polynomial of the codes, with every code after the first
  shifted by 17, reduced modulo 2499, plus one
  (`Hashing.Hash2IsShiftedPolynomial`).

## Model

| member | source | states |
|---|---|---|
| KeyFormat.MatchesPointwise | src/HashTabel.java:9 | a pattern of one-character classes matches exactly the strings of its length whose every character lies in the class at the same position |
| KeyFormat.ValidateKeyFormat | src/HashTabel.java:120-122 | a key is valid iff it has six characters: two ASCII digits, two ASCII capitals, two ASCII digits |
| KeyFormat.GeneratedKey | src/HashTabel.java:124-131 | in a default format locale whose digits are ASCII, every key the random generator can produce passes the format check |
| KeyFormat.GeneratedKeyInjective | src/HashTabel.java:124-131 | different random draws produce different keys |
| Hashing.Hash1 | src/HashTabel.java:33-39 | hash1 is always a slot index in [0, 2500) |
| Hashing.Hash2 | src/HashTabel.java:41-47 | hash2 of a non-empty key lies in [1, 2499], so the probe step never stays put; hash2 of the empty string is 0 |
| Hashing.Hash1IsPolynomial | src/HashTabel.java:33-39 | reducing after every character gives the plain base-31 polynomial of the character codes modulo 2500 |
| Hashing.Hash2IsShiftedPolynomial | src/HashTabel.java:41-47 | the per-character `+ 1` amounts to shifting every code after the first by 17; hash2 is that base-17 polynomial modulo 2499, plus one |
| Hashing.ProbeIndex | src/HashTabel.java:67 | repeating the loop update `index = (index + step) % TABLE_SIZE` always gives a valid slot |
| Hashing.ProbeIndexClosedForm | src/HashTabel.java:55-68 | the j-th slot the loops visit is `(hash1 + j * hash2) % 2500` |
| Hashing.StepMoves | src/HashTabel.java:67 | a step in [1, 2499] always moves the probe to another slot |
| HashTable.EmptyTable | src/HashTabel.java:12-14 | the new table has every slot null |
| HashTable.InsertFrom | src/HashTabel.java:58-69 | the insert loop either reports a full table and changes nothing, or puts the key into exactly one slot that was null or lacked the key |
| HashTable.Insert | src/HashTabel.java:49-70 | an invalid key changes nothing; a valid key is placed or the table is reported full; placing creates a node `([key], value, live)` in a null slot or appends the key to the node there, keeping its value and flag, and touches no other slot; a home slot that admits the key receives it |
| HashTable.FindFrom | src/HashTabel.java:81-90 | the search loop answers only with a live node holding the key |
| HashTable.Find | src/HashTabel.java:72-91 | search reads its value from a live node holding the key, or answers none; a malformed key is never found |
| HashTable.Search | src/HashTabel.java:72-91 | a malformed key gives null; a null home slot gives null; a live home node holding the key gives that node's value |
| HashTable.RemoveFirst | src/HashTabel.java:108 | `List.remove(Object)`: an absent key leaves the list alone; otherwise the first occurrence goes and the remaining keys keep their order, so no other key's membership changes, and a duplicate-free list loses the key entirely |
| HashTable.Unlink | src/HashTabel.java:107-111 | removing a key from a node keeps its value, and the node is deleted iff it already was or its key list is now empty |
| HashTable.Apply | src/HashTabel.java:168-171 | clearTable nulls every slot; an insert command changes only slots that then hold its key; a remove command changes only slots where a live node held its key; a command with a malformed key changes nothing |
| HashTable.Run | src/HashTabel.java:196-230 | the menu's commands applied in order; a run in which every command has a malformed key leaves the table as it was |
| HashTable.Remove | src/HashTabel.java:93-118 | an invalid key or a key not found changes nothing; otherwise the key is taken out of one live node holding it, which becomes a tombstone iff its list empties, and no other slot changes; a null home slot means not found; a live home node holding the key is the one changed |
| ProbePaths.FindFromFirstStop | src/HashTabel.java:81-90 | the search loop stops at the first probe that is null or a live node holding the key |
| ProbePaths.FindFromNoStop | src/HashTabel.java:81-90 | with no stopping slot among the remaining probes, the search loop answers none |
| ProbePaths.SearchAtFirstStop | src/HashTabel.java:72-91 | search answers the value at the first stopping slot on the key's probe path if it holds the key, and null if that slot is null |
| ProbePaths.SearchExhausted | src/HashTabel.java:81-90 | after 2500 probes without a stop, search answers null |
| ProbePaths.InsertFromFirstAdmitting | src/HashTabel.java:58-68 | the insert loop places the key at the first probe that is null or lacks the key |
| ProbePaths.InsertFromNoneAdmitting | src/HashTabel.java:58-69 | when every remaining probe already holds the key, the insert loop reports a full table |
| ProbePaths.InsertAtFirstAdmitting | src/HashTabel.java:49-68 | insert lands at the first slot on the key's probe path that is null or whose node lacks the key |
| ProbePaths.InsertExhausted | src/HashTabel.java:58-69 | when all 2500 probes hold the key already, insert reports a full table and changes nothing |
| ProbePaths.RemoveAtFirstStop | src/HashTabel.java:102-117 | remove stops where search stops: at a null slot it changes nothing; at a live node holding the key it takes the key from that node alone |
| ProbePaths.RemoveExhausted | src/HashTabel.java:102-117 | after 2500 probes without a stop, remove changes nothing |
| TableProperties.InsertPreservesWellFormed | src/HashTabel.java:59-66 | insert keeps every key list duplicate-free and made of valid keys, and every live node non-empty |
| TableProperties.RemovePreservesWellFormed | src/HashTabel.java:107-111 | remove keeps the same invariant, because a node whose last key goes is marked deleted |
| TableProperties.EmptyTableWellFormed | src/HashTabel.java:168-171 | the cleared or new table satisfies the invariant |
| TableProperties.RunPreservesWellFormed | src/HashTabel.java:201-230 | any sequence of insert, remove and clear commands keeps the invariant |
| TableProperties.PutEvolves | src/HashTabel.java:59-66 | insert never nulls a slot and never revives a tombstone |
| TableProperties.TakeEvolves | src/HashTabel.java:107-111 | remove never nulls a slot and never revives a tombstone |
| TableProperties.ApplyEvolves | src/HashTabel.java:49-118 | insert and remove commands never null a slot and never reset `isDeleted` |
| TableProperties.RunWithoutClearEvolves | src/HashTabel.java:49-118 | across any run without a clear, occupied slots stay occupied and tombstones stay tombstones |
| TableProperties.TombstoneNeverFound | src/HashTabel.java:85 | until a clear, a tombstone stays a tombstone and search never reads its value, whatever keys are appended to it |
| TableProperties.ClearThenSearch | src/HashTabel.java:168-171 | after clearTable the table equals a fresh one and every search answers null |
| TableProperties.InsertThenSearch | src/HashTabel.java:59-66 | a key whose home slot is null or a live node without it lands there and is then found, with its own value in a fresh node or the node's existing value otherwise |
| TableProperties.CollidingKeysShareValue | src/HashTabel.java:63-65 | two keys with the same home slot inserted into a fresh table share one node `[k1, k2]` and both find the first value |
| TableProperties.DuplicateInsert | src/HashTabel.java:63-67 | inserting a key already held at its home slot places a second copy at the next probe slot when that slot admits it, and search still answers from the home node |
| TableProperties.InsertIntoTombstoneIsInvisible | src/HashTabel.java:63-65 | a key appended to a tombstone at its home slot is stored there, but search still cannot see it |
| TableProperties.SameStopsSameFind | src/HashTabel.java:81-90 | the search loop depends only on which slots are null and which are hits |
| TableProperties.KeptMatchesKeepFind | src/HashTabel.java:81-90 | a change that keeps occupied slots occupied and hits as hits, and adds no new hit, keeps a successful search loop's answer |
| TableProperties.KeptMatchesKeepSearch | src/HashTabel.java:72-91 | such a change keeps every successful search's value |
| TableProperties.PutKeepsMatches | src/HashTabel.java:59-66 | inserting another key is such a change for this key |
| TableProperties.TakeKeepsMatches | src/HashTabel.java:107-111 | removing another key is such a change for this key |
| TableProperties.SearchUnaffectedByOtherInsert | src/HashTabel.java:49-91 | a key that is found stays found, with the same value, after any other key is inserted |
| TableProperties.SearchUnaffectedByOtherRemove | src/HashTabel.java:72-118 | a key that is found stays found, with the same value, after any other key is removed |
| TableProperties.RemoveThenSearch | src/HashTabel.java:93-118 | when at most one live node holds the key, search after remove answers null |
| TableProperties.InsertIntoEmpty | src/HashTabel.java:59-61 | the first insert into a fresh table creates the node `([key], value, live)` at the home slot and nothing else |
| TableProperties.ProbeOneMoves | src/HashTabel.java:67 | for a valid key, the second probe slot differs from the home slot |
| TableProperties.TwiceInserted | src/HashTabel.java:55-67 | inserting a key twice into a fresh table stores the first value at the home slot and the second at the next probe slot |
| TableProperties.RemoveSoleKeyAtHome | src/HashTabel.java:107-111 | removing the only key of a live home node turns it into a tombstone with the same value, and leaves every other slot alone |
| TableProperties.RemoveFirstOfTwo | src/HashTabel.java:102-117 | with the key alone at its home slot and at the next probe slot, remove deletes the home copy, and search then finds the second copy |
| TableProperties.DuplicateSurvivesRemove | src/HashTabel.java:93-118 | inserting a key twice and removing it once leaves it findable with the second value |
| Occupancy.LiveFrom | src/HashTabel.java:136-140 | the enumeration from index i lists exactly the live slots at or above i, in strictly ascending order |
| Occupancy.LiveSlots | src/HashTabel.java:136-140 | export and display visit a slot iff it is non-null and not deleted, in ascending index |
| Occupancy.ExportRows | src/HashTabel.java:135-140 | one export line per live slot, in slot order, with the slot's key count, which is at least one on a well-formed table |
| Occupancy.DisplayRows | src/HashTabel.java:160-163 | one display row per exported line, with the same index, the slot's keys (as many as the export count) and its value |

## Left out

- The console menu (`main`, `displayMenu`) reads commands with `Scanner`. It is
  left out as I/O. The state-changing commands it dispatches (insert, remove,
  clear) are modelled as `HashTable.Command`, and runs of them as `HashTable.Run`.
- The printed messages are left out as I/O. They are modelled as outcome
  values: `InsertInvalidKey`, `TableFull`, `Placed`, `RemoveInvalidKey`,
  `NotFound`, `Removed`. Search's null is `None`. Search's format-error
  message is not an outcome: `Search` answers `None` both for a malformed
  key and for a missing one, and callers tell the two apart with
  `KeyFormat.ValidateKeyFormat`.
- Writing the export file, the `Index;Count` header and the `IOException`
  path are left out as I/O. The model gives the data lines as
  `Occupancy.ExportRow` values.
- Display's `printf` column layout and the `String.join(",", keys)` text are
  left out as text formatting. The model gives the row contents as
  `Occupancy.DisplayRow` values.
- `generateRandomKey` and `generateRandomData` use `java.util.Random`. The
  random draws become parameters of `KeyFormat.GeneratedKey`. The loop of
  `generateRandomData` is covered by `HashTable.Run` over insert commands,
  and its `nextInt(1000)` values by arbitrary value strings.
- KeyFormat.GeneratedKey: `%02d` is modelled with ASCII digits, so it assumes
  a default format locale whose zero digit is '0'. `String.format` localises
  digits: under a locale such as `fa-IR` the generated keys contain non-ASCII
  digits and fail the format check. Every insert of `generateRandomData` is
  then rejected, which is `HashTable.Insert`'s invalid-key path. The
  locale-dependent digit rendering itself is not modelled.
- Java `char` is a UTF-16 code unit, while Dafny `char` is a Unicode scalar
  value. This does not matter here: hashing only runs on keys that passed the
  ASCII-only format check.
- HashTable.Remove: the remove loop (src/HashTabel.java:102-117) is not
  written out separately. Its stop conditions are the search loop's, so it is
  modelled through the same locator, `HashTable.Find`. Its two not-found exits
  (a null slot, or 2500 probes used up) print the same message and share the
  `NotFound` outcome.
- Java `int` overflow is not modelled: `hash1` and `hash2` never exceed 2500 * 31 + 65535 before reducing.
