/**
  The live-slot enumeration shared by `exportToFile` and `display`: the slots
  that are non-null and not deleted, in ascending index. Export writes each as
  `index;count` under the header `Index;Count`; display shows each slot's keys
  and value.
 */
module Occupancy {
  import opened Hashing
  import opened HashTable

  /** The live slots with index `i` or above, ascending. */
  function LiveFrom(t: Table, i: nat): (r: seq<nat>)
    requires i <= TABLE_SIZE
    ensures forall a :: 0 <= a < |r| ==> i <= r[a] < TABLE_SIZE && Live(t[r[a]])
    ensures forall a, b :: 0 <= a < b < |r| ==> r[a] < r[b]
    ensures forall x :: i <= x < TABLE_SIZE && Live(t[x]) ==> x in r
    decreases TABLE_SIZE - i
  {
    if i == TABLE_SIZE then []
    else if Live(t[i]) then [i] + LiveFrom(t, i + 1)
    else LiveFrom(t, i + 1)
  }

  /** The slots the export and display loops visit: exactly the live ones, in
      strictly ascending index. */
  function LiveSlots(t: Table): (r: seq<nat>)
    ensures forall a :: 0 <= a < |r| ==> r[a] < TABLE_SIZE && Live(t[r[a]])
    ensures forall a, b :: 0 <= a < b < |r| ==> r[a] < r[b]
    ensures forall x :: 0 <= x < TABLE_SIZE ==> (x in r <==> Live(t[x]))
  {
    LiveFrom(t, 0)
  }

  /** One data line of the export file. */
  datatype ExportRow = ExportRow(index: nat, count: nat)

  /** The data lines of `exportToFile`, in file order: one per live slot, with
      the number of keys sharing it; on a well-formed table every count is at
      least one, since a node whose last key is removed becomes a tombstone. */
  function ExportRows(t: Table): (rows: seq<ExportRow>)
    ensures |rows| == |LiveSlots(t)|
    ensures forall a :: 0 <= a < |rows| ==>
      && rows[a].index == LiveSlots(t)[a]
      && rows[a].count == |t[rows[a].index].value.keys|
    ensures WellFormed(t) ==> forall a :: 0 <= a < |rows| ==> 1 <= rows[a].count
    ensures forall a :: 0 <= a < |rows| ==> rows[a].index < TABLE_SIZE
  {
    var live := LiveSlots(t);
    seq(|live|, a requires 0 <= a < |live| => ExportRow(live[a], |t[live[a]].value.keys|))
  }

  /** One line of `display`: slot index, the keys sharing it, its value. */
  datatype DisplayRow = DisplayRow(index: nat, keys: seq<string>, value: string)

  /** The table rows of `display`, over the same slots as the export. */
  function DisplayRows(t: Table): (rows: seq<DisplayRow>)
    ensures |rows| == |ExportRows(t)|
    ensures forall a :: 0 <= a < |rows| ==>
      && rows[a].index == ExportRows(t)[a].index
      && |rows[a].keys| == ExportRows(t)[a].count
      && t[rows[a].index] == Some(Node(rows[a].keys, rows[a].value, false))
  {
    var live := LiveSlots(t);
    seq(|live|, a requires 0 <= a < |live| => DisplayRow(live[a], t[live[a]].value.keys, t[live[a]].value.value))
  }
}
