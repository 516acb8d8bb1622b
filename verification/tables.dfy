/** An in-memory relational table: rows keyed by identifier, with the next
    fresh identifier. Every stored identifier is below `next`, so the rows
    can be listed in ascending identifier (insertion) order. */
module Tables {

  import opened Common

  datatype RawTable<T> = RawTable(rows: map<Id, T>, next: Id)

  predicate Bounded<T>(t: RawTable<T>)
  {
    forall id :: id in t.rows ==> id < t.next
  }

  type Table<T> = t: RawTable<T> | Bounded(t) witness RawTable(map[], 0)

  function Empty<T>(): Table<T>
  {
    RawTable(map[], 0)
  }

  /** Stores `row` under the fresh identifier `t.next`. */
  function Insert<T>(t: Table<T>, row: T): (r: Table<T>)
    ensures r.rows == t.rows[t.next := row] && r.next == t.next + 1
  {
    RawTable(t.rows[t.next := row], t.next + 1)
  }

  function Remove<T>(t: Table<T>, id: Id): (r: Table<T>)
    ensures r.rows == t.rows - {id} && r.next == t.next
  {
    RawTable(t.rows - {id}, t.next)
  }

  /** Replaces the row stored under an existing identifier. */
  function Replace<T>(t: Table<T>, id: Id, row: T): (r: Table<T>)
    requires id in t.rows
    ensures r.rows == t.rows[id := row] && r.next == t.next
  {
    RawTable(t.rows[id := row], t.next)
  }

  /** The identifiers below `n` whose rows satisfy `p`, ascending. */
  function IdsBelow<T>(rows: map<Id, T>, n: nat, p: T -> bool): (ids: seq<Id>)
    ensures forall i :: 0 <= i < |ids| ==> ids[i] < n && ids[i] in rows && p(rows[ids[i]])
    ensures forall id :: id < n && id in rows && p(rows[id]) ==> id in ids
    ensures forall i, j :: 0 <= i < j < |ids| ==> ids[i] < ids[j]
    decreases n
  {
    if n == 0 then []
    else
      var below := IdsBelow(rows, n - 1, p);
      if n - 1 in rows && p(rows[n - 1]) then below + [n - 1] else below
  }

  /** `SELECT id WHERE p`: every matching identifier once, ascending. */
  function Where<T>(t: Table<T>, p: T -> bool): (ids: seq<Id>)
    ensures forall i :: 0 <= i < |ids| ==> ids[i] in t.rows && p(t.rows[ids[i]])
    ensures forall id :: id in t.rows && p(t.rows[id]) ==> id in ids
    ensures forall i, j :: 0 <= i < j < |ids| ==> ids[i] < ids[j]
  {
    IdsBelow(t.rows, t.next, p)
  }

  /** The rows stored under `ids`, in that order. */
  function RowsOf<T>(t: Table<T>, ids: seq<Id>): (rs: seq<T>)
    requires forall i :: 0 <= i < |ids| ==> ids[i] in t.rows
    ensures |rs| == |ids|
    ensures forall i :: 0 <= i < |ids| ==> rs[i] == t.rows[ids[i]]
  {
    seq(|ids|, i requires 0 <= i < |ids| => t.rows[ids[i]])
  }

  /** The matching row with the lowest identifier, if any: what
      `scalar_one_or_none()` yields on a column the schema keeps unique. */
  function FirstWhere<T>(t: Table<T>, p: T -> bool): (r: Option<Id>)
    ensures r.None? <==> forall id :: id in t.rows ==> !p(t.rows[id])
    ensures r.Some? ==> r.value in t.rows && p(t.rows[r.value])
    ensures r.Some? ==> forall id :: id in t.rows && p(t.rows[id]) ==> r.value <= id
  {
    var ids := Where(t, p);
    if |ids| == 0 then None
    else
      assert forall id :: id in ids ==> ids[0] <= id;
      Some(ids[0])
  }

  /** Keeps the rows satisfying `p` (a cascading `DELETE`). */
  function Filter<T>(t: Table<T>, p: T -> bool): (r: Table<T>)
    ensures r.next == t.next
    ensures forall id :: id in r.rows <==> id in t.rows && p(t.rows[id])
    ensures forall id :: id in r.rows ==> r.rows[id] == t.rows[id]
  {
    RawTable(map id | id in t.rows && p(t.rows[id]) :: t.rows[id], t.next)
  }

  /** Rewrites every row through `f` (a cascading `UPDATE`). */
  function MapRows<T>(t: Table<T>, f: T -> T): (r: Table<T>)
    ensures r.next == t.next && r.rows.Keys == t.rows.Keys
    ensures forall id :: id in r.rows ==> r.rows[id] == f(t.rows[id])
  {
    RawTable(map id | id in t.rows :: f(t.rows[id]), t.next)
  }
}
