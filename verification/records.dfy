/**
 * The `records` table (basic-auth-dns/main.go:17-23, 34-41) as an explicit
 * value, with the three management writes (basic-auth-dns/main.go:47-67) and
 * the lookup the DNS handler performs (basic-auth-dns/main.go:69-88).
 *
 * Ids come from an `INTEGER PRIMARY KEY AUTOINCREMENT` column: SQLite keeps
 * the largest id it has ever handed out, gives each new row the next one,
 * and never hands the same id out again, even after that row is deleted.
 */
module RecordStore {
  import opened Wrappers
  import Seqs

  /** The largest rowid SQLite can store, 2^63 - 1. */
  const MaxRowid: int := 0x7FFF_FFFF_FFFF_FFFF

  /** One row: `DNSRecord` with its `id`, `name`, `type` and `value` columns. */
  datatype Record = Record(id: int, name: string, rtype: string, value: string)

  /**
   * The rows in retrieval order, and the largest id ever assigned (SQLite's
   * `sqlite_sequence` entry for the table; 0 before the first insert).
   */
  datatype Table = Table(rows: seq<Record>, lastId: nat)

  /** Errors the table itself produces: an AUTOINCREMENT table whose ids are used up. */
  datatype StoreError = Full

  /** A freshly created table. */
  const Empty: Table := Table([], 0)

  /**
   * The table invariant: every id lies between 1 and the largest id ever
   * assigned, and rows appear in increasing id order, so ids are unique.
   */
  predicate Valid(t: Table) {
    && t.lastId <= MaxRowid
    && (forall i :: 0 <= i < |t.rows| ==> 1 <= t.rows[i].id <= t.lastId)
    && IdsIncreasing(t.rows)
  }

  /** True when some row of `t` has id `id`. */
  predicate HasId(t: Table, id: int) {
    exists i :: 0 <= i < |t.rows| && t.rows[i].id == id
  }

  lemma EmptyValid()
    ensures Valid(Empty) && |Empty.rows| == 0
  {
  }

  /** A successful insert: the table after it and the id the new row received. */
  datatype Inserted = Inserted(table: Table, id: int)

  /**
   * `addDNSRecord` (basic-auth-dns/main.go:47-55): append a row under the
   * next AUTOINCREMENT id, or fail once the largest possible id is taken.
   */
  function Insert(t: Table, name: string, rtype: string, value: string): (r: Result<Inserted, StoreError>)
    requires Valid(t)
    ensures r.Failure? <==> t.lastId == MaxRowid
    ensures r.Success? ==>
      && Valid(r.value.table)
      && r.value.id > t.lastId
      && !HasId(t, r.value.id)
      && r.value.table.lastId == r.value.id
      && r.value.table.rows == t.rows + [Record(r.value.id, name, rtype, value)]
  {
    if t.lastId == MaxRowid then Failure(Full)
    else
      var id := t.lastId + 1;
      Success(Inserted(Table(t.rows + [Record(id, name, rtype, value)], id), id))
  }

  /** The rows of `rows` with the fields of row `id` replaced. */
  function UpdateRows(rows: seq<Record>, id: int, name: string, rtype: string, value: string): (r: seq<Record>)
    ensures |r| == |rows|
    ensures forall i :: 0 <= i < |rows| ==>
      r[i] == if rows[i].id == id then Record(id, name, rtype, value) else rows[i]
    decreases |rows|
  {
    if |rows| == 0 then []
    else
      var head := if rows[0].id == id then Record(id, name, rtype, value) else rows[0];
      [head] + UpdateRows(rows[1..], id, name, rtype, value)
  }

  /**
   * `updateDNSRecord` (basic-auth-dns/main.go:57-61): `UPDATE ... WHERE id=?`
   * replaces the name, type and value of the row with that id, keeps its id
   * and its place, and is a silent no-op when no row has the id.
   */
  function Update(t: Table, id: int, name: string, rtype: string, value: string): (r: Table)
    ensures r.lastId == t.lastId && |r.rows| == |t.rows|
    ensures forall i :: 0 <= i < |t.rows| && t.rows[i].id != id ==> r.rows[i] == t.rows[i]
    ensures forall i :: 0 <= i < |t.rows| && t.rows[i].id == id ==>
      r.rows[i].id == id && r.rows[i].name == name && r.rows[i].rtype == rtype && r.rows[i].value == value
    ensures !HasId(t, id) ==> r == t
    ensures Valid(t) ==> Valid(r)
  {
    UpdateMissingId(t, id, name, rtype, value);
    Table(UpdateRows(t.rows, id, name, rtype, value), t.lastId)
  }

  /** Updating an id no row has rewrites nothing. */
  lemma UpdateMissingId(t: Table, id: int, name: string, rtype: string, value: string)
    ensures !HasId(t, id) ==> UpdateRows(t.rows, id, name, rtype, value) == t.rows
  {
    if !HasId(t, id) {
      assert forall i :: 0 <= i < |t.rows| ==> t.rows[i].id != id;
    }
  }

  /** On a valid table an update changes at most one row. */
  lemma UpdateChangesAtMostOneRow(t: Table, id: int, name: string, rtype: string, value: string, i: int, j: int)
    requires Valid(t)
    requires 0 <= i < |t.rows| && 0 <= j < |t.rows|
    requires Update(t, id, name, rtype, value).rows[i] != t.rows[i]
    requires Update(t, id, name, rtype, value).rows[j] != t.rows[j]
    ensures i == j
  {
  }

  /** True when row ids strictly increase along `rows`. */
  predicate IdsIncreasing(rows: seq<Record>) {
    forall i, j :: 0 <= i < j < |rows| ==> rows[i].id < rows[j].id
  }

  /** The selector `DELETE ... WHERE id=?` keeps: rows with another id. */
  function OtherId(id: int): (keep: Record -> bool) {
    (rec: Record) => rec.id != id
  }

  /**
   * `deleteDNSRecord` (basic-auth-dns/main.go:63-67): `DELETE ... WHERE id=?`
   * removes the row with that id, if any, and keeps the others in order. The
   * largest id ever assigned is kept, so the id is not handed out again.
   */
  function Delete(t: Table, id: int): (r: Table)
    ensures r.lastId == t.lastId
    ensures forall rec :: rec in r.rows <==> rec in t.rows && rec.id != id
    ensures !HasId(t, id) ==> r == t
    ensures Valid(t) ==> Valid(r)
    ensures Valid(t) && HasId(t, id) ==> |r.rows| == |t.rows| - 1
  {
    DeleteCases(t, id);
    Table(Seqs.Filter(t.rows, OtherId(id)), t.lastId)
  }

  /** The facts `Delete` rests on, by whether the id is present and the table valid. */
  lemma DeleteCases(t: Table, id: int)
    ensures forall rec :: rec in Seqs.Filter(t.rows, OtherId(id)) <==> rec in t.rows && rec.id != id
    ensures !HasId(t, id) ==> Seqs.Filter(t.rows, OtherId(id)) == t.rows
    ensures Valid(t) && HasId(t, id) ==>
      IdsIncreasing(Seqs.Filter(t.rows, OtherId(id))) && |Seqs.Filter(t.rows, OtherId(id))| == |t.rows| - 1
  {
    Seqs.FilterMembership(t.rows, OtherId(id));
    if !HasId(t, id) {
      Seqs.FilterKeepsAll(t.rows, OtherId(id));
    } else if Valid(t) {
      DeleteFromValid(t.rows, id);
    }
  }

  /** Removing one element keeps ids increasing. */
  lemma IdsIncreasingWithout(rows: seq<Record>, k: int)
    requires IdsIncreasing(rows) && 0 <= k < |rows|
    ensures IdsIncreasing(rows[..k] + rows[k + 1..])
  {
    var rest := rows[..k] + rows[k + 1..];
    forall i, j | 0 <= i < j < |rest|
      ensures rest[i].id < rest[j].id
    {
      var i' := if i < k then i else i + 1;
      var j' := if j < k then j else j + 1;
      assert rest[i] == rows[i'] && rest[j] == rows[j'];
    }
  }

  /** In rows with increasing ids, deleting the id of row `k` drops exactly row `k`. */
  lemma DeleteDropsRow(rows: seq<Record>, k: int)
    requires IdsIncreasing(rows) && 0 <= k < |rows|
    ensures Seqs.Filter(rows, OtherId(rows[k].id)) == rows[..k] + rows[k + 1..]
  {
    var keep := OtherId(rows[k].id);
    forall i | 0 <= i < |rows| && i != k
      ensures keep(rows[i])
    {
      assert rows[i].id != rows[k].id;
    }
    Seqs.FilterDropsOne(rows, k, keep);
  }

  /** Deleting an id that occurs in rows with increasing ids drops exactly one row. */
  lemma DeleteFromValid(rows: seq<Record>, id: int)
    requires IdsIncreasing(rows)
    requires exists i :: 0 <= i < |rows| && rows[i].id == id
    ensures IdsIncreasing(Seqs.Filter(rows, OtherId(id)))
    ensures |Seqs.Filter(rows, OtherId(id))| == |rows| - 1
  {
    var k :| 0 <= k < |rows| && rows[k].id == id;
    DeleteDropsRow(rows, k);
    IdsIncreasingWithout(rows, k);
  }

  /** True when `rec` is a row the handler's query selects. */
  predicate Matches(rec: Record, name: string, rtype: string) {
    rec.name == name && rec.rtype == rtype
  }

  /**
   * `queryDNS` (basic-auth-dns/main.go:69-88): the rows whose name and type
   * equal the arguments exactly, in retrieval order. No match is an empty
   * result, not an error.
   */
  function Lookup(rows: seq<Record>, name: string, rtype: string): (r: seq<Record>)
    ensures forall rec :: rec in r <==> rec in rows && Matches(rec, name, rtype)
    ensures (forall i :: 0 <= i < |rows| ==> !Matches(rows[i], name, rtype)) ==> r == []
  {
    LookupCases(rows, name, rtype);
    Seqs.Filter(rows, (rec: Record) => Matches(rec, name, rtype))
  }

  /** Membership in the selection, and the empty selection when nothing matches. */
  lemma LookupCases(rows: seq<Record>, name: string, rtype: string)
    ensures forall rec :: rec in Seqs.Filter(rows, (rec: Record) => Matches(rec, name, rtype)) <==>
      rec in rows && Matches(rec, name, rtype)
    ensures (forall i :: 0 <= i < |rows| ==> !Matches(rows[i], name, rtype)) ==>
      Seqs.Filter(rows, (rec: Record) => Matches(rec, name, rtype)) == []
  {
    Seqs.FilterMembership(rows, (rec: Record) => Matches(rec, name, rtype));
    if forall i :: 0 <= i < |rows| ==> !Matches(rows[i], name, rtype) {
      Seqs.FilterKeepsNone(rows, (rec: Record) => Matches(rec, name, rtype));
    }
  }

  /** The first `n` of `rows`, or all of them when there are fewer. */
  function FirstRows(rows: seq<Record>, n: nat): (r: seq<Record>)
    ensures r <= rows
    ensures |r| == if n < |rows| then n else |rows|
    ensures forall rec :: rec in r ==> rec in rows
  {
    if n < |rows| then rows[..n] else rows
  }

  /**
   * How reading the result set of one query ends. The store is outside the
   * model, so this is an input: every row read without error, an error from
   * `db.Query` or from `rows.Scan`, or an error that ends `rows.Next` after
   * `read` rows.
   */
  datatype Fetch =
    | Complete
    | Failed
    | Cut(read: nat)

  /** The error a lookup reports. */
  datatype LookupError =
    | ReadFailed
    | Interrupted

  /**
   * `queryDNS` as written (basic-auth-dns/main.go:69-88). An error from the
   * query or from scanning a row is reported. When `rows.Next` stops early
   * on an error, the loop ends as if the rows were exhausted and, as
   * `rows.Err()` is never consulted, the rows read so far are returned as a
   * success.
   */
  function Query(rows: seq<Record>, name: string, rtype: string, fetch: Fetch): (r: Result<seq<Record>, LookupError>)
    ensures r.Failure? <==> fetch.Failed?
    ensures r.Success? ==> r.value <= Lookup(rows, name, rtype)
    ensures fetch.Complete? ==> r == Success(Lookup(rows, name, rtype))
    ensures fetch.Cut? ==> |r.value| == if fetch.read < |Lookup(rows, name, rtype)| then fetch.read else |Lookup(rows, name, rtype)|
  {
    match fetch
    case Complete => Success(Lookup(rows, name, rtype))
    case Failed => Failure(ReadFailed)
    case Cut(n) => Success(FirstRows(Lookup(rows, name, rtype), n))
  }

  /**
   * An interrupted read passes for a successful lookup: `Query` returns
   * fewer rows than match, and reports no error.
   */
  lemma QueryHidesInterruption(rows: seq<Record>, name: string, rtype: string, n: nat)
    requires n < |Lookup(rows, name, rtype)|
    ensures Query(rows, name, rtype, Cut(n)).Success?
    ensures Query(rows, name, rtype, Cut(n)).value != Lookup(rows, name, rtype)
  {
  }

  /**
   * `queryDNS` with the `rows.Err()` check after the loop: an interrupted
   * read is reported as an error, so a successful lookup is always complete.
   * It differs from `Query` only on interrupted reads.
   */
  function QueryChecked(rows: seq<Record>, name: string, rtype: string, fetch: Fetch): (r: Result<seq<Record>, LookupError>)
    ensures r.Success? <==> fetch.Complete?
    ensures r.Success? ==> r.value == Lookup(rows, name, rtype)
    ensures fetch.Cut? ==> r == Failure(Interrupted)
    ensures !fetch.Cut? ==> r == Query(rows, name, rtype, fetch)
  {
    match Query(rows, name, rtype, fetch)
    case Failure(e) => Failure(e)
    case Success(recs) => if fetch.Cut? then Failure(Interrupted) else Success(recs)
  }

  /** The lookup keeps store order: it distributes over concatenated rows. */
  lemma LookupAppend(a: seq<Record>, b: seq<Record>, name: string, rtype: string)
    ensures Lookup(a + b, name, rtype) == Lookup(a, name, rtype) + Lookup(b, name, rtype)
  {
    Seqs.FilterAppend(a, b, (rec: Record) => Matches(rec, name, rtype));
  }

  /** On a valid table the lookup returns rows in increasing id order. */
  lemma {:induction false} LookupIdOrder(rows: seq<Record>, name: string, rtype: string)
    requires forall i, j :: 0 <= i < j < |rows| ==> rows[i].id < rows[j].id
    ensures forall i, j :: 0 <= i < j < |Lookup(rows, name, rtype)| ==>
      Lookup(rows, name, rtype)[i].id < Lookup(rows, name, rtype)[j].id
    decreases |rows|
  {
    if |rows| > 0 {
      LookupAppend([rows[0]], rows[1..], name, rtype);
      assert [rows[0]] + rows[1..] == rows;
      LookupIdOrder(rows[1..], name, rtype);
      var tail := Lookup(rows[1..], name, rtype);
      forall k | 0 <= k < |tail|
        ensures rows[0].id < tail[k].id
      {
        assert tail[k] in rows[1..];
      }
    }
  }

  /** A management write, as the HTTP interface issues them. */
  datatype Op =
    | Add(name: string, rtype: string, value: string)
    | Modify(id: int, name: string, rtype: string, value: string)
    | Remove(id: int)

  /** One write; an insert into a full table leaves it unchanged. */
  function Apply(t: Table, op: Op): (r: Table)
    requires Valid(t)
    ensures Valid(r) && r.lastId >= t.lastId
  {
    match op
    case Add(name, rtype, value) =>
      (match Insert(t, name, rtype, value)
       case Success(ins) => ins.table
       case Failure(_) => t)
    case Modify(id, name, rtype, value) => Update(t, id, name, rtype, value)
    case Remove(id) => Delete(t, id)
  }

  /** The id a write hands out: one for a successful insert, none otherwise. */
  function NewId(t: Table, op: Op): (ids: seq<int>)
    requires Valid(t)
    ensures |ids| <= 1
    ensures |ids| == 1 ==> ids[0] > t.lastId && Apply(t, op).lastId == ids[0]
  {
    match op
    case Add(name, rtype, value) =>
      (match Insert(t, name, rtype, value)
       case Success(ins) => [ins.id]
       case Failure(_) => [])
    case _ => []
  }

  /** Ids handed out by the successful inserts of `ops`, in order. */
  function AssignedIds(t: Table, ops: seq<Op>): (ids: seq<int>)
    requires Valid(t)
    decreases |ops|
  {
    if |ops| == 0 then []
    else NewId(t, ops[0]) + AssignedIds(Apply(t, ops[0]), ops[1..])
  }

  /**
   * Over any run of writes, the inserted ids strictly increase and all
   * exceed every id assigned before the run: no id is ever reused, even
   * after its row was deleted.
   */
  lemma {:induction false} AssignedIdsFresh(t: Table, ops: seq<Op>)
    requires Valid(t)
    ensures forall i :: 0 <= i < |AssignedIds(t, ops)| ==> AssignedIds(t, ops)[i] > t.lastId
    ensures forall i, j :: 0 <= i < j < |AssignedIds(t, ops)| ==> AssignedIds(t, ops)[i] < AssignedIds(t, ops)[j]
    decreases |ops|
  {
    if |ops| > 0 {
      var t' := Apply(t, ops[0]);
      AssignedIdsFresh(t', ops[1..]);
    }
  }
}
