/** Optimistic revisions (internal/generators/gen_insert_delete.go): the generated insert, update
    and delete of a row, and what they give clients that read and write concurrently. */
module Revisions {
  import opened RunTypes

  datatype ObjectID = ObjectID(text: string)

  datatype Row<T> = Row(revision: nat, data: T)

  datatype DbError = BadRevision | MarshalFailed | WriteFailed | Concurrent | QueryWriteFailed

  /** What the environment decides about one call: whether the object can be encoded, whether the
      statement on the table runs, and whether the one on the query table does. A caller that
      gets an error rolls its transaction back. */
  datatype Writes = Writes(marshalOk: bool, execOk: bool, queryOk: bool)

  /** An object in memory, with the revision it was read at (0 when it was never stored). */
  class Object<T> {
    const id: ObjectID
    var revision: nat
    var data: T

    constructor (id: ObjectID, revision: nat, data: T)
      ensures this.id == id && this.revision == revision && this.data == data
    {
      this.id, this.revision, this.data := id, revision, data;
    }
  }

  /** A table of objects together with its query table. */
  class Table<T> {
    var rows: map<ObjectID, Row<T>>
    var queries: map<ObjectID, Row<T>>

    constructor ()
      ensures rows == map[] && Mirrored()
    {
      rows, queries := map[], map[];
    }

    /** The query table has the same rows as the table. */
    ghost predicate Mirrored()
      reads this
    {
      rows == queries
    }

    /** A new object is inserted with revision 1. When the write to the query table fails, the
        transaction is rolled back, but the object keeps that revision. */
    method Insert(v: Object<T>, w: Writes) returns (err: Option<DbError>)
      requires Mirrored()
      modifies this, v`revision
      ensures Mirrored() && queries == rows
      ensures err.None? <==> old(v.revision) == 0 && w.marshalOk && w.execOk && v.id !in old(rows) && w.queryOk
      ensures rows == if err.None? then old(rows)[v.id := Row(1, v.data)] else old(rows)
      ensures err.None? ==> v.revision == 1
      ensures err.Some? ==> (v.revision == old(v.revision) <==>
                               old(v.revision) != 0 || !w.marshalOk || !w.execOk || v.id in old(rows))
      ensures v.revision != old(v.revision) ==> v.revision == 1
    {
      if v.revision != 0 {
        return Some(BadRevision);
      }
      v.revision := 1;
      if !w.marshalOk {
        v.revision := 0;
        return Some(MarshalFailed);
      }
      if !w.execOk || v.id in rows {
        v.revision := 0;
        return Some(WriteFailed);
      }
      var rowsBefore := rows;
      rows := rows[v.id := Row(v.revision, v.data)];
      if !w.queryOk {
        rows := rowsBefore;
        return Some(QueryWriteFailed);
      }
      queries := queries[v.id := Row(v.revision, v.data)];
      return None;
    }

    /** The update takes place only on the revision that the object was read at. A failed one leaves the
        raised revision on the object when the object could not be encoded, and when the write to
        the query table failed after the row itself was written. */
    method Update(v: Object<T>, w: Writes) returns (err: Option<DbError>)
      requires Mirrored()
      modifies this, v`revision
      ensures Mirrored() && queries == rows
      ensures err.None? <==>
                               && old(v.revision) >= 1 && w.marshalOk && w.execOk && w.queryOk
                               && v.id in old(rows) && old(rows)[v.id].revision == old(v.revision)
      ensures rows == if err.None? then old(rows)[v.id := Row(old(v.revision) + 1, v.data)] else old(rows)
      ensures err.None? ==> v.revision == old(v.revision) + 1
      ensures err.Some? ==> (v.revision == old(v.revision) <==>
                               old(v.revision) == 0
                               || (w.marshalOk && !(w.execOk && v.id in old(rows) && old(rows)[v.id].revision == old(v.revision))))
      ensures v.revision != old(v.revision) ==> v.revision == old(v.revision) + 1
    {
      if v.revision < 1 {
        return Some(BadRevision);
      }
      var curRevision := v.revision;
      v.revision := v.revision + 1;
      if !w.marshalOk {
        return Some(MarshalFailed);
      }
      if !w.execOk {
        v.revision := curRevision;
        return Some(WriteFailed);
      }
      if !(v.id in rows && rows[v.id].revision == curRevision) {
        v.revision := curRevision;
        return Some(Concurrent);
      }
      var rowsBefore := rows;
      rows := rows[v.id := Row(v.revision, v.data)];
      if !w.queryOk {
        rows := rowsBefore;
        return Some(QueryWriteFailed);
      }
      queries := queries[v.id := Row(v.revision, v.data)];
      return None;
    }

    method InsertOrUpdate(v: Object<T>, w: Writes) returns (err: Option<DbError>)
      requires Mirrored()
      modifies this, v`revision
      ensures Mirrored() && queries == rows
      ensures err.None? <==> w.marshalOk && w.execOk && w.queryOk &&
                             if old(v.revision) == 0 then v.id !in old(rows) else v.id in old(rows) && old(rows)[v.id].revision == old(v.revision)
      ensures rows == if err.None? then old(rows)[v.id := Row(old(v.revision) + 1, v.data)] else old(rows)
      ensures v.revision == old(v.revision) || v.revision == old(v.revision) + 1
    {
      if v.revision == 0 {
        err := Insert(v, w);
      } else {
        err := Update(v, w);
      }
    }

    /** Deletes the row in both tables, or in none. */
    method Delete(id: ObjectID, w: Writes) returns (err: Option<DbError>)
      requires Mirrored()
      modifies this
      ensures Mirrored() && queries == rows
      ensures err.None? <==> w.execOk && w.queryOk
      ensures rows == if err.None? then old(rows) - {id} else old(rows)
    {
      if !w.execOk {
        return Some(WriteFailed);
      }
      if !w.queryOk {
        return Some(QueryWriteFailed);
      }
      rows := rows - {id};
      queries := queries - {id};
      return None;
    }
  }

  // ---------------------------------------------------------------- interleaved clients

  /** A transaction on the table. A write carries data computed from the state number `seen`. */
  datatype Op<T> = Create(id: ObjectID, data: T) | Write(id: ObjectID, seen: nat, data: T) | Remove(id: ObjectID)

  type Rows<T> = map<ObjectID, Row<T>>

  /** The write was prepared from a row with the revision that is stored now. */
  ghost predicate Applies<T(!new)>(b: seq<Rows<T>>, i: nat, op: Op<T>)
    requires i < |b|
  {
    match op
    case Create(id, _) => id !in b[i]
    case Write(id, seen, _) => seen <= i && id in b[seen] && id in b[i] && b[i][id].revision == b[seen][id].revision
    case Remove(_) => true
  }

  /** A transaction that does not apply fails and changes nothing. */
  ghost function Applied<T(!new)>(b: seq<Rows<T>>, i: nat, op: Op<T>): Rows<T>
    requires i < |b|
  {
    if !Applies(b, i, op) then b[i] else
    match op
    case Create(id, data) => b[i][id := Row(1, data)]
    case Write(id, _, data) => b[i][id := Row(b[i][id].revision + 1, data)]
    case Remove(id) => b[i] - {id}
  }

  ghost predicate History<T(!new)>(b: seq<Rows<T>>, ops: seq<Op<T>>) {
    |b| == |ops| + 1 && b[0] == map[] && forall i :: 0 <= i < |ops| ==> b[i + 1] == Applied(b, i, ops[i])
  }

  /** Ids are generated, so no id is created after it has existed. */
  ghost predicate IdsNotReused<T(!new)>(b: seq<Rows<T>>, ops: seq<Op<T>>) {
    |b| == |ops| + 1 && forall i, k :: 0 <= k <= i < |ops| && ops[i].Create? ==> ops[i].id !in b[k]
  }

  /** A row only gets newer, and the same revision means the same row. */
  ghost predicate RowMoves<T>(id: ObjectID, a: Rows<T>, c: Rows<T>) {
    id in a && id in c ==> a[id].revision <= c[id].revision && (a[id].revision == c[id].revision ==> a[id] == c[id])
  }

  lemma {:induction false} RowsMove<T(!new)>(b: seq<Rows<T>>, ops: seq<Op<T>>, id: ObjectID, k: nat, i: nat)
    requires History(b, ops) && IdsNotReused(b, ops) && k <= i < |b|
    ensures RowMoves(id, b[k], b[i])
    decreases i
  {
    if k < i {
      RowsMove(b, ops, id, k, i - 1);
      assert b[i] == Applied(b, i - 1, ops[i - 1]);
    }
  }

  /** Every successful update was computed from the row stored just before it, and raises the
      revision by one. */
  lemma UpdateChain<T(!new)>(b: seq<Rows<T>>, ops: seq<Op<T>>, i: nat)
    requires History(b, ops) && IdsNotReused(b, ops) && i < |ops| && ops[i].Write? && Applies(b, i, ops[i])
    ensures var id := ops[i].id;
            && b[ops[i].seen][id] == b[i][id]
            && b[i + 1] == b[i][id := Row(b[i][id].revision + 1, ops[i].data)]
  {
    RowsMove(b, ops, ops[i].id, ops[i].seen, i);
  }

  /** Without that, a row that was deleted and created again takes a write meant for the old one. */
  lemma ReusedIdBreaksTheChain()
    ensures var id := ObjectID("a");
            var b: seq<Rows<int>> := [map[], map[id := Row(1, 10)], map[], map[id := Row(1, 20)], map[id := Row(2, 11)]];
            var ops := [Create(id, 10), Remove(id), Create(id, 20), Write(id, 1, 11)];
            History(b, ops) && Applies(b, 3, ops[3]) && b[1][id] != b[3][id]
  {
    var id := ObjectID("a");
    var b: seq<Rows<int>> := [map[], map[id := Row(1, 10)], map[], map[id := Row(1, 20)], map[id := Row(2, 11)]];
    var ops := [Create(id, 10), Remove(id), Create(id, 20), Write(id, 1, 11)];
    assert b[1] - {id} == map[];
    assert b[0][id := Row(1, 10)] == b[1] && b[2][id := Row(1, 20)] == b[3] && b[3][id := Row(2, 11)] == b[4];
    forall i | 0 <= i < |ops| ensures b[i + 1] == Applied(b, i, ops[i]) { }
  }

  /** Clients that create a counter at 0 and write what they read plus one. */
  ghost predicate Counting(b: seq<Rows<int>>, ops: seq<Op<int>>) {
    && |b| == |ops| + 1
    && (forall i :: 0 <= i < |ops| && ops[i].Create? ==> ops[i].data == 0)
    && forall i :: 0 <= i < |ops| && ops[i].Write? && ops[i].seen <= i && ops[i].id in b[ops[i].seen] ==>
         ops[i].data == b[ops[i].seen][ops[i].id].data + 1
  }

  /** No increment is lost and none counts twice: a counter is the number of writes that went through. */
  lemma {:induction false} CountersCountWrites(b: seq<Rows<int>>, ops: seq<Op<int>>, id: ObjectID, n: nat)
    requires History(b, ops) && IdsNotReused(b, ops) && Counting(b, ops) && n < |b| && id in b[n]
    ensures b[n][id].data == b[n][id].revision - 1
    decreases n
  {
    if n > 0 {
      var op := ops[n - 1];
      assert b[n] == Applied(b, n - 1, op);
      if id in b[n - 1] { CountersCountWrites(b, ops, id, n - 1); }
      if op.Write? && Applies(b, n - 1, op) {
        UpdateChain(b, ops, n - 1);
      }
    }
  }
}
