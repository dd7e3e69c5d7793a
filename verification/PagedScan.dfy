/** The paged table scans of internal/db/export.go and internal/db/rebuild.go. */
module PagedScan {
  import opened RunTypes

  const MAX_QUERY_LIMIT := 100

  /** Ids are compared as the database orders them: character by character, a prefix first. */
  predicate Less(a: string, b: string) {
    if b == "" then false
    else if a == "" then true
    else a[0] < b[0] || (a[0] == b[0] && Less(a[1..], b[1..]))
  }

  datatype Row = Row(id: string, revision: nat, data: string)

  /** The first place where the two differ decides. */
  lemma {:induction false} LessMeans(a: string, b: string)
    ensures Less(a, b) <==> exists k :: 0 <= k <= |a| && k < |b| && a[..k] == b[..k] && (k == |a| || a[k] < b[k])
  {
    forall k | 0 < k <= |a| && k <= |b| && a[..k] == b[..k] ensures a[0] == b[0] {
      assert a[..k][0] == b[..k][0];
    }
    if a != "" && b != "" && a[0] == b[0] {
      var x, y := a[1..], b[1..];
      LessMeans(x, y);
      if Less(x, y) {
        var k :| 0 <= k <= |x| && k < |y| && x[..k] == y[..k] && (k == |x| || x[k] < y[k]);
        assert a[..k + 1] == [a[0]] + x[..k] && b[..k + 1] == [b[0]] + y[..k];
        assert k + 1 == |a| || a[k + 1] < b[k + 1];
      }
      if k :| 0 <= k <= |a| && k < |b| && a[..k] == b[..k] && (k == |a| || a[k] < b[k]) {
        assert k > 0;
        assert x[..k - 1] == a[..k][1..] && y[..k - 1] == b[..k][1..];
        assert k - 1 == |x| || x[k - 1] < y[k - 1];
      }
    } else if Less(a, b) {
      assert a[..0] == b[..0];
    }
  }

  lemma {:induction false} LessTrans(a: string, b: string, c: string)
    requires Less(a, b) && Less(b, c)
    ensures Less(a, c)
  {
    if a != "" && a[0] == b[0] == c[0] { LessTrans(a[1..], b[1..], c[1..]); }
  }

  lemma {:induction false} LessTotal(a: string, b: string)
    ensures a == b || Less(a, b) || Less(b, a)
    ensures !(Less(a, b) && Less(b, a)) && !Less(a, a)
  {
    if a != "" && b != "" && a[0] == b[0] {
      LessTotal(a[1..], b[1..]);
      assert a == [a[0]] + a[1..] && b == [b[0]] + b[1..];
    }
    if a != "" { LessTotal(a[1..], a[1..]); }
  }

  // ---------------------------------------------------------------- ordering

  function InsertRow(r: Row, sorted: seq<Row>): seq<Row> {
    if sorted == [] || Less(r.id, sorted[0].id) then [r] + sorted else [sorted[0]] + InsertRow(r, sorted[1..])
  }

  /** The rows in the order of their ids ("order by id asc"). */
  function OrderById(rows: seq<Row>): seq<Row> {
    if rows == [] then [] else InsertRow(rows[0], OrderById(rows[1..]))
  }

  ghost predicate Ascending(rows: seq<Row>) {
    forall i, j :: 0 <= i < j < |rows| ==> Less(rows[i].id, rows[j].id)
  }

  ghost predicate DistinctIds(rows: seq<Row>) {
    forall i, j :: 0 <= i < j < |rows| ==> rows[i].id != rows[j].id
  }

  lemma {:induction false} InsertPermutes(r: Row, sorted: seq<Row>)
    ensures multiset(InsertRow(r, sorted)) == multiset{r} + multiset(sorted)
  {
    hide Less;
    if sorted != [] {
      InsertPermutes(r, sorted[1..]);
      assert sorted == [sorted[0]] + sorted[1..];
    }
  }

  lemma {:induction false} InsertHas(r: Row, sorted: seq<Row>)
    ensures forall x :: x in InsertRow(r, sorted) <==> x == r || x in sorted
  {
    hide Less;
    if sorted != [] {
      InsertHas(r, sorted[1..]);
      assert sorted == [sorted[0]] + sorted[1..];
    }
  }

  lemma AscendingCons(r: Row, rest: seq<Row>)
    requires Ascending(rest) && forall x :: x in rest ==> Less(r.id, x.id)
    ensures Ascending([r] + rest)
  {
    hide Less;
  }

  lemma AscendingTail(rows: seq<Row>)
    requires Ascending(rows) && rows != []
    ensures Ascending(rows[1..]) && forall x :: x in rows[1..] ==> Less(rows[0].id, x.id)
  {
    hide Less;
  }

  lemma {:induction false} InsertAscends(r: Row, sorted: seq<Row>)
    requires Ascending(sorted) && forall x :: x in sorted ==> x.id != r.id
    ensures Ascending(InsertRow(r, sorted))
  {
    if sorted != [] {
      hide Less, Ascending;
      var first, rest := sorted[0], sorted[1..];
      assert sorted == [first] + rest;
      AscendingTail(sorted);
      LessTotal(r.id, first.id);
      if Less(r.id, first.id) {
        forall x | x in sorted ensures Less(r.id, x.id) {
          if x in rest { LessTrans(r.id, first.id, x.id); }
        }
        AscendingCons(r, sorted);
      } else {
        InsertAscends(r, rest);
        InsertHas(r, rest);
        AscendingCons(first, InsertRow(r, rest));
      }
    } else {
      assert InsertRow(r, sorted) == [r];
    }
  }

  lemma {:induction false} OrderPermutes(rows: seq<Row>)
    ensures multiset(OrderById(rows)) == multiset(rows)
    ensures forall x :: x in OrderById(rows) <==> x in rows
  {
    hide InsertRow;
    if rows != [] {
      OrderPermutes(rows[1..]);
      InsertPermutes(rows[0], OrderById(rows[1..]));
      InsertHas(rows[0], OrderById(rows[1..]));
      assert rows == [rows[0]] + rows[1..];
    }
  }

  lemma {:induction false} OrderAscends(rows: seq<Row>)
    requires DistinctIds(rows)
    ensures Ascending(OrderById(rows))
  {
    hide InsertRow, Less;
    if rows != [] {
      OrderAscends(rows[1..]);
      OrderPermutes(rows[1..]);
      forall x | x in OrderById(rows[1..]) ensures x.id != rows[0].id {
        var k: nat :| k < |rows[1..]| && rows[1..][k] == x;
        assert rows[k + 1] == x;
      }
      InsertAscends(rows[0], OrderById(rows[1..]));
    }
  }

  // ---------------------------------------------------------------- one query

  /** The rows of a list whose id is greater than `cur`. */
  function Where(rows: seq<Row>, cur: string): seq<Row> {
    if rows == [] then []
    else (if Less(cur, rows[0].id) then [rows[0]] else []) + Where(rows[1..], cur)
  }

  function Take(rows: seq<Row>, limit: nat): seq<Row> {
    if |rows| <= limit then rows else rows[..limit]
  }

  /** "select ... where id > cur order by id asc limit limit", however the rows are stored. */
  function Query(rows: seq<Row>, cur: string, limit: nat): seq<Row> {
    Take(Where(OrderById(rows), cur), limit)
  }

  /** In an ascending list, the rows greater than one of its ids are the ones behind it. */
  lemma {:induction false} WhereBehind(rows: seq<Row>, cur: string, k: nat)
    requires k <= |rows|
    requires forall i :: 0 <= i < k ==> !Less(cur, rows[i].id)
    requires forall i :: k <= i < |rows| ==> Less(cur, rows[i].id)
    ensures Where(rows, cur) == rows[k..]
    decreases |rows|
  {
    hide Less;
    if rows != [] {
      WhereBehind(rows[1..], cur, if k == 0 then 0 else k - 1);
    }
  }

  /** The rows with an id, in order: what the scan has to visit. */
  function Wanted(rows: seq<Row>): seq<Row> {
    Where(OrderById(rows), "")
  }

  /** At most one row has the empty id, and it comes first. */
  lemma WantedIsSuffix(rows: seq<Row>) returns (m: nat)
    requires DistinctIds(rows)
    ensures m <= |OrderById(rows)| && m <= 1
    ensures Wanted(rows) == OrderById(rows)[m..]
    ensures forall i :: 0 <= i < m ==> OrderById(rows)[i].id == ""
    ensures forall i :: m <= i < |OrderById(rows)| ==> OrderById(rows)[i].id != ""
    ensures Ascending(OrderById(rows))
  {
    hide InsertRow, OrderById, Where;
    var all := OrderById(rows);
    OrderAscends(rows);
    m := if all != [] && all[0].id == "" then 1 else 0;
    forall i | m <= i < |all| ensures all[i].id != "" {
      if i > 0 { assert Less(all[0].id, all[i].id); }
    }
    WhereBehind(all, "", m);
  }

  lemma WantedAscends(rows: seq<Row>)
    requires DistinctIds(rows)
    ensures Ascending(Wanted(rows)) && DistinctIds(Wanted(rows))
    ensures forall r :: r in Wanted(rows) <==> r in rows && r.id != ""
  {
    hide InsertRow, OrderById, Where, Wanted, Less;
    var all, w := OrderById(rows), Wanted(rows);
    var m := WantedIsSuffix(rows);
    OrderPermutes(rows);
    assert all == all[..m] + w;
    assert forall i :: 0 <= i < |w| ==> w[i] == all[m + i];
    forall i, j | 0 <= i < j < |w| ensures Less(w[i].id, w[j].id) && w[i].id != w[j].id {
      LessTotal(w[i].id, w[j].id);
    }
  }

  /** Behind the k-th wanted row the table holds exactly the wanted rows from k on. */
  lemma WantedBehind(rows: seq<Row>, k: nat)
    requires DistinctIds(rows) && 0 < k <= |Wanted(rows)|
    ensures Where(OrderById(rows), Wanted(rows)[k - 1].id) == Wanted(rows)[k..]
  {
    hide InsertRow, OrderById, Where, Wanted, Less;
    var all := OrderById(rows);
    var m := WantedIsSuffix(rows);
    assert Wanted(rows)[k - 1] == all[m + k - 1];
    var cur := all[m + k - 1].id;
    forall i | 0 <= i < m + k ensures !Less(cur, all[i].id) { LessTotal(cur, all[i].id); }
    WhereBehind(all, cur, m + k);
  }

  lemma ScanStart(rows: seq<Row>)
    ensures Where(OrderById(rows), "") == Wanted(rows) == Wanted(rows)[0..]
    ensures Wanted(rows)[..0] == []
  {
  }

  /** One page: it holds the next wanted rows, a short page is the last one, and behind a full page
      the scan goes on with the rows it has not seen. */
  lemma PageStep(rows: seq<Row>, cur: string, limit: nat, k: nat)
    requires DistinctIds(rows) && limit > 0 && k <= |Wanted(rows)|
    requires Where(OrderById(rows), cur) == Wanted(rows)[k..]
    ensures var n := |Query(rows, cur, limit)|;
            && k + n <= |Wanted(rows)|
            && Query(rows, cur, limit) == Wanted(rows)[k..k + n]
            && Wanted(rows)[..k] + Query(rows, cur, limit) == Wanted(rows)[..k + n]
            && (n < limit ==> Wanted(rows)[..k + n] == Wanted(rows))
            && (n >= limit ==> n > 0 && Where(OrderById(rows), Query(rows, cur, limit)[n - 1].id) == Wanted(rows)[k + n..])
  {
    hide InsertRow, OrderById, Where, Wanted, Less, Ascending, DistinctIds;
    var n := |Query(rows, cur, limit)|;
    assert Query(rows, cur, limit) == Wanted(rows)[k..k + n];
    if n > 0 { WantedBehind(rows, k + n); }
  }

  // ---------------------------------------------------------------- export

  function Lines(rows: seq<Row>): string {
    if rows == [] then "" else rows[0].data + "\n" + Lines(rows[1..])
  }

  lemma {:induction false} LinesAppend(a: seq<Row>, b: seq<Row>)
    ensures Lines(a + b) == Lines(a) + Lines(b)
  {
    if a == [] {
      assert a + b == b;
    } else {
      hide Lines;
      LinesAppend(a[1..], b);
      LinesSplit(a);
      LinesSplit(a + b);
      assert (a + b)[1..] == a[1..] + b;
      Associative(a[0].data + "\n", Lines(a[1..]), Lines(b));
    }
  }

  lemma Associative(x: string, y: string, z: string)
    ensures x + (y + z) == (x + y) + z
  {
  }

  lemma LinesSplit(rows: seq<Row>)
    requires rows != []
    ensures Lines(rows) == (rows[0].data + "\n") + Lines(rows[1..])
  {
  }

  /** Each row gives one line of its data. */
  lemma LinesMean(rows: seq<Row>, r: Row)
    ensures Lines([]) == "" && Lines(rows + [r]) == Lines(rows) + r.data + "\n"
  {
    LinesAppend(rows, [r]);
    OneLine(r);
  }

  method WritePage(datas: seq<Row>) returns (out: string, lastID: string)
    ensures out == Lines(datas)
    ensures datas != [] ==> lastID == datas[|datas| - 1].id
  {
    out, lastID := "", "";
    for i := 0 to |datas|
      invariant out == Lines(datas[..i]) && (i > 0 ==> lastID == datas[i - 1].id)
    {
      hide Lines;
      assert datas[..i + 1] == datas[..i] + [datas[i]];
      LinesAppend(datas[..i], [datas[i]]);
      OneLine(datas[i]);
      out := out + (datas[i].data + "\n");
      lastID := datas[i].id;
    }
    assert datas[..|datas|] == datas;
  }

  lemma NoLines()
    ensures Lines([]) == ""
  {
  }

  lemma OneLine(r: Row)
    ensures Lines([r]) == r.data + "\n"
  {
    assert [r][1..] == [];
  }

  /** Writes every row with an id once, in ascending order of the ids, page by page. The loop ends,
      also when the number of rows is a multiple of the page size. */
  method ExportTable(rows: seq<Row>, limit: nat) returns (out: string)
    requires DistinctIds(rows) && limit > 0
    ensures out == Lines(Wanted(rows))
  {
    hide *;
    NoLines();
    ScanStart(rows);
    out := "";
    var curStartID := "";
    ghost var k: nat := 0;
    while true
      invariant k <= |Wanted(rows)| && out == Lines(Wanted(rows)[..k])
      invariant Where(OrderById(rows), curStartID) == Wanted(rows)[k..]
      decreases |Wanted(rows)| - k
    {
      var datas := Query(rows, curStartID, limit);
      PageStep(rows, curStartID, limit, k);
      LinesAppend(Wanted(rows)[..k], datas);
      var page, lastID := WritePage(datas);
      out := out + page;
      k := k + |datas|;
      if |datas| < limit {
        break;
      }
      curStartID := lastID;
    }
  }

  function AllLines(tables: seq<seq<Row>>): string {
    if tables == [] then "" else AllLines(tables[..|tables| - 1]) + Lines(Wanted(tables[|tables| - 1]))
  }

  /** Export: all tables, one after the other. */
  method Export(tables: seq<seq<Row>>) returns (out: string)
    requires forall i :: 0 <= i < |tables| ==> DistinctIds(tables[i])
    ensures out == AllLines(tables)
  {
    out := "";
    for i := 0 to |tables|
      invariant out == AllLines(tables[..i])
    {
      var part := ExportTable(tables[i], MAX_QUERY_LIMIT);
      assert tables[..i + 1][..i] == tables[..i];
      out := out + part;
    }
    assert tables[..|tables|] == tables;
  }

  // ---------------------------------------------------------------- rebuild

  datatype Entry = Entry(revision: nat, data: string)

  type QueryTable = map<string, Entry>

  function EntryOf(r: Row): Entry {
    Entry(r.revision, r.data)
  }

  /** A decoder gives the id of the object that some data encodes, or nothing when it cannot be
      decoded. The query table is keyed by this id, not by the id column. */
  type Decoder = string -> Option<string>

  /** A query table holds exactly one entry for each of the rows, and nothing else. */
  ghost predicate Mirrors(q: QueryTable, rows: seq<Row>, decode: Decoder) {
    && |q| == |rows|
    && (forall r :: r in rows ==> decode(r.data).Some? && decode(r.data).value in q && q[decode(r.data).value] == EntryOf(r))
    && (forall id :: id in q ==> exists r :: r in rows && decode(r.data) == Some(id))
  }

  /** All rows can be inserted one after the other: they decode, to different ids. */
  ghost predicate Inserts(rows: seq<Row>, decode: Decoder) {
    && (forall i :: 0 <= i < |rows| ==> decode(rows[i].data).Some?)
    && forall i, j :: 0 <= i < j < |rows| ==> decode(rows[i].data) != decode(rows[j].data)
  }

  lemma InsertsOneMore(q: QueryTable, rows: seq<Row>, r: Row, decode: Decoder)
    requires Mirrors(q, rows, decode) && Inserts(rows, decode)
    ensures Inserts(rows + [r], decode) <==> decode(r.data).Some? && decode(r.data).value !in q
  {
    var all := rows + [r];
    if Inserts(all, decode) {
      assert all[|rows|] == r;
      forall x | x in rows ensures decode(x.data) != decode(r.data) {
        var i: nat :| i < |rows| && rows[i] == x;
        assert all[i] == x;
      }
    }
  }

  lemma MirrorsOneMore(q: QueryTable, rows: seq<Row>, r: Row, decode: Decoder)
    requires Mirrors(q, rows, decode) && decode(r.data).Some? && decode(r.data).value !in q
    ensures Mirrors(q[decode(r.data).value := EntryOf(r)], rows + [r], decode)
  {
    var q' := q[decode(r.data).value := EntryOf(r)];
    forall id | id in q' ensures exists x :: x in rows + [r] && decode(x.data) == Some(id) {
      if id in q {
        var x :| x in rows && decode(x.data) == Some(id);
        assert x in rows + [r];
      } else {
        assert r in rows + [r];
      }
    }
  }

  lemma MirrorsUnique(q: QueryTable, q': QueryTable, rows: seq<Row>, decode: Decoder)
    requires Mirrors(q, rows, decode) && Mirrors(q', rows, decode)
    ensures q == q'
  {
    assert forall id :: id in q ==> id in q' && q[id] == q'[id];
    assert forall id :: id in q' ==> id in q;
  }

  lemma InsertsPrefix(rows: seq<Row>, n: nat, decode: Decoder)
    requires n <= |rows| && Inserts(rows, decode)
    ensures Inserts(rows[..n], decode)
  {
  }

  /** Inserting an object into a fresh query table; the id is its primary key. */
  method InsertObjectQ(q: QueryTable, id: string, r: Row) returns (ok: bool, q': QueryTable)
    ensures ok <==> id !in q
    ensures q' == if ok then q[id := EntryOf(r)] else q
  {
    ok := id !in q;
    q' := if ok then q[id := EntryOf(r)] else q;
  }

  /** Inserts the rows from k on of a list whose first k rows are mirrored already. */
  method InsertPage(q0: QueryTable, ghost all: seq<Row>, ghost k: nat, datas: seq<Row>, decode: Decoder)
      returns (ok: bool, q: QueryTable, lastID: string)
    requires k + |datas| <= |all| && datas == all[k..k + |datas|]
    requires Mirrors(q0, all[..k], decode) && Inserts(all[..k], decode)
    ensures ok <==> Inserts(all[..k + |datas|], decode)
    ensures ok ==> Mirrors(q, all[..k + |datas|], decode)
    ensures ok && datas != [] ==> lastID == datas[|datas| - 1].id
  {
    hide *;
    q, lastID := q0, "";
    assert all[..k + 0] == all[..k];
    for i := 0 to |datas|
      invariant Mirrors(q, all[..k + i], decode) && (i > 0 ==> lastID == datas[i - 1].id)
      invariant Inserts(all[..k + i], decode)
    {
      assert datas[i] == all[k + i] && all[..k + i + 1] == all[..k + i] + [all[k + i]];
      InsertsOneMore(q, all[..k + i], all[k + i], decode);
      PrefixFails(all, k + i + 1, k + |datas|, decode);
      var obj := decode(datas[i].data);
      if obj.None? {
        return false, q, lastID;
      }
      if obj.value !in q { MirrorsOneMore(q, all[..k + i], all[k + i], decode); }
      ok, q := InsertObjectQ(q, obj.value, datas[i]);
      if !ok {
        return;
      }
      lastID := datas[i].id;
    }
    ok := true;
  }

  lemma PrefixFails(all: seq<Row>, n: nat, m: nat, decode: Decoder)
    requires n <= m <= |all|
    ensures Inserts(all[..m], decode) ==> Inserts(all[..n], decode)
  {
    assert all[..m][..n] == all[..n];
    if Inserts(all[..m], decode) { InsertsPrefix(all[..m], n, decode); }
  }

  /** Fills a dropped query table from the table. The rebuild succeeds exactly when all rows decode,
      to different ids; its result is then determined. */
  method RebuildTable(rows: seq<Row>, limit: nat, decode: Decoder) returns (ok: bool, q: QueryTable)
    requires DistinctIds(rows) && limit > 0
    ensures ok <==> Inserts(Wanted(rows), decode)
    ensures ok ==> Mirrors(q, Wanted(rows), decode) && forall other :: Mirrors(other, Wanted(rows), decode) ==> other == q
    ensures ok <==>
            && (forall r :: r in rows && r.id != "" ==> decode(r.data).Some?)
            && forall r, s :: r in rows && s in rows && r.id != "" && s.id != "" && decode(r.data) == decode(s.data) ==> r == s
    ensures ok ==>
              && (forall id :: id in q <==> exists r :: r in rows && r.id != "" && decode(r.data) == Some(id))
              && forall r :: r in rows && r.id != "" ==>
                   decode(r.data).Some? && decode(r.data).value in q && q[decode(r.data).value] == Entry(r.revision, r.data)
  {
    hide Wanted, Inserts, Mirrors, Where, OrderById;
    WantedAscends(rows);
    InsertsMeans(Wanted(rows), decode);
    ok, q := RebuildPages(rows, limit, decode);
    if ok { MirrorsMeans(q, Wanted(rows), decode); }
  }

  /** Page by page. */
  method RebuildPages(rows: seq<Row>, limit: nat, decode: Decoder) returns (ok: bool, q: QueryTable)
    requires DistinctIds(rows) && limit > 0
    ensures ok <==> Inserts(Wanted(rows), decode)
    ensures ok ==> Mirrors(q, Wanted(rows), decode) && forall other :: Mirrors(other, Wanted(rows), decode) ==> other == q
  {
    hide *;
    NoRows(decode);
    ScanStart(rows);
    q := map[];
    var curStartID := "";
    ghost var k: nat := 0;
    while true
      invariant k <= |Wanted(rows)| && Mirrors(q, Wanted(rows)[..k], decode) && Inserts(Wanted(rows)[..k], decode)
      invariant Where(OrderById(rows), curStartID) == Wanted(rows)[k..]
      decreases |Wanted(rows)| - k
    {
      var datas := Query(rows, curStartID, limit);
      PageStep(rows, curStartID, limit, k);
      PrefixFails(Wanted(rows), k + |datas|, |Wanted(rows)|, decode);
      assert Wanted(rows)[..|Wanted(rows)|] == Wanted(rows);
      var lastID;
      ok, q, lastID := InsertPage(q, Wanted(rows), k, datas, decode);
      if !ok {
        return;
      }
      k := k + |datas|;
      if |datas| < limit {
        break;
      }
      curStartID := lastID;
    }
    ok := true;
    forall other | Mirrors(other, Wanted(rows), decode) ensures other == q {
      MirrorsUnique(other, q, Wanted(rows), decode);
    }
  }

  lemma DecodedOnce(rows: seq<Row>, decode: Decoder, i: nat, j: nat)
    requires Inserts(rows, decode) && i < |rows| && j < |rows| && decode(rows[i].data) == decode(rows[j].data)
    ensures i == j
  {
  }

  lemma InsertsMeans(rows: seq<Row>, decode: Decoder)
    requires DistinctIds(rows)
    ensures Inserts(rows, decode) <==>
            && (forall r :: r in rows ==> decode(r.data).Some?)
            && forall r, s :: r in rows && s in rows && decode(r.data) == decode(s.data) ==> r == s
  {
    if Inserts(rows, decode) {
      forall r, s | r in rows && s in rows && decode(r.data) == decode(s.data) ensures r == s {
        var i: nat, j: nat :| i < |rows| && j < |rows| && rows[i] == r && rows[j] == s;
        DecodedOnce(rows, decode, i, j);
      }
    }
  }

  lemma MirrorsMeans(q: QueryTable, rows: seq<Row>, decode: Decoder)
    requires Mirrors(q, rows, decode)
    ensures forall id :: id in q <==> exists r :: r in rows && decode(r.data) == Some(id)
    ensures forall r :: r in rows ==> decode(r.data).Some? && decode(r.data).value in q && q[decode(r.data).value] == Entry(r.revision, r.data)
  {
  }

  lemma NoRows(decode: Decoder)
    ensures Inserts([], decode) && Mirrors(map[], [], decode)
  {
  }

  // ---------------------------------------------------------------- the scan is complete

  /** The scan visits every row once, and leaves out exactly the row with the empty id, if there is one. */
  lemma ScanVisitsAll(rows: seq<Row>)
    requires DistinctIds(rows)
    ensures Ascending(Wanted(rows))
    ensures forall r :: r in Wanted(rows) <==> r in rows && r.id != ""
    ensures multiset(Wanted(rows)) == multiset(rows) <==> forall r :: r in rows ==> r.id != ""
  {
    hide *;
    WantedAscends(rows);
    if forall r :: r in rows ==> r.id != "" {
      AllWanted(rows);
    } else {
      var r :| r in rows && r.id == "";
      assert r in multiset(rows) && r !in multiset(Wanted(rows));
    }
  }

  lemma AllWanted(rows: seq<Row>)
    requires DistinctIds(rows) && forall r :: r in rows ==> r.id != ""
    ensures multiset(Wanted(rows)) == multiset(rows) && |Wanted(rows)| == |rows|
  {
    hide InsertRow, OrderById, Where, Wanted, Less, Ascending;
    var all := OrderById(rows);
    OrderPermutes(rows);
    var m := WantedIsSuffix(rows);
    assert |all| > 0 ==> all[0] in rows && all[0].id != "";
    assert m == 0;
    assert all[m..] == all;
    assert |multiset(all)| == |multiset(rows)|;
  }

  /** Two rows with different ids whose data holds the same id stop a rebuild. */
  lemma RebuildClash(decode: Decoder)
    requires decode("x") == Some("x")
    ensures var rows := [Row("a", 1, "x"), Row("b", 1, "x")];
            DistinctIds(rows) && !Inserts(Wanted(rows), decode)
  {
    hide InsertRow, OrderById, Where, Wanted, Less, Ascending;
    var rows := [Row("a", 1, "x"), Row("b", 1, "x")];
    var w := Wanted(rows);
    assert "a" != "b" by { assert "a"[0] != "b"[0]; }
    AllWanted(rows);
    WantedAscends(rows);
    assert w[0] in rows && w[1] in rows;
  }

  /** Data that decodes holds the id of its row: this is what the generated inserts and updates write. */
  ghost predicate OwnIds(rows: seq<Row>, decode: Decoder) {
    forall r :: r in rows && decode(r.data).Some? ==> decode(r.data).value == r.id
  }

  /** Then no insert ever clashes: the rebuild succeeds exactly when all data can be decoded. */
  lemma OwnIdsNeverClash(rows: seq<Row>, decode: Decoder)
    requires DistinctIds(rows) && OwnIds(rows, decode)
    ensures Inserts(Wanted(rows), decode) <==> forall r :: r in rows && r.id != "" ==> decode(r.data).Some?
  {
    hide InsertRow, OrderById, Where, Wanted, Less, Ascending;
    WantedAscends(rows);
    var w := Wanted(rows);
    assert forall i :: 0 <= i < |w| ==> w[i] in rows;
  }

  /** One entry under the id of each row, and nothing else. */
  ghost predicate OnePerRow(q: QueryTable, rows: seq<Row>) {
    && |q| == |rows|
    && (forall r :: r in rows ==> r.id in q && q[r.id] == EntryOf(r))
    && (forall id :: id in q ==> exists r :: r in rows && r.id == id)
  }

  /** With unique non-empty ids and data that decodes, the rebuilt query table has exactly one entry per row. */
  lemma RebuiltIsOnePerRow(rows: seq<Row>, q: QueryTable, decode: Decoder)
    requires DistinctIds(rows) && OwnIds(rows, decode) && forall r :: r in rows ==> r.id != "" && decode(r.data).Some?
    ensures Inserts(Wanted(rows), decode)
    ensures Mirrors(q, Wanted(rows), decode) <==> OnePerRow(q, rows)
  {
    hide InsertRow, OrderById, Where, Wanted, Less, Ascending, Mirrors, OnePerRow;
    OwnIdsNeverClash(rows, decode);
    AllWanted(rows);
    WantedAscends(rows);
    SameRows(q, Wanted(rows), rows, decode);
  }

  lemma SameRows(q: QueryTable, w: seq<Row>, rows: seq<Row>, decode: Decoder)
    requires |w| == |rows| && (forall r :: r in w <==> r in rows) && forall r :: r in rows ==> decode(r.data) == Some(r.id)
    ensures Mirrors(q, w, decode) <==> OnePerRow(q, rows)
  {
    if Mirrors(q, w, decode) {
      forall id | id in q ensures exists r :: r in rows && r.id == id {
        var r :| r in w && decode(r.data) == Some(id);
        assert r in rows;
      }
    }
    if OnePerRow(q, rows) {
      forall id | id in q ensures exists r :: r in w && decode(r.data) == Some(id) {
        var r :| r in rows && r.id == id;
        assert r in w;
      }
    }
  }
}
