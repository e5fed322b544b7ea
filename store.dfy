/** The `surat` table as the screens see it through their SQL statements:
    a map from the auto-increment `id` to the other columns, with
    select-by-category ordered by `id DESC`, insert with a fresh id,
    update-by-id, delete-by-id and the per-category row count behind
    `COUNT(*) ... GROUP BY kategori`. */
module Store {
  import opened Wrappers

  /** The columns of a `surat` row other than `id`. `nomor_surat` and
      `asal_surat` may be NULL (a general document supplies neither). */
  datatype Record = Record(
    nomor: Option<string>,
    judul: string,
    asal: Option<string>,
    kategori: string,
    tanggal: string,
    filePath: string)

  /** One tuple of `SELECT id, nomor_surat, judul_surat, asal_surat,
      tanggal, file_path` (positions 0 to 5). */
  datatype Row = Row(
    id: int,
    nomor: Option<string>,
    judul: string,
    asal: Option<string>,
    tanggal: string,
    filePath: string)

  /** The table and its AUTO_INCREMENT counter. */
  datatype Table = Table(rows: map<int, Record>, nextId: int)

  const Masuk: string := "masuk"
  const Keluar: string := "keluar"
  const Dokumen: string := "dokumen"

  /** Every id in use is positive and below the counter. */
  predicate ValidTable(t: Table)
  {
    t.nextId >= 1 && forall id :: id in t.rows ==> 1 <= id < t.nextId
  }

  function ToRow(id: int, r: Record): Row
  {
    Row(id, r.nomor, r.judul, r.asal, r.tanggal, r.filePath)
  }

  /** The ids of the rows whose `kategori` is `k`. */
  function CategoryIds(t: Table, k: string): set<int>
  {
    set id | id in t.rows && t.rows[id].kategori == k
  }

  /** `COUNT(*)` of one category. */
  function CountCategory(t: Table, k: string): nat
  {
    |CategoryIds(t, k)|
  }

  /** Ids strictly decrease along the sequence (`ORDER BY id DESC` over a
      primary key). */
  predicate DescendingIds(rs: seq<Row>)
  {
    forall i, j :: 0 <= i < j < |rs| ==> rs[i].id > rs[j].id
  }

  predicate IsMax(s: set<int>, m: int)
  {
    m in s && forall y :: y in s ==> y <= m
  }

  lemma Pick(s: set<int>) returns (a: int)
    requires s != {}
    ensures a in s
  {
    if forall z :: z !in s {
      assert false;
    }
    a :| a in s;
  }

  lemma {:induction false} MaxExists(s: set<int>)
    requires |s| > 0
    ensures exists m :: IsMax(s, m)
    decreases |s|
  {
    var a := Pick(s);
    var rest := s - {a};
    if |rest| == 0 {
      forall y | y in s ensures y <= a {
        assert y !in rest;
      }
      assert IsMax(s, a);
    } else {
      assert |rest| < |s|;
      MaxExists(rest);
      var m :| IsMax(rest, m);
      var top := if a > m then a else m;
      forall y | y in s ensures y <= top {
        if y != a { assert y in rest; }
      }
      assert IsMax(s, top);
    }
  }

  function MaxOf(s: set<int>): (m: int)
    requires |s| > 0
    ensures IsMax(s, m)
  {
    MaxExists(s);
    var m :| IsMax(s, m);
    m
  }

  /** The ids of `s`, largest first. */
  function IdsDescending(s: set<int>): (r: seq<int>)
    ensures |r| == |s|
    ensures forall x :: x in r <==> x in s
    ensures forall i, j :: 0 <= i < j < |r| ==> r[i] > r[j]
    decreases |s|
  {
    if |s| == 0 then []
    else
      var m := MaxOf(s);
      var rest := IdsDescending(s - {m});
      assert forall x :: x in rest ==> x < m;
      assert forall x :: x in s ==> x == m || x in s - {m};
      [m] + rest
  }

  /** The rows of the given ids, in the given order. */
  function RowsOf(t: Table, ids: seq<int>): (r: seq<Row>)
    requires forall i :: 0 <= i < |ids| ==> ids[i] in t.rows
    ensures |r| == |ids|
    ensures forall i :: 0 <= i < |ids| ==> r[i] == ToRow(ids[i], t.rows[ids[i]])
  {
    if ids == [] then [] else [ToRow(ids[0], t.rows[ids[0]])] + RowsOf(t, ids[1..])
  }

  /** `SELECT ... WHERE kategori=k ORDER BY id DESC`. */
  function SelectByCategory(t: Table, k: string): (r: seq<Row>)
    ensures DescendingIds(r)
    ensures |r| == CountCategory(t, k)
  {
    var ids := IdsDescending(CategoryIds(t, k));
    assert forall i :: 0 <= i < |ids| ==> ids[i] in CategoryIds(t, k);
    var r := RowsOf(t, ids);
    assert forall i :: 0 <= i < |r| ==> r[i].id == ids[i];
    r
  }

  /** Each selected row is the row of an id of that category. */
  lemma SelectAt(t: Table, k: string, i: int)
    requires 0 <= i < |SelectByCategory(t, k)|
    ensures var row := SelectByCategory(t, k)[i];
      row.id in t.rows && t.rows[row.id].kategori == k && row == ToRow(row.id, t.rows[row.id])
  {
    var ids := IdsDescending(CategoryIds(t, k));
    assert ids[i] in CategoryIds(t, k);
  }

  /** Each id of that category has its row somewhere in the select. */
  lemma SelectIndexOf(t: Table, k: string, id: int) returns (i: int)
    requires id in t.rows && t.rows[id].kategori == k
    ensures 0 <= i < |SelectByCategory(t, k)| && SelectByCategory(t, k)[i] == ToRow(id, t.rows[id])
  {
    var ids := IdsDescending(CategoryIds(t, k));
    assert id in CategoryIds(t, k);
    i :| 0 <= i < |ids| && ids[i] == id;
  }

  /** A row is selected exactly when it is the row of an id of that
      category: the select misses no row of the category and invents none. */
  lemma SelectMembership(t: Table, k: string, row: Row)
    ensures row in SelectByCategory(t, k)
        <==> row.id in t.rows && t.rows[row.id].kategori == k && row == ToRow(row.id, t.rows[row.id])
  {
    var r := SelectByCategory(t, k);
    if row.id in t.rows && t.rows[row.id].kategori == k && row == ToRow(row.id, t.rows[row.id]) {
      var i := SelectIndexOf(t, k, row.id);
    }
    if row in r {
      var i :| 0 <= i < |r| && r[i] == row;
      SelectAt(t, k, i);
    }
  }

  /** Two id-descending row lists with the same rows are the same list:
      the order of a select is determined by its contents. */
  lemma {:induction false} DescendingUnique(a: seq<Row>, b: seq<Row>)
    requires DescendingIds(a) && DescendingIds(b)
    requires forall r :: r in a <==> r in b
    ensures a == b
  {
    assert b == [] || b[0] in b;
    if a != [] {
      assert a[0] in b;
      assert b != [];
      assert b[0] in a;
      var i :| 0 <= i < |a| && a[i] == b[0];
      var j :| 0 <= j < |b| && b[j] == a[0];
      assert a[0].id >= b[0].id && b[0].id >= a[0].id;
      assert j == 0;
      forall r
        ensures r in a[1..] <==> r in b[1..]
      {
        assert r in a[1..] <==> r in a && r != a[0];
        assert r in b[1..] <==> r in b && r != b[0];
      }
      DescendingUnique(a[1..], b[1..]);
    }
  }

  // ---------------------------------------------------------------------
  // Statements that change the table

  /** `INSERT INTO surat (...) VALUES (...)`: the row gets the next
      auto-increment id, which no row uses yet. */
  function Insert(t: Table, rec: Record): (r: Table)
    requires ValidTable(t)
    ensures ValidTable(r)
    ensures t.nextId !in t.rows && t.nextId in r.rows && r.rows[t.nextId] == rec
    ensures r.rows.Keys == t.rows.Keys + {t.nextId}
    ensures forall id :: id in t.rows ==> r.rows[id] == t.rows[id]
  {
    Table(t.rows[t.nextId := rec], t.nextId + 1)
  }

  /** The values an `UPDATE ... WHERE id=%s` writes. */
  datatype Fields = Fields(nomor: string, judul: string, asal: string, tanggal: string, filePath: string)

  /** `UPDATE surat SET nomor_surat, judul_surat, asal_surat, tanggal,
      file_path WHERE id=%s`: only that row changes, and in it only those
      five columns; an absent id changes nothing. */
  function UpdateById(t: Table, id: int, f: Fields): (r: Table)
    ensures r.nextId == t.nextId && r.rows.Keys == t.rows.Keys
    ensures forall other :: other in t.rows && other != id ==> r.rows[other] == t.rows[other]
    ensures id in t.rows ==>
      r.rows[id] == Record(Some(f.nomor), f.judul, Some(f.asal), t.rows[id].kategori, f.tanggal, f.filePath)
    ensures id !in t.rows ==> r == t
    ensures ValidTable(t) ==> ValidTable(r)
  {
    if id in t.rows then
      var old_ := t.rows[id];
      Table(t.rows[id := old_.(nomor := Some(f.nomor), judul := f.judul, asal := Some(f.asal),
                               tanggal := f.tanggal, filePath := f.filePath)], t.nextId)
    else t
  }

  /** `DELETE FROM surat WHERE id=%s`: only that row goes; deleting an
      absent id changes nothing. */
  function DeleteById(t: Table, id: int): (r: Table)
    ensures r.nextId == t.nextId && r.rows.Keys == t.rows.Keys - {id}
    ensures forall other :: other in r.rows ==> r.rows[other] == t.rows[other]
    ensures id !in t.rows ==> r == t
    ensures ValidTable(t) ==> ValidTable(r)
  {
    Table(t.rows - {id}, t.nextId)
  }

  // ---------------------------------------------------------------------
  // What the statements do to a later select

  /** A set has only one largest element, so `MaxOf` is that element. */
  lemma MaxOfIs(s: set<int>, m: int)
    requires IsMax(s, m)
    ensures MaxOf(s) == m
  {
    var n := MaxOf(s);
    assert n <= m && m <= n;
  }

  /** Adding an id above all others puts it in front of the descending list. */
  lemma IdsAddTop(s: set<int>, m: int)
    requires forall x :: x in s ==> x < m
    ensures IdsDescending(s + {m}) == [m] + IdsDescending(s)
  {
    var s' := s + {m};
    assert IsMax(s', m);
    MaxOfIs(s', m);
    assert s' - {m} == s;
  }

  /** `ids` without `x`. */
  function RemoveId(ids: seq<int>, x: int): (r: seq<int>)
    ensures forall i :: 0 <= i < |r| ==> r[i] in ids && r[i] != x
    ensures forall y :: y in ids && y != x ==> y in r
  {
    if ids == [] then []
    else if ids[0] == x then RemoveId(ids[1..], x)
    else
      var rest := RemoveId(ids[1..], x);
      var r := [ids[0]] + rest;
      assert forall i :: 1 <= i < |r| ==> r[i] == rest[i - 1];
      r
  }

  /** Ids strictly decrease along the list. */
  predicate Decreasing(ids: seq<int>)
  {
    forall i, j :: 0 <= i < j < |ids| ==> ids[i] > ids[j]
  }

  /** What is left of the tail of a decreasing list lies below its head. */
  lemma RemoveIdBelow(ids: seq<int>, x: int)
    requires ids != [] && Decreasing(ids)
    ensures forall y :: y in RemoveId(ids[1..], x) ==> y < ids[0]
  {
    var rest := RemoveId(ids[1..], x);
    forall y | y in rest
      ensures y < ids[0]
    {
      var i :| 0 <= i < |rest| && rest[i] == y;
      var q :| 0 <= q < |ids| - 1 && ids[1..][q] == y;
      assert ids[q + 1] == y;
    }
  }

  /** Removing an id keeps a list strictly decreasing. */
  lemma {:induction false} RemoveIdDescending(ids: seq<int>, x: int)
    requires Decreasing(ids)
    ensures Decreasing(RemoveId(ids, x))
  {
    if ids != [] {
      var tail := ids[1..];
      assert Decreasing(tail) by {
        forall i, j | 0 <= i < j < |tail| ensures tail[i] > tail[j] {
          assert tail[i] == ids[i + 1] && tail[j] == ids[j + 1];
        }
      }
      RemoveIdDescending(tail, x);
      var rest := RemoveId(tail, x);
      if ids[0] != x {
        RemoveIdBelow(ids, x);
        var r := [ids[0]] + rest;
        assert RemoveId(ids, x) == r;
        forall i, j | 0 <= i < j < |r|
          ensures r[i] > r[j]
        {
          assert r[j] == rest[j - 1];
          if i > 0 {
            assert r[i] == rest[i - 1];
          }
        }
      }
    }
  }

  /** Two strictly decreasing id lists with the same elements are equal. */
  lemma {:induction false} IdsUnique(a: seq<int>, b: seq<int>)
    requires Decreasing(a) && Decreasing(b)
    requires forall x :: x in a <==> x in b
    ensures a == b
  {
    if b != [] {
      assert b[0] in b;
    }
    if a != [] {
      assert a[0] in a;
      assert b != [] && b[0] in b;
      var i :| 0 <= i < |a| && a[i] == b[0];
      var j :| 0 <= j < |b| && b[j] == a[0];
      assert a[0] >= b[0] >= a[0];
      forall x
        ensures x in a[1..] <==> x in b[1..]
      {
        if x in a[1..] {
          var p :| 0 <= p < |a| - 1 && a[1..][p] == x;
          assert a[p + 1] == x && x < a[0];
          assert x in a && x in b;
          var q :| 0 <= q < |b| && b[q] == x;
          assert q > 0 && b[1..][q - 1] == x;
        }
        if x in b[1..] {
          var q :| 0 <= q < |b| - 1 && b[1..][q] == x;
          assert b[q + 1] == x && x < b[0];
          assert x in b && x in a;
          var p :| 0 <= p < |a| && a[p] == x;
          assert p > 0 && a[1..][p - 1] == x;
        }
      }
      IdsUnique(a[1..], b[1..]);
      assert a == [a[0]] + a[1..] && b == [b[0]] + b[1..];
    }
  }

  /** Removing an id from the set removes it from the descending list. */
  lemma IdsRemove(s: set<int>, x: int)
    ensures IdsDescending(s - {x}) == RemoveId(IdsDescending(s), x)
  {
    var ids := IdsDescending(s);
    var a := IdsDescending(s - {x});
    var b := RemoveId(ids, x);
    assert Decreasing(ids) && Decreasing(a);
    RemoveIdDescending(ids, x);
    forall y
      ensures y in a <==> y in b
    {
      if y in b {
        var i :| 0 <= i < |b| && b[i] == y;
        assert y in ids && y != x;
      }
    }
    IdsUnique(a, b);
  }

  /** Rows of the same ids agree when the table rows of those ids agree. */
  lemma RowsOfSame(t: Table, t': Table, ids: seq<int>)
    requires forall i :: 0 <= i < |ids| ==> ids[i] in t.rows && ids[i] in t'.rows
    requires forall i :: 0 <= i < |ids| ==> t'.rows[ids[i]] == t.rows[ids[i]]
    ensures RowsOf(t', ids) == RowsOf(t, ids)
  {
  }

  /** Reading one id more in front gives its row in front. */
  lemma RowsOfCons(t: Table, id: int, ids: seq<int>)
    requires id in t.rows && forall i :: 0 <= i < |ids| ==> ids[i] in t.rows
    ensures RowsOf(t, [id] + ids) == [ToRow(id, t.rows[id])] + RowsOf(t, ids)
  {
    assert ([id] + ids)[1..] == ids;
  }

  /** The ids of a category, after an insert. */
  lemma InsertCategoryIds(t: Table, rec: Record, k: string)
    requires ValidTable(t)
    ensures CategoryIds(Insert(t, rec), k)
         == if k == rec.kategori then CategoryIds(t, k) + {t.nextId} else CategoryIds(t, k)
  {
  }

  /** The ids of a category, after a delete. */
  lemma DeleteCategoryIds(t: Table, id: int, k: string)
    ensures CategoryIds(DeleteById(t, id), k) == CategoryIds(t, k) - {id}
  {
  }

  /** An update keeps every row's category. */
  lemma UpdateCategoryIds(t: Table, id: int, f: Fields, k: string)
    ensures CategoryIds(UpdateById(t, id, f), k) == CategoryIds(t, k)
  {
  }

  /** After an insert, the new row heads its category's select (it has the
      largest id) and the rest of that select is as before. */
  lemma InsertSelectSame(t: Table, rec: Record)
    requires ValidTable(t)
    ensures SelectByCategory(Insert(t, rec), rec.kategori)
         == [ToRow(t.nextId, rec)] + SelectByCategory(t, rec.kategori)
  {
    var k := rec.kategori;
    var t' := Insert(t, rec);
    var s := CategoryIds(t, k);
    InsertCategoryIds(t, rec, k);
    IdsAddTop(s, t.nextId);
    var ids := IdsDescending(s);
    assert forall i :: 0 <= i < |ids| ==> ids[i] in s;
    assert IdsDescending(CategoryIds(t', k)) == [t.nextId] + ids;
    RowsOfSame(t, t', ids);
    RowsOfCons(t', t.nextId, ids);
  }

  /** An insert leaves every other category's select unchanged. */
  lemma InsertSelectOther(t: Table, rec: Record, k: string)
    requires ValidTable(t) && k != rec.kategori
    ensures SelectByCategory(Insert(t, rec), k) == SelectByCategory(t, k)
  {
    var t' := Insert(t, rec);
    InsertCategoryIds(t, rec, k);
    var ids := IdsDescending(CategoryIds(t, k));
    assert forall i :: 0 <= i < |ids| ==> ids[i] in CategoryIds(t, k);
    RowsOfSame(t, t', ids);
  }

  /** `rs` without the row whose id is `id`. */
  function WithoutId(rs: seq<Row>, id: int): (r: seq<Row>)
    ensures forall x :: x in r <==> x in rs && x.id != id
    ensures DescendingIds(rs) ==> DescendingIds(r)
  {
    if rs == [] then []
    else if rs[0].id == id then WithoutId(rs[1..], id)
    else [rs[0]] + WithoutId(rs[1..], id)
  }

  /** The rows of `ids` without `x`, read after deleting `x`, are the rows
      of `ids` read before, without the row of `x`. */
  lemma {:induction false} RowsOfRemove(t: Table, x: int, ids: seq<int>)
    requires forall i :: 0 <= i < |ids| ==> ids[i] in t.rows
    ensures RowsOf(DeleteById(t, x), RemoveId(ids, x)) == WithoutId(RowsOf(t, ids), x)
  {
    if ids != [] {
      var t' := DeleteById(t, x);
      var rows := RowsOf(t, ids);
      var rest := RemoveId(ids[1..], x);
      RowsOfRemove(t, x, ids[1..]);
      assert rows == [rows[0]] + RowsOf(t, ids[1..]);
      assert rows[0].id == ids[0];
      if ids[0] != x {
        assert RemoveId(ids, x) == [ids[0]] + rest;
        RowsOfCons(t', ids[0], rest);
      }
    }
  }

  /** After a delete, a select lists what it listed before minus the
      deleted row, in the same order. */
  lemma DeleteSelect(t: Table, id: int, k: string)
    ensures SelectByCategory(DeleteById(t, id), k) == WithoutId(SelectByCategory(t, k), id)
  {
    var s := CategoryIds(t, k);
    DeleteCategoryIds(t, id, k);
    IdsRemove(s, id);
    var ids := IdsDescending(s);
    assert forall i :: 0 <= i < |ids| ==> ids[i] in s;
    RowsOfRemove(t, id, ids);
  }

  /** `rs` with the row whose id is `id` replaced by `row`. */
  function ReplaceId(rs: seq<Row>, id: int, row: Row): (r: seq<Row>)
    requires row.id == id
    ensures |r| == |rs|
    ensures forall i :: 0 <= i < |rs| ==> r[i] == if rs[i].id == id then row else rs[i]
  {
    seq(|rs|, i requires 0 <= i < |rs| => if rs[i].id == id then row else rs[i])
  }

  /** After an update, a select lists the same ids in the same order, with
      the updated row's new values in place. */
  lemma UpdateSelect(t: Table, id: int, f: Fields, k: string)
    requires id in t.rows
    ensures SelectByCategory(UpdateById(t, id, f), k)
         == ReplaceId(SelectByCategory(t, k), id, ToRow(id, UpdateById(t, id, f).rows[id]))
  {
    var t' := UpdateById(t, id, f);
    UpdateCategoryIds(t, id, f, k);
    var ids := IdsDescending(CategoryIds(t, k));
    assert forall i :: 0 <= i < |ids| ==> ids[i] in CategoryIds(t, k);
    var a := RowsOf(t', ids);
    var b := ReplaceId(RowsOf(t, ids), id, ToRow(id, t'.rows[id]));
    assert forall i :: 0 <= i < |ids| ==> a[i] == b[i];
  }
}
