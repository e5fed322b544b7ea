/** The incoming-mail screen (`SuratMasuk`): the loaded `masuk` rows, the
    search filter over them, ten-row pages with prev/next buttons, the
    spreadsheet export, and the create, delete and edit actions that go
    through the `surat` table. */
module SuratMasukScreen {
  import opened Wrappers
  import opened Text
  import opened Naming
  import opened Store
  import opened Effects
  import opened Forms
  import opened Sequences

  const RowsPerPage: int := 10

  const RequiredWarning: string := "Nomor dan Berkas wajib diisi!"
  const ArchivedMessage: string := "Surat Masuk berhasil diarsipkan!"
  const UpdatedMessage: string := "Data berhasil diperbarui!"
  const ExportedMessage: string := "Laporan berhasil disimpan!"
  const ExportColumns: seq<string> :=
    ["ID", "Nomor Surat", "Perihal", "Pengirim", "Tanggal", "Path File"]

  // ---------------------------------------------------------------------
  // Search

  /** A row matches a lower-cased query when `str(nomor_surat)` or
      `judul_surat`, lower-cased, contains it. */
  predicate Matches(row: Row, query: string)
  {
    Contains(Lower(Str(row.nomor)), query) || Contains(Lower(row.judul), query)
  }

  /** The list comprehension of the search: the matching rows, in order. */
  function Filter(rows: seq<Row>, query: string): (r: seq<Row>)
    ensures |r| <= |rows|
    ensures forall x :: x in r ==> x in rows && Matches(x, query)
  {
    if rows == [] then []
    else (if Matches(rows[0], query) then [rows[0]] else []) + Filter(rows[1..], query)
  }

  /** The search result keeps the loaded order. */
  lemma {:induction false} FilterIsSubsequence(rows: seq<Row>, query: string)
    ensures IsSubsequence(Filter(rows, query), rows)
  {
    if rows != [] {
      FilterIsSubsequence(rows[1..], query);
      var f := Filter(rows, query);
      if Matches(rows[0], query) {
        assert f[0] == rows[0] && f[1..] == Filter(rows[1..], query);
      } else {
        assert f == Filter(rows[1..], query);
      }
    }
  }

  /** A row is in the search result exactly when it is loaded and matches. */
  lemma {:induction false} FilterMembership(rows: seq<Row>, query: string, x: Row)
    ensures x in Filter(rows, query) <==> x in rows && Matches(x, query)
  {
    if rows != [] {
      FilterMembership(rows[1..], query, x);
      assert x in rows <==> x == rows[0] || x in rows[1..];
    }
  }

  /** When every row matches, the search keeps the whole list. */
  lemma {:induction false} FilterKeepsAll(rows: seq<Row>, query: string)
    requires forall i :: 0 <= i < |rows| ==> Matches(rows[i], query)
    ensures Filter(rows, query) == rows
  {
    if rows != [] {
      FilterKeepsAll(rows[1..], query);
    }
  }

  /** An empty search text keeps every loaded row. */
  lemma FilterEmptyQuery(rows: seq<Row>)
    ensures Filter(rows, Lower("")) == rows
  {
    assert Lower("") == "";
    forall i | 0 <= i < |rows|
      ensures Matches(rows[i], "")
    {
      ContainsEmpty(Lower(Str(rows[i].nomor)));
    }
    FilterKeepsAll(rows, "");
  }

  /** The search ignores the case of the typed text: two texts that differ
      only in the case of ASCII letters select the same rows. */
  lemma SearchIgnoresCase(rows: seq<Row>, text1: string, text2: string)
    requires SameUpToCase(text1, text2)
    ensures Filter(rows, Lower(text1)) == Filter(rows, Lower(text2))
  {
    LowerSameUpToCase(text1, text2);
  }

  /** Searching the search result again with the same text changes nothing. */
  lemma {:induction false} FilterIdempotent(rows: seq<Row>, query: string)
    ensures Filter(Filter(rows, query), query) == Filter(rows, query)
  {
    if rows != [] {
      FilterIdempotent(rows[1..], query);
      FilterConcat(if Matches(rows[0], query) then [rows[0]] else [], Filter(rows[1..], query), query);
      if Matches(rows[0], query) {
        assert Filter([rows[0]], query) == [rows[0]];
      }
    }
  }

  /** The search of a list with a first row: that row, when it matches,
      then the search of the rest. */
  lemma FilterCons(x: Row, rest: seq<Row>, query: string)
    ensures Filter([x] + rest, query)
         == (if Matches(x, query) then [x] else []) + Filter(rest, query)
  {
    assert ([x] + rest)[0] == x && ([x] + rest)[1..] == rest;
  }

  /** Concatenation of rows is associative. */
  lemma SeqAssoc(a: seq<Row>, b: seq<Row>, c: seq<Row>)
    ensures a + (b + c) == (a + b) + c
  {
  }

  /** The search works row by row: it distributes over concatenation. */
  lemma {:induction false} FilterConcat(a: seq<Row>, b: seq<Row>, query: string)
    ensures Filter(a + b, query) == Filter(a, query) + Filter(b, query)
  {
    if a == [] {
      assert a + b == b;
    } else {
      var x, t := a[0], a[1..];
      assert a == [x] + t;
      assert a + b == [x] + (t + b);
      var h := if Matches(x, query) then [x] else [];
      var ft, fb := Filter(t, query), Filter(b, query);
      FilterCons(x, t + b, query);
      FilterCons(x, t, query);
      FilterConcat(t, b, query);
      calc {
        Filter(a + b, query);
        Filter([x] + (t + b), query);
        h + (ft + fb);
        { SeqAssoc(h, ft, fb); }
        (h + ft) + fb;
        Filter([x] + t, query) + fb;
        Filter(a, query) + fb;
      }
    }
  }

  // ---------------------------------------------------------------------
  // Paging

  /** `max(1, (n + rows_per_page - 1) // rows_per_page)`: the fewest
      ten-row pages that hold `n` rows, and one page for no rows. */
  function TotalPages(n: nat): (t: int)
    ensures t >= 1
    ensures n == 0 ==> t == 1
    ensures n > 0 ==> (t - 1) * RowsPerPage < n <= t * RowsPerPage
  {
    var c := (n + RowsPerPage - 1) / RowsPerPage;
    if c < 1 then 1 else c
  }

  /** How Python normalises one bound of `s[i:j]` for a list of length `n`:
      a negative bound counts from the end, and both are clamped. */
  function SliceBound(i: int, n: nat): (r: nat)
    ensures r <= n
    ensures 0 <= i ==> r == if i < n then i else n
    ensures i < 0 ==> r == if i + n < 0 then 0 else i + n
  {
    if i < 0 then (if i + n < 0 then 0 else i + n)
    else if i < n then i else n
  }

  /** Python's `s[i:j]`: never an error, empty when the bounds cross. */
  function PySlice(s: seq<Row>, i: int, j: int): (r: seq<Row>)
  {
    var lo := SliceBound(i, |s|);
    var hi := SliceBound(j, |s|);
    if lo <= hi then s[lo..hi] else []
  }

  /** `start_idx` of page `p`. */
  function PageStart(p: int): int
  {
    (p - 1) * RowsPerPage
  }

  function Min(a: int, b: int): int { if a < b then a else b }

  /** `page_data`: the rows page `p` shows. For a page number of at least
      one it is the ten-row window at `start_idx`, clamped to the list: at
      most ten rows, and empty rather than an error past the end. */
  function PageData(data: seq<Row>, p: int): (r: seq<Row>)
    ensures |r| <= RowsPerPage
    ensures p >= 1 ==>
      r == data[Min(PageStart(p), |data|)..Min(PageStart(p) + RowsPerPage, |data|)]
    ensures data == [] ==> r == []
  {
    PySlice(data, PageStart(p), PageStart(p) + RowsPerPage)
  }

  /** One table line: the running number in column 0, the record id kept
      with it, and the row's values. */
  datatype TableRow = TableRow(number: int, id: int, row: Row)

  /** The table lines of page `p` of `data`. */
  function PageRows(data: seq<Row>, p: int): seq<TableRow>
  {
    var page := PageData(data, p);
    seq(|page|, i requires 0 <= i < |page| => TableRow(PageStart(p) + i + 1, page[i].id, page[i]))
  }

  /** Line `i` of a page shows the row at position `number - 1` of the
      whole list, numbered `start_idx + i + 1`, with that row's id. */
  lemma PageRowNumbering(data: seq<Row>, p: int, i: int)
    requires p >= 1 && 0 <= i < |PageRows(data, p)|
    ensures PageRows(data, p)[i].number == PageStart(p) + i + 1
    ensures 1 <= PageRows(data, p)[i].number <= |data|
    ensures PageRows(data, p)[i].row == data[PageRows(data, p)[i].number - 1]
    ensures PageRows(data, p)[i].id == PageRows(data, p)[i].row.id
  {
  }

  /** Every page in `1..TotalPages` of a non-empty list shows at least one
      row; the last shows the remainder. */
  lemma PageInRange(data: seq<Row>, p: int)
    requires data != [] && 1 <= p <= TotalPages(|data|)
    ensures 1 <= |PageData(data, p)|
    ensures p < TotalPages(|data|) ==> |PageData(data, p)| == RowsPerPage
    ensures p == TotalPages(|data|) ==> |PageData(data, p)| == |data| - PageStart(p)
  {
  }

  /** Pages `1..k` laid end to end. */
  function FirstPages(data: seq<Row>, k: nat): seq<Row>
  {
    if k == 0 then [] else FirstPages(data, k - 1) + PageData(data, k)
  }

  /** The first `k` pages are the first `10 k` rows of the list. */
  lemma {:induction false} FirstPagesPrefix(data: seq<Row>, k: nat)
    ensures FirstPages(data, k) == data[..Min(k * RowsPerPage, |data|)]
  {
    if k > 0 {
      FirstPagesPrefix(data, k - 1);
      var a := Min((k - 1) * RowsPerPage, |data|);
      var b := Min(k * RowsPerPage, |data|);
      assert PageData(data, k) == data[a..b];
      assert data[..a] + data[a..b] == data[..b];
    }
  }

  /** Paging neither loses nor repeats a row: pages `1..TotalPages` laid
      end to end are the list. */
  lemma AllPages(data: seq<Row>)
    ensures FirstPages(data, TotalPages(|data|)) == data
  {
    FirstPagesPrefix(data, TotalPages(|data|));
    assert data[..|data|] == data;
  }

  /** `label_page` before and after the first `display_data`. */
  datatype PageLabel = Initial | PageOf(page: int, total: int)

  /** Which rows an export writes: the search result unless it is empty,
      then all loaded rows. */
  function ExportRows(filtered: seq<Row>, all: seq<Row>): (r: seq<Row>)
    ensures r == filtered || r == all
    ensures r == [] <==> filtered == [] && all == []
    ensures filtered != [] ==> r == filtered
  {
    if filtered != [] then filtered else all
  }

  /** A search that matches nothing exports every loaded row. */
  lemma ExportAfterEmptySearch(all: seq<Row>, query: string)
    requires Filter(all, query) == []
    ensures ExportRows(Filter(all, query), all) == all
  {
  }

  /** Create validates the stripped number and the chosen file. */
  predicate CreateValid(e: FormEntry)
  {
    Strip(e.nomor) != "" && ChosenPath("", e.picks) != ""
  }

  /** The row create inserts: stripped texts, kategori `masuk`, and the
      archived copy's path. */
  function MasukRecord(e: FormEntry, dest: string): (r: Record)
    ensures r.kategori == Masuk && r.filePath == dest
    ensures r.nomor == Some(Strip(e.nomor)) && r.judul == Strip(e.perihal)
    ensures r.asal == Some(Strip(e.pihak)) && r.tanggal == e.tanggal
  {
    Record(Some(Strip(e.nomor)), Strip(e.perihal), Some(Strip(e.pihak)), Masuk, e.tanggal, dest)
  }

  /** The values edit writes: the raw texts and the form's file path,
      which is the old one unless a file was picked. */
  function EditFields(row: Row, e: FormEntry): (f: Fields)
    ensures f.nomor == e.nomor && f.judul == e.perihal && f.asal == e.pihak
    ensures f.tanggal == e.tanggal && f.filePath == ChosenPath(row.filePath, e.picks)
  {
    Fields(e.nomor, e.perihal, e.pihak, e.tanggal, ChosenPath(row.filePath, e.picks))
  }

  class SuratMasuk {
    var allData: seq<Row>
    var filteredData: seq<Row>
    var currentPage: int
    var table: seq<TableRow>
    var pageLabel: PageLabel
    var prevEnabled: bool
    var nextEnabled: bool

    /** The widgets show page `currentPage` of `data`. */
    ghost predicate Shows(data: seq<Row>)
      reads this
    {
      && table == PageRows(data, currentPage)
      && pageLabel == PageOf(currentPage, TotalPages(|data|))
      && prevEnabled == (currentPage > 1)
      && nextEnabled == (currentPage < TotalPages(|data|))
    }

    /** Before the first successful load the widgets are as built: an empty
      table, the initial label and both buttons enabled; after it they show
      the current page of `filteredData`. */
    ghost predicate Valid()
      reads this
    {
      match pageLabel
      case Initial =>
        allData == [] && filteredData == [] && currentPage == 1 && table == []
        && prevEnabled && nextEnabled
      case PageOf(_, _) => Shows(filteredData)
    }

    ghost predicate InRange()
      reads this
    {
      1 <= currentPage <= TotalPages(|filteredData|)
    }

    /** The state right after a load from `store`. */
    ghost predicate Reloaded(store: Table)
      reads this
    {
      && allData == SelectByCategory(store, Masuk)
      && filteredData == allData
      && currentPage == 1
      && Shows(allData)
    }

    /** Builds the screen and loads the rows once. */
    constructor(conn: bool, store: Table)
      ensures Valid() && InRange()
      ensures conn ==> Reloaded(store)
      ensures !conn ==> pageLabel == Initial && allData == [] && filteredData == []
    {
      allData := [];
      filteredData := [];
      currentPage := 1;
      table := [];
      pageLabel := Initial;
      prevEnabled := true;
      nextEnabled := true;
      new;
      LoadData(conn, store);
    }

    /** `display_data`: record `data` as the shown list and redraw page
      `currentPage` of it. */
    method DisplayData(data: seq<Row>)
      modifies this
      ensures filteredData == data && Shows(data)
      ensures allData == old(allData) && currentPage == old(currentPage)
    {
      filteredData := data;
      var startIdx := (currentPage - 1) * RowsPerPage;
      var pageData := PySlice(data, startIdx, startIdx + RowsPerPage);
      var totalPages := TotalPages(|data|);
      pageLabel := PageOf(currentPage, totalPages);
      prevEnabled := currentPage > 1;
      nextEnabled := currentPage < totalPages;
      var rows: seq<TableRow> := [];
      var i := 0;
      while i < |pageData|
        invariant 0 <= i <= |pageData|
        invariant rows == PageRows(data, currentPage)[..i]
      {
        rows := rows + [TableRow(startIdx + i + 1, pageData[i].id, pageData[i])];
        i := i + 1;
      }
      assert rows == PageRows(data, currentPage);
      table := rows;
    }

    /** `load_data`: with a connection, the `masuk` rows newest first, page
      one, and any search result dropped; without one, nothing changes. */
    method LoadData(conn: bool, store: Table)
      modifies this
      ensures conn ==> Reloaded(store) && Valid() && InRange()
      ensures !conn ==> unchanged(this)
    {
      if conn {
        allData := SelectByCategory(store, Masuk);
        currentPage := 1;
        DisplayData(allData);
      }
    }

    /** `filter_data`: the search result of the lower-cased text, page one. */
    method FilterData(text: string)
      modifies this
      ensures allData == old(allData)
      ensures filteredData == Filter(allData, Lower(text))
      ensures currentPage == 1 && Shows(filteredData) && Valid() && InRange()
    {
      var query := Lower(text);
      filteredData := Filter(allData, query);
      currentPage := 1;
      DisplayData(filteredData);
    }

    /** `prev_page`: one page back with no bounds check of its own; the page
      stays in range when the button was enabled, and leaves it from the
      initial state, where the button is enabled before any load. */
    method PrevPage()
      requires Valid()
      modifies this
      ensures currentPage == old(currentPage) - 1
      ensures allData == old(allData) && filteredData == old(filteredData)
      ensures Shows(filteredData) && Valid()
      ensures old(pageLabel.PageOf? && prevEnabled && InRange()) ==> InRange()
      ensures old(pageLabel.Initial?) ==> !InRange()
    {
      currentPage := currentPage - 1;
      DisplayData(filteredData);
    }

    /** `next_page`: one page forward with no bounds check of its own; the
      page stays in range when the button was enabled, and leaves it from
      the initial state. */
    method NextPage()
      requires Valid()
      modifies this
      ensures currentPage == old(currentPage) + 1
      ensures allData == old(allData) && filteredData == old(filteredData)
      ensures Shows(filteredData) && Valid()
      ensures old(pageLabel.PageOf? && nextEnabled && InRange()) ==> InRange()
      ensures old(pageLabel.Initial?) ==> !InRange()
    {
      currentPage := currentPage + 1;
      DisplayData(filteredData);
    }

    /** `export_to_excel`: nothing when there is nothing to export or the
      save dialog is cancelled (`savePath` empty); otherwise the chosen
      rows under the six column titles, or an error box when writing fails. */
    method ExportToExcel(savePath: string, writeOk: bool) returns (effects: seq<Effect>)
      ensures ExportRows(filteredData, allData) == [] || savePath == "" ==> effects == []
      ensures ExportRows(filteredData, allData) != [] && savePath != "" && writeOk ==>
        effects == [ExportSheet(savePath, ExportColumns, ExportRows(filteredData, allData)),
                    Information(ExportedMessage)]
      ensures ExportRows(filteredData, allData) != [] && savePath != "" && !writeOk ==>
        effects == [ErrorBox]
    {
      var data := if filteredData != [] then filteredData else allData;
      if data == [] {
        return [];
      }
      if savePath == "" {
        return [];
      }
      if writeOk {
        effects := [ExportSheet(savePath, ExportColumns, data), Information(ExportedMessage)];
      } else {
        effects := [ErrorBox];
      }
    }

    /** `buka_berkas`, behind the "Lihat" button of a line: the file path
      stored in that line's row is opened when it is non-empty and exists
      (`fileExists`, an input), otherwise an error box is shown. Nothing on
      the screen changes. */
    method BukaBerkas(line: int, fileExists: bool) returns (effects: seq<Effect>)
      requires 0 <= line < |table|
      ensures var path := table[line].row.filePath;
        && (path != "" && fileExists ==> effects == [OpenFile(path)])
        && (path == "" || !fileExists ==> effects == [ErrorBox])
    {
      var path := table[line].row.filePath;
      if path != "" && fileExists {
        effects := [OpenFile(path)];
      } else {
        effects := [ErrorBox];
      }
    }

    /** `aksi_tambah`: a rejected dialog does nothing; an empty stripped
      number or no chosen file only warns; otherwise the file is copied to
      `uploads/surat_masuk/IN_<stamp><ext>` and one `masuk` row pointing
      at the copy is inserted, which a reload then shows first. A failed
      copy stops before the insert; a missing connection stops after the
      copy, leaving the copied file behind. */
    method AksiTambah(dialog: Dialog, now: DateTime, copyOk: bool, conn: bool, reloadConn: bool,
                      store: Table)
      returns (store': Table, effects: seq<Effect>)
      requires Valid() && ValidTable(store) && ValidDateTime(now)
      modifies this
      ensures Valid() && ValidTable(store')
      ensures dialog.Rejected? ==> effects == [] && store' == store && unchanged(this)
      ensures dialog.Accepted? && !CreateValid(dialog.entry) ==>
        effects == [Warning(RequiredWarning)] && store' == store && unchanged(this)
      ensures dialog.Accepted? && CreateValid(dialog.entry) && !copyOk ==>
        effects == [MakeDirs(MasukDir()), ErrorBox] && store' == store && unchanged(this)
      ensures dialog.Accepted? && CreateValid(dialog.entry) && copyOk ==>
        var src := ChosenPath("", dialog.entry.picks);
        var dest := MasukDest(now, src);
        (!conn ==>
          effects == [MakeDirs(MasukDir()), CopyFile(src, dest), ErrorBox]
          && store' == store && unchanged(this))
        && (conn ==>
          store' == Insert(store, MasukRecord(dialog.entry, dest))
          && effects == [MakeDirs(MasukDir()), CopyFile(src, dest), Information(ArchivedMessage)])
        && (conn && reloadConn ==>
          Reloaded(store')
          && allData == [ToRow(store.nextId, MasukRecord(dialog.entry, dest))]
                        + SelectByCategory(store, Masuk)
          && |table| > 0 && table[0].id == store.nextId)
        && (conn && !reloadConn ==> unchanged(this))
    {
      if dialog.Rejected? {
        return store, [];
      }
      var e := dialog.entry;
      var nomor := Strip(e.nomor);
      var pathAsal := ChosenPath("", e.picks);
      if nomor == "" || pathAsal == "" {
        return store, [Warning(RequiredWarning)];
      }
      store', effects := Archive(e, now, copyOk, conn, reloadConn, store);
    }

    /** The steps of create after validation: make the folder, copy, insert
      the stripped texts, reload, confirm. */
    method Archive(e: FormEntry, now: DateTime, copyOk: bool, conn: bool, reloadConn: bool,
                   store: Table)
      returns (store': Table, effects: seq<Effect>)
      requires Valid() && ValidTable(store) && ValidDateTime(now)
      modifies this
      ensures Valid() && ValidTable(store')
      ensures !copyOk ==>
        effects == [MakeDirs(MasukDir()), ErrorBox] && store' == store && unchanged(this)
      ensures copyOk ==>
        var src := ChosenPath("", e.picks);
        var dest := MasukDest(now, src);
        (!conn ==>
          effects == [MakeDirs(MasukDir()), CopyFile(src, dest), ErrorBox]
          && store' == store && unchanged(this))
        && (conn ==>
          store' == Insert(store, MasukRecord(e, dest))
          && effects == [MakeDirs(MasukDir()), CopyFile(src, dest), Information(ArchivedMessage)])
        && (conn && reloadConn ==>
          Reloaded(store')
          && allData == [ToRow(store.nextId, MasukRecord(e, dest))] + SelectByCategory(store, Masuk)
          && |table| > 0 && table[0].id == store.nextId)
        && (conn && !reloadConn ==> unchanged(this))
    {
      var pathAsal := ChosenPath("", e.picks);
      var pathDest := MasukDest(now, pathAsal);
      if !copyOk {
        return store, [MakeDirs(MasukDir()), ErrorBox];
      }
      if !conn {
        return store, [MakeDirs(MasukDir()), CopyFile(pathAsal, pathDest), ErrorBox];
      }
      store' := InsertAndReload(MasukRecord(e, pathDest), reloadConn, store);
      effects := [MakeDirs(MasukDir()), CopyFile(pathAsal, pathDest), Information(ArchivedMessage)];
    }

    /** The insert of create and the reload after it: the new row has the
      largest id, so it is the first line of the first page. */
    method InsertAndReload(rec: Record, reloadConn: bool, store: Table) returns (store': Table)
      requires Valid() && ValidTable(store) && rec.kategori == Masuk
      modifies this
      ensures Valid() && store' == Insert(store, rec)
      ensures reloadConn ==>
        Reloaded(store')
        && allData == [ToRow(store.nextId, rec)] + SelectByCategory(store, Masuk)
        && |table| > 0 && table[0].id == store.nextId
      ensures !reloadConn ==> unchanged(this)
    {
      store' := Insert(store, rec);
      InsertSelectSame(store, rec);
      LoadData(reloadConn, store');
      if reloadConn {
        PageRowNumbering(allData, 1, 0);
      }
    }

    /** `aksi_hapus`: nothing without a selected line or without the user's
      confirmation; a missing connection is only reported on the console;
      otherwise the selected line's id is deleted, and a reload shows the
      list without that row, the rest in order. */
    method AksiHapus(selectedRow: int, confirmed: bool, conn: bool, reloadConn: bool, store: Table)
      returns (store': Table, effects: seq<Effect>)
      requires Valid() && selectedRow < |table|
      modifies this
      ensures Valid()
      ensures selectedRow < 0 || !confirmed ==> store' == store && effects == [] && unchanged(this)
      ensures 0 <= selectedRow && confirmed && !conn ==>
        store' == store && effects == [ConsoleError] && unchanged(this)
      ensures 0 <= selectedRow && confirmed && conn ==>
        store' == DeleteById(store, old(table[selectedRow].id)) && effects == []
        && (reloadConn ==>
              Reloaded(store')
              && allData == WithoutId(SelectByCategory(store, Masuk), old(table[selectedRow].id)))
        && (!reloadConn ==> unchanged(this))
    {
      if selectedRow < 0 {
        return store, [];
      }
      var dbId := table[selectedRow].id;
      if !confirmed {
        return store, [];
      }
      if !conn {
        return store, [ConsoleError];
      }
      store' := DeleteById(store, dbId);
      DeleteSelect(store, dbId, Masuk);
      LoadData(reloadConn, store');
      effects := [];
    }

    /** `aksi_edit` for the line showing `row`: nothing when the dialog is
      rejected; an error box without a connection; otherwise that row's
      five columns take the raw (unstripped, unvalidated) texts and the
      form's file path, and a reload shows the same rows in the same order
      with that row's new values. */
    method AksiEdit(row: Row, dialog: Dialog, conn: bool, reloadConn: bool, store: Table)
      returns (store': Table, effects: seq<Effect>)
      requires Valid()
      modifies this
      ensures Valid()
      ensures dialog.Rejected? ==> effects == [] && store' == store && unchanged(this)
      ensures dialog.Accepted? && !conn ==>
        effects == [ErrorBox] && store' == store && unchanged(this)
      ensures dialog.Accepted? && conn ==>
        store' == UpdateById(store, row.id, EditFields(row, dialog.entry))
        && effects == [Information(UpdatedMessage)]
        && (reloadConn ==> Reloaded(store'))
        && (reloadConn && row.id in store.rows ==>
              allData == ReplaceId(SelectByCategory(store, Masuk), row.id,
                                   ToRow(row.id, store'.rows[row.id])))
        && (!reloadConn ==> unchanged(this))
    {
      if dialog.Rejected? {
        return store, [];
      }
      if !conn {
        return store, [ErrorBox];
      }
      var e := dialog.entry;
      var filePath := ChosenPath(row.filePath, e.picks);
      store' := UpdateById(store, row.id, Fields(e.nomor, e.perihal, e.pihak, e.tanggal, filePath));
      if row.id in store.rows {
        UpdateSelect(store, row.id, EditFields(row, e), Masuk);
      }
      LoadData(reloadConn, store');
      effects := [Information(UpdatedMessage)];
    }
  }
}
