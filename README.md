# Arsip Surat — a verified model of the archive screens

This Dafny project models the logic of the letter-archiving desktop
application (PyQt over a MySQL table `surat`). Three screens hold that logic:

- **Surat Masuk** (`SuratMasuk`) handles incoming mail. It loads the `masuk`
  rows newest first, searches them by number or subject, and shows ten-row
  pages with prev/next buttons. It exports the whole search result, across
  all pages, to a spreadsheet, or every loaded row when the search matched
  nothing. Each line's "Lihat" button opens the row's stored file.
  It can archive a new letter: validate the form, copy the scan to
  `uploads/surat_masuk/IN_<YYYYMMDD_HHMMSS><ext>`, then insert the row. It
  can also delete and edit a row by its id.
- **Dashboard** (`Dashboard`) folds the `SELECT kategori, COUNT(*) ... GROUP
  BY kategori` pairs into a three-key dictionary. It shows three cards and
  either a pie chart or a "no data" label.
- **Kelola Dokumen** (`KelolaDokumen`) uploads a general document. It keeps a
  selected file and a title, copies the file to
  `uploads/DOC_<YYYYMMDD_HHMMSS><ext>`, inserts a `dokumen` row, and clears
  the form after a successful insert.

Modules:

- `Wrappers`: the `Option` type.
- `Text`: the Python string operations the screens use. These are
  `str(None)`, ASCII `lower`, substring `in`, and `strip` with Python's
  whitespace set.
- `Naming`: the `strftime('%Y%m%d_%H%M%S')` stamp and its parser, plus the
  `posixpath` functions `join`, `splitext` and `basename`. It also builds the
  two destination names.
- `Store`: the `surat` table as a map from the auto-increment id to the other
  columns. It has select-by-category ordered by `id DESC`, insert with a fresh
  id, update-by-id, delete-by-id and per-category counts.
- `Effects`: the ordered log of what a screen does outside its fields:
  `makedirs`, a completed `shutil.copy`, message boxes, console output,
  `to_excel` and `startfile`.
- `Sequences`: the subsequence relation, used for the order of the search
  result and of the dashboard's known pairs.
- `Forms`: what the record dialog returns. That is its texts and the paths
  returned by its file picker.
- `SuratMasukScreen`, `DashboardScreen` and `DokumenScreen`: one module per
  screen, each with a class whose methods update its fields as the source
  does.

Outside inputs are parameters:

- `connect_db()` is a `bool` per call (is there a connection?). Each reload
  opens its own connection, so it has its own flag.
- The clock reading is a `DateTime`.
- Dialog answers are inputs: confirmed or not, the chosen file, the save path.
- Whether a copy or a spreadsheet write succeeds is a `bool`.
- The database is a `Table` value that an action takes and returns.

## Model

| member | source | states |
|---|---|---|
| Text.Str | src/surat_masuk.py:193 | `str()` of a nullable column is its text, and "None" for NULL |
| Text.Lower | src/surat_masuk.py:192-193 | lower-casing keeps the length, turns each letter A-Z into its lower-case partner and keeps every other character |
| Text.LowerIsLowerCase | src/surat_masuk.py:192-193 | the result maps each character as above, has no upper-case letter, and lowering again changes nothing |
| Text.LowerSameUpToCase | src/surat_masuk.py:192-193 | two texts lower to the same text exactly when they differ only in the case of ASCII letters |
| Text.ContainsEmpty | src/surat_masuk.py:193 | the empty query occurs in every text |
| Text.Strip | src/surat_masuk.py:221-223 | `strip()` returns an infix of the input; everything cut off is whitespace, and a non-empty result neither starts nor ends with whitespace |
| Text.StripEmptyIff | src/surat_masuk.py:227 | a stripped number is empty exactly when the typed text is all whitespace |
| Text.StripIdempotent | src/surat_masuk.py:221-223 | stripping twice equals stripping once |
| Naming.Pad | src/surat_masuk.py:235 | a zero-padded field has exactly its width and only digits |
| Naming.PadRoundTrip | src/surat_masuk.py:235 | reading a padded field's digits back gives the number |
| Naming.Stamp | src/surat_masuk.py:235 | the `%Y%m%d_%H%M%S` stamp has 15 characters |
| Naming.StampRoundTrip | src/surat_masuk.py:235 | parsing a stamp gives back the clock reading it was printed from, so the stamp is injective |
| Naming.LastIndexOf | src/dokumen.py:93 | `rfind`: the result holds the character and no later position does, or it is -1 |
| Naming.Extension | src/surat_masuk.py:234 | `splitext(p)[1]` is a suffix of `p` that starts with a dot and holds no other dot and no separator; it is non-empty exactly when the last component has a dot that is not a leading dot |
| Naming.BaseName | src/dokumen.py:93 | `basename` is the suffix after the last separator and contains none |
| Naming.ExtensionOfJoined | src/surat_masuk.py:234-235 | joining a dot-free name and an extension onto a folder gives a path whose extension is that extension |
| Naming.MasukDir | src/surat_masuk.py:232 | the folder is `uploads/surat_masuk` |
| Naming.MasukDestShape | src/surat_masuk.py:232-235 | the incoming-mail copy is `uploads/surat_masuk/IN_` followed by the stamp and the source's extension |
| Naming.DocDestShape | src/dokumen.py:108-110 | the uploaded copy is `uploads/DOC_` followed by the stamp and the source's extension |
| Naming.StampInjective | src/surat_masuk.py:235 | two valid clock readings print the same stamp exactly when they are equal |
| Naming.StampHasNoDot | src/surat_masuk.py:235 | a stamp contains neither a dot nor a separator |
| Naming.DestKeepsExtension | src/surat_masuk.py:234-235 | the archived copy has the source's extension, on both screens |
| Naming.MasukDestCollision | src/surat_masuk.py:235 | two incoming-mail saves get the same destination exactly when they happen in the same second with sources of the same extension |
| Naming.DocDestCollision | src/dokumen.py:108-110 | two uploads get the same destination exactly when they happen in the same second with sources of the same extension |
| Store.MaxOf | src/surat_masuk.py:184 | a non-empty id set has a largest element |
| Store.IdsDescending | src/surat_masuk.py:184 | `ORDER BY id DESC` lists each id of the set once, strictly decreasing |
| Store.RowsOf | src/surat_masuk.py:184 | the rows of a list of ids, in that order |
| Store.SelectByCategory | src/surat_masuk.py:184 | the select is id-descending and has as many rows as the category counts |
| Store.SelectMembership | src/surat_masuk.py:184 | a row is selected exactly when it is the row of an id whose `kategori` is the one asked for |
| Store.DescendingUnique | src/surat_masuk.py:184 | two id-descending lists with the same rows are equal, so a select is fixed by its contents |
| Store.Insert | src/surat_masuk.py:241-242 | the insert uses the next id, which no row had; it adds exactly that key and leaves every other row as it was |
| Store.UpdateById | src/surat_masuk.py:291-293 | only the row with that id changes, and in it only the five columns; its id and `kategori` stay; an absent id changes nothing |
| Store.DeleteById | src/surat_masuk.py:262 | only that id's row goes and the others stay; an absent id changes nothing |
| Store.IdsAddTop | src/surat_masuk.py:241-245 | an id above all others goes to the front of the id-descending listing, the rest unchanged |
| Store.InsertSelectSame | src/surat_masuk.py:241-245 | after an insert, the reloaded list is the new row followed by the old list |
| Store.InsertSelectOther | src/dokumen.py:119-120 | an insert leaves the select of every other category unchanged |
| Store.WithoutId | src/surat_masuk.py:262-265 | removing one id's rows keeps exactly the other rows, still id-descending |
| Store.IdsRemove | src/surat_masuk.py:262-265 | the id-descending listing of a set without one id is the old listing without that id |
| Store.DeleteSelect | src/surat_masuk.py:262-265 | after a delete, the reloaded list is the old list without that row, in the same order |
| Store.ReplaceId | src/surat_masuk.py:291-296 | replacing one id's row keeps the length and every other position |
| Store.UpdateSelect | src/surat_masuk.py:291-296 | after an update, the reloaded list has the same ids in the same order, with the edited row's new values in place |
| Forms.ChosenPath | src/form_surat.py:153-154 | the dialog's path is either the initial one or one of the picks, and it is non-empty once it has changed |
| Forms.ChosenPathIsLastPick | src/form_surat.py:153-154 | with no non-empty pick the initial path stays; otherwise the path is the last non-empty pick, and every later pick was cancelled |
| SuratMasukScreen.Filter | src/surat_masuk.py:193 | every row in the search result is loaded and matches, and the result is no longer than the list |
| SuratMasukScreen.FilterIsSubsequence | src/surat_masuk.py:193 | the search result is a subsequence of the loaded list, so the order is kept |
| SuratMasukScreen.FilterMembership | src/surat_masuk.py:193 | a row is in the result exactly when it is loaded and its lower-cased number or subject contains the lower-cased query |
| SuratMasukScreen.FilterKeepsAll | src/surat_masuk.py:193 | when every row matches, the search keeps the whole list |
| SuratMasukScreen.SearchIgnoresCase | src/surat_masuk.py:192-193 | two search texts that differ only in letter case select the same rows |
| SuratMasukScreen.FilterEmptyQuery | src/surat_masuk.py:192-193 | an empty search text keeps every loaded row |
| SuratMasukScreen.FilterIdempotent | src/surat_masuk.py:193 | searching the result again with the same text changes nothing |
| SuratMasukScreen.FilterConcat | src/surat_masuk.py:193 | the search distributes over concatenation, because it decides row by row |
| SuratMasukScreen.TotalPages | src/surat_masuk.py:133 | the page count is at least 1, is 1 for no rows, and is otherwise the fewest ten-row pages that hold all the rows |
| SuratMasukScreen.SliceBound | src/surat_masuk.py:131 | a slice bound counts from the end when negative and is clamped to the list |
| SuratMasukScreen.PageData | src/surat_masuk.py:130-131 | a page has at most ten rows; from page 1 on it is the window at `start_idx` clamped to the list, and it is empty rather than an error for an empty list |
| SuratMasukScreen.PageRowNumbering | src/surat_masuk.py:142-143 | line `i` is numbered `start_idx + i + 1`, shows the row at that position of the list, and carries that row's id |
| SuratMasukScreen.PageInRange | src/surat_masuk.py:130-133 | every page from 1 to the page count of a non-empty list shows rows: ten before the last, the remainder on the last |
| SuratMasukScreen.FirstPagesPrefix | src/surat_masuk.py:130-131 | the first `k` pages laid end to end are the first `10 k` rows |
| SuratMasukScreen.AllPages | src/surat_masuk.py:130-133 | all pages laid end to end are the list: paging loses and repeats nothing |
| SuratMasukScreen.ExportRows | src/surat_masuk.py:206-207 | the export takes the search result when it is non-empty, otherwise all rows; it is empty only when both are |
| SuratMasukScreen.ExportAfterEmptySearch | src/surat_masuk.py:206 | a search that matches nothing exports every loaded row |
| SuratMasukScreen.MasukRecord | src/surat_masuk.py:241-242 | the new row holds the stripped number, subject and sender, `kategori` `masuk`, the date and the copy's path |
| SuratMasukScreen.EditFields | src/surat_masuk.py:284-293 | an edit writes the raw texts and the dialog's path, which is the old path unless a file was picked |
| SuratMasukScreen.SuratMasuk.constructor | src/surat_masuk.py:16-19 | the screen starts empty on page 1 and loads once; with a connection it shows page 1 of the `masuk` rows |
| SuratMasukScreen.SuratMasuk.DisplayData | src/surat_masuk.py:125-143 | the shown list becomes `data`; the table holds the lines of the current page, the label shows the page and page count, and prev/next are enabled exactly when a page lies before/after |
| SuratMasukScreen.SuratMasuk.LoadData | src/surat_masuk.py:179-189 | with a connection the list is the `masuk` rows newest first on page 1, and any search result is dropped; without one nothing changes |
| SuratMasukScreen.SuratMasuk.FilterData | src/surat_masuk.py:191-195 | the shown list is the search of the loaded rows with the lower-cased text; page 1; the loaded rows stay |
| SuratMasukScreen.SuratMasuk.PrevPage | src/surat_masuk.py:197-199 | the page goes down by exactly 1 with no bounds check; it stays in range when the button was enabled, and leaves it from the initial state |
| SuratMasukScreen.SuratMasuk.NextPage | src/surat_masuk.py:201-203 | the page goes up by exactly 1 with no bounds check; it stays in range when the button was enabled, and leaves it from the initial state |
| SuratMasukScreen.SuratMasuk.ExportToExcel | src/surat_masuk.py:205-214 | nothing happens with no rows or a cancelled save dialog; otherwise the chosen rows are written under the six titles and confirmed, or an error box is shown |
| SuratMasukScreen.SuratMasuk.BukaBerkas | src/surat_masuk.py:300-302 | the "Lihat" button of a line opens that line's stored file path when it is non-empty and exists, and otherwise shows an error box |
| SuratMasukScreen.SuratMasuk.AksiTambah | src/surat_masuk.py:216-247 | a rejected dialog does nothing; an empty stripped number or no file only warns, with no copy and no insert; otherwise the archive steps run |
| SuratMasukScreen.SuratMasuk.Archive | src/surat_masuk.py:231-247 | the folder is made and the file copied to `IN_<stamp><ext>`; a failed copy stops before the insert; without a connection the copy stays and no row is inserted; otherwise one `masuk` row pointing at the copy is inserted and confirmed |
| SuratMasukScreen.SuratMasuk.InsertAndReload | src/surat_masuk.py:241-245 | after the insert and a reload, the new row heads the list and is the first line of page 1 |
| SuratMasukScreen.SuratMasuk.AksiHapus | src/surat_masuk.py:249-266 | nothing happens with no selected line or no confirmation; without a connection only a console message; otherwise the selected line's id is deleted and the reloaded list lacks exactly that row |
| SuratMasukScreen.SuratMasuk.AksiEdit | src/surat_masuk.py:268-298 | a rejected dialog does nothing; without a connection an error box; otherwise that id's five columns are updated with no stripping or validation, and the reloaded list keeps its order with the new values |
| DashboardScreen.ZeroStats | src/dashboard.py:22 | the dictionary starts with exactly the three keys, all 0 |
| DashboardScreen.StatsOf | src/dashboard.py:30-32 | the fold always has exactly the three keys |
| DashboardScreen.Known | src/dashboard.py:31 | a pair is kept exactly when it is in the query's result and its category is one of the three keys |
| DashboardScreen.KnownInOrder | src/dashboard.py:30-31 | the kept pairs are a subsequence of the query's result, so their order is the query's |
| DashboardScreen.UnknownIgnored | src/dashboard.py:31-32 | pairs of any other category do not affect the statistics |
| DashboardScreen.AbsentIsZero | src/dashboard.py:22 | a key that no pair names stays 0 |
| DashboardScreen.LastPairWins | src/dashboard.py:30-32 | a key holds the count of the last pair that names it |
| DashboardScreen.StatsMatchTable | src/dashboard.py:27-32 | with the grouped query's pairs, each statistic is its category's row count, and a category without rows stays 0 |
| DashboardScreen.CardsFor | src/dashboard.py:117-121 | three cards, Surat Masuk, Surat Keluar, Dokumen Umum, with the values masuk, keluar, dokumen |
| DashboardScreen.CardsShowCounts | src/dashboard.py:116-121 | with the grouped query's pairs, the cards show the three categories' row counts, in order |
| DashboardScreen.Sizes | src/dashboard.py:182 | the chart sizes are masuk, keluar, dokumen in that order |
| DashboardScreen.ChartFor | src/dashboard.py:185-205 | the "no data" label is chosen exactly when the sizes sum to 0; otherwise a pie chart of the sizes with the three labels |
| DashboardScreen.ZeroCountIff | src/dashboard.py:27 | a category counts 0 exactly when no row has it |
| DashboardScreen.NoDataIffNoRows | src/dashboard.py:185 | with the grouped query's pairs, the label is shown exactly when the table has no row of the three categories |
| DashboardScreen.Dashboard.constructor | src/dashboard.py:86-108 | the dashboard is built with the cards and then the chart, each from its own statistics read |
| DashboardScreen.Dashboard.GetStats | src/dashboard.py:21-36 | the result has the three keys; it is all zeros without a connection and the fold of the pairs with one |
| DashboardScreen.Dashboard.LoadCards | src/dashboard.py:110-127 | the old cards are removed and exactly the three new cards remain; the chart is untouched |
| DashboardScreen.Dashboard.UpdateChart | src/dashboard.py:174-205 | the chart area is emptied and then holds exactly one widget, the label or the pie chart; the cards are untouched |
| DokumenScreen.MadeDirs | src/dokumen.py:104-105 | `uploads` is made exactly when it does not exist yet |
| DokumenScreen.DocRecord | src/dokumen.py:119-120 | the uploaded row has the title, `kategori` `dokumen`, the date and the copy's path, with no number and no sender |
| DokumenScreen.ReportedNameIsBaseName | src/dokumen.py:109-126 | the name in the confirmation is the final component of the stored path |
| DokumenScreen.UploadKeepsMailList | src/dokumen.py:119-120 | an uploaded document never appears in the incoming-mail list |
| DokumenScreen.KelolaDokumen.constructor | src/dokumen.py:11-14 | the screen starts with no file, an empty title and the "no file" label |
| DokumenScreen.KelolaDokumen.EnterTitle | src/dokumen.py:96 | typing sets the title and leaves the selected file alone |
| DokumenScreen.KelolaDokumen.PilihFile | src/dokumen.py:84-93 | a cancelled dialog changes nothing; a chosen path becomes the file and its base name the label |
| DokumenScreen.KelolaDokumen.SimpanDokumen | src/dokumen.py:95-134 | an empty title (not stripped) or no file only warns; otherwise `uploads` is made if missing and the file copied to `DOC_<stamp><ext>`; a failed copy shows an error box; with a connection one `dokumen` row is inserted, its name reported and the form cleared; without one nothing more happens and the copy stays |

## Left out

- Qt widgets, styling, layouts and message-box details are left out. Each message box is one effect with its text; a critical box is `ErrorBox`, without the exception's text.
- The card fade-in animations, the delayed refresh (`refresh_data`, `_perform_refresh`) and the refresh button are left out. They are timer-driven and cosmetic.
- The matplotlib pie rendering and its percentage labels are left out. They use floating point and a foreign library. Only the choice between the label and the chart is kept, with its labels and sizes.
- pandas `to_excel` and the default file name of the save dialog are left out. The export is an effect holding the path, the column titles and the rows.
- Real files are not modelled. `os.makedirs`, `shutil.copy` and `os.startfile` are effects, and `os.path.exists` is an input. `os.path.abspath` is not modelled: the opened path is the stored one. A failed copy is a `copyOk` flag, and any other I/O failure is not modelled.
- `src/db_manager.py` is reduced to a flag per call: a connection or `None`. Database errors on a live connection are not modelled.
- `main.py` and `src/surat_keluar.py` are not part of this model. That covers the window shell, page switching, and the reload on navigation, which is a plain `LoadData` call.
- The dialog of `src/form_surat.py` is reduced to its result. That is: confirmed or not, its final texts, and its file-picker results, starting from `""` or the edited row's path.
- The date column's display format (`%d/%m/%Y`), the `QDate` conversions and the second `datetime.now()` of an upload are inputs. The edit form's prefilled texts are not modelled apart from the texts the user confirms.
- Sorting the table by clicking a column header is not modelled. The selected line is taken to be line `selectedRow` of the page as displayed.
- SuratMasukScreen.SuratMasuk.DisplayData: `table` holds the page's lines in the order they are inserted. The screen turns sorting back on after filling the table, and Qt then re-sorts the lines by the header's current sort column and order, which is not modelled. The lines shown may therefore be in another order than `table`. Each line still carries its row's id and its own buttons, so edit, delete and "Lihat" act on the right row.
- SuratMasukScreen.SuratMasuk.InsertAndReload: "the new row is `table[0]`, numbered 1" describes the insertion order. Where it appears after Qt's re-sort is not modelled.
- Text.Lower: only ASCII letters are lower-cased. Python's Unicode case mapping is not modelled.
- Store.SelectByCategory: categories are compared exactly. MySQL's case-insensitive collation and NULL categories are not modelled.
- Naming.Stamp: clock readings are limited to years 1000 to 9999, so the year always has four digits.
- Naming.Join: only the `posixpath` rules are modelled. Windows separators and drive letters are not.
- SuratMasukScreen.SuratMasuk.PrevPage: the range guarantee is stated only for a call made while the button is enabled. From the initial state, where Qt leaves both buttons enabled before any load, the page leaves the range, and the contract says so.
- SuratMasukScreen.SuratMasuk.AksiEdit: an edit of an id that is no longer in the table updates nothing and still confirms, as the code does. There is no "not found" path.
- DashboardScreen.StatsMatchTable: the grouped query is taken as an input that matches the table (`IsGroupedCount`). The query itself is not computed from the table.
