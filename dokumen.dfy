/** The general-document screen (`KelolaDokumen`): a title, a selected
    source file and the upload that copies it to `uploads/DOC_<stamp><ext>`
    and inserts a `dokumen` row. */
module DokumenScreen {
  import opened Wrappers
  import opened Naming
  import opened Store
  import opened Effects

  const NoFileLabel: string := "Belum ada file dipilih"
  const MissingWarning: string := "Isi judul dan pilih file terlebih dahulu!"
  const UploadedPrefix: string := "Dokumen berhasil diupload sebagai: "

  /** The row an upload inserts: only the title, the category, the date
      and the copy's path; number and counterparty are not supplied. */
  function DocRecord(judul: string, today: string, dest: string): (r: Record)
    ensures r.nomor.None? && r.asal.None?
    ensures r.judul == judul && r.kategori == Dokumen
    ensures r.tanggal == today && r.filePath == dest
  {
    Record(None, judul, None, Dokumen, today, dest)
  }

  /** The name the confirmation reports is the final component of the
      stored path. */
  lemma ReportedNameIsBaseName(now: DateTime, source: string)
    requires ValidDateTime(now)
    ensures BaseName(DocDest(now, source)) == DocFileName(now, source)
  {
    var name := DocFileName(now, source);
    var p := DocDest(now, source);
    StampHasNoDot(now);
    assert Sep !in name;
    assert p == UploadRoot + [Sep] + name;
    assert forall k :: |UploadRoot| < k < |p| ==> p[k] == name[k - |UploadRoot| - 1];
    LastIndexOfUnique(p, Sep, |UploadRoot|);
  }

  /** An uploaded document never shows up in the incoming-mail list. */
  lemma UploadKeepsMailList(store: Table, judul: string, today: string, dest: string)
    requires ValidTable(store)
    ensures SelectByCategory(Insert(store, DocRecord(judul, today, dest)), Masuk)
         == SelectByCategory(store, Masuk)
  {
    InsertSelectOther(store, DocRecord(judul, today, dest), Masuk);
  }

  /** `os.makedirs('uploads')` when the directory is missing. */
  function MadeDirs(uploadsExists: bool): (r: seq<Effect>)
    ensures r == [] <==> uploadsExists
  {
    if uploadsExists then [] else [MakeDirs(UploadRoot)]
  }

  class KelolaDokumen {
    var fileAsal: string
    var judul: string       // the title line edit's text
    var pathLabel: string   // the label under the file button

    /** The label names the selected file, or says none is selected. */
    ghost predicate Valid()
      reads this
    {
      && (fileAsal == "" ==> pathLabel == NoFileLabel)
      && (fileAsal != "" ==> pathLabel == BaseName(fileAsal))
    }

    constructor()
      ensures Valid()
      ensures fileAsal == "" && judul == "" && pathLabel == NoFileLabel
    {
      fileAsal := "";
      judul := "";
      pathLabel := NoFileLabel;
    }

    /** The user types a title. */
    method EnterTitle(text: string)
      requires Valid()
      modifies this
      ensures Valid()
      ensures judul == text && fileAsal == old(fileAsal) && pathLabel == old(pathLabel)
    {
      judul := text;
    }

    /** `pilih_file`: a cancelled dialog (empty path) changes nothing;
      otherwise the path is selected and the label shows its base name. */
    method PilihFile(dialogPath: string)
      requires Valid()
      modifies this
      ensures Valid() && judul == old(judul)
      ensures dialogPath == "" ==> unchanged(this)
      ensures dialogPath != "" ==> fileAsal == dialogPath && pathLabel == BaseName(dialogPath)
    {
      if dialogPath != "" {
        fileAsal := dialogPath;
        pathLabel := BaseName(dialogPath);
      }
    }

    /** `simpan_dokumen`: with an empty title (not stripped) or no selected
      file it only warns. Otherwise it makes `uploads` when missing and
      copies the file to `uploads/DOC_<stamp><ext>`; a failed copy ends in
      an error box. With a connection it inserts the `dokumen` row, reports
      the new name and clears the form; without one it stops silently,
      leaving the copy behind and the form as it was. */
    method SimpanDokumen(now: DateTime, today: string, uploadsExists: bool, copyOk: bool,
                         conn: bool, store: Table)
      returns (store': Table, effects: seq<Effect>)
      requires Valid() && ValidTable(store) && ValidDateTime(now)
      modifies this
      ensures Valid() && ValidTable(store')
      ensures old(judul == "" || fileAsal == "") ==>
        effects == [Warning(MissingWarning)] && store' == store && unchanged(this)
      ensures old(judul != "" && fileAsal != "") ==>
        var copied := MadeDirs(uploadsExists) + [CopyFile(old(fileAsal), DocDest(now, old(fileAsal)))];
        (!copyOk ==> effects == MadeDirs(uploadsExists) + [ErrorBox] && store' == store && unchanged(this))
        && (copyOk && !conn ==> effects == copied && store' == store && unchanged(this))
        && (copyOk && conn ==>
              store' == Insert(store, DocRecord(old(judul), today, DocDest(now, old(fileAsal))))
              && effects == copied + [Information(UploadedPrefix + DocFileName(now, old(fileAsal)))]
              && judul == "" && fileAsal == "" && pathLabel == NoFileLabel)
    {
      if judul == "" || fileAsal == "" {
        return store, [Warning(MissingWarning)];
      }
      var made := MadeDirs(uploadsExists);
      var pathTujuan := DocDest(now, fileAsal);
      if !copyOk {
        return store, made + [ErrorBox];
      }
      var copied := made + [CopyFile(fileAsal, pathTujuan)];
      if !conn {
        return store, copied;
      }
      store' := Insert(store, DocRecord(judul, today, pathTujuan));
      effects := copied + [Information(UploadedPrefix + DocFileName(now, fileAsal))];
      Clear();
    }

    /** The form after a successful upload: no title, no file. */
    method Clear()
      modifies this
      ensures Valid() && judul == "" && fileAsal == "" && pathLabel == NoFileLabel
    {
      judul := "";
      pathLabel := NoFileLabel;
      fileAsal := "";
    }
  }
}
