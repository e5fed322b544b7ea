/** The outcome of the record form dialog (`FormTambahSurat`) as the
    screens receive it: the texts of its fields when it is confirmed, and
    the file-picker results that decide its `file_path`. */
module Forms {

  /** The form's fields when the user confirms: number, subject,
      counterparty, the date as `yyyy-MM-dd`, and the paths returned by
      each use of the file picker, in order ("" for a cancelled picker). */
  datatype FormEntry = FormEntry(
    nomor: string,
    perihal: string,
    pihak: string,
    tanggal: string,
    picks: seq<string>)

  /** `dialog.exec()`: rejected, or accepted with the entered fields. */
  datatype Dialog = Rejected | Accepted(entry: FormEntry)

  /** The dialog's `file_path` after the picks: a pick replaces it only
      when the picker returned a non-empty path, so it is the last
      non-empty pick, or `initial` when there is none. */
  function ChosenPath(initial: string, picks: seq<string>): (r: string)
    ensures r == initial || r in picks
    ensures r != initial ==> r != ""
  {
    if picks == [] then initial
    else if picks[|picks| - 1] != "" then picks[|picks| - 1]
    else ChosenPath(initial, picks[..|picks| - 1])
  }

  /** With no non-empty pick the form keeps `initial`; otherwise it holds
      the last non-empty pick: the pick at some index `i`, after which
      every pick was cancelled. */
  lemma {:induction false} ChosenPathIsLastPick(initial: string, picks: seq<string>)
    ensures (forall i :: 0 <= i < |picks| ==> picks[i] == "") ==>
      ChosenPath(initial, picks) == initial
    ensures (exists i :: 0 <= i < |picks| && picks[i] != "") ==>
      exists i :: 0 <= i < |picks| && LastPickAt(picks, i)
        && picks[i] == ChosenPath(initial, picks)
    decreases |picks|
  {
    if picks != [] {
      var n := |picks| - 1;
      var front := picks[..n];
      assert forall j :: 0 <= j < n ==> front[j] == picks[j];
      ChosenPathIsLastPick(initial, front);
      if picks[n] != "" {
        assert LastPickAt(picks, n);
      } else if exists i :: 0 <= i < |picks| && picks[i] != "" {
        var k :| 0 <= k < |picks| && picks[k] != "";
        assert k < n && front[k] != "";
        var i :| 0 <= i < n && LastPickAt(front, i) && front[i] == ChosenPath(initial, front);
        assert LastPickAt(picks, i);
      }
    }
  }

  /** `picks[i]` is a real path and every later pick was cancelled. */
  predicate LastPickAt(picks: seq<string>, i: int)
  {
    0 <= i < |picks| && picks[i] != "" && forall j :: i < j < |picks| ==> picks[j] == ""
  }
}
