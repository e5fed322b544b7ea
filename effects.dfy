/** What the screens do outside their own fields, as an ordered log:
    directories made, files copied, message boxes shown, console output,
    spreadsheets written and files opened. */
module Effects {
  import opened Store

  datatype Effect =
    | MakeDirs(dir: string)                      // os.makedirs
    | CopyFile(source: string, dest: string)     // shutil.copy that completed
    | Warning(text: string)                      // warning message box
    | Information(text: string)                  // information message box
    | ErrorBox                                   // critical message box with an exception's text
    | ConsoleError                               // print(e) of a caught exception
    | ExportSheet(path: string, columns: seq<string>, rows: seq<Row>)  // DataFrame.to_excel
    | OpenFile(path: string)                     // os.startfile
}
