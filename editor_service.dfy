/**
 * `cmd/editorservice.go`: choosing the editor and building the arguments it
 * is started with.
 */
module EditorService {
  import opened Wrappers
  import opened Strings
  import opened Editor

  /** The flag that makes VS Code block until its window is closed. */
  const WaitFlag: string := "--wait"

  /** The executable path names an editor that needs `WaitFlag`. */
  ghost predicate NeedsWait(command: string) {
    IsSubstring("code", command) || IsSubstring("vsc", command)
  }

  /**
   * `getPreferredEditor`, with the `editor` flag as a parameter: an empty
   * request, or one missing from the list, falls back to the default.
   */
  method GetPreferredEditor(editor: string) returns (r: string)
    ensures r == Resolve(editor)
    ensures r in SupportedEditors
    ensures r == editor <==> editor in SupportedEditors
  {
    var supportedEditors := SupportedEditors;
    if editor == "" {
      return DefaultEditor;
    }
    for i := 0 to |supportedEditors|
      invariant forall j :: 0 <= j < i ==> supportedEditors[j] != editor
    {
      if editor == supportedEditors[i] {
        return editor;
      }
    }
    return DefaultEditor;
  }

  /**
   * `appendEditorArgs`: the temp file name, preceded by `WaitFlag` exactly
   * when the command contains "code" or "vsc".
   */
  function AppendEditorArgs(command: string, tempFilename: string): (args: seq<string>)
    ensures |args| == 1 || |args| == 2
    ensures args[|args| - 1] == tempFilename
    ensures |args| == 2 <==> NeedsWait(command)
    ensures |args| == 2 ==> args[0] == WaitFlag
  {
    ContainsIffSubstring(command, "code");
    ContainsIffSubstring(command, "vsc");
    var args := [tempFilename];
    if Contains(command, "code") || Contains(command, "vsc") then [WaitFlag] + args else args
  }

  /**
   * The argument vector `openEditor` starts: `exec.LookPath` (a parameter
   * here) turns the editor name into a path, and the wait test is applied to
   * that path. A failed lookup ends the process (`log.Fatal`), modelled as `None`.
   */
  function EditorCommandLine(lookPath: string -> Option<string>, editorName: string,
                             filename: string): (argv: Option<seq<string>>)
    ensures argv.None? <==> lookPath(editorName).None?
    ensures argv.Some? ==>
              var path := lookPath(editorName).value;
              2 <= |argv.value| <= 3 && argv.value[0] == path &&
              argv.value[1..] == AppendEditorArgs(path, filename) &&
              argv.value[|argv.value| - 1] == filename &&
              (|argv.value| == 3 <==> NeedsWait(path)) &&
              (|argv.value| == 3 ==> argv.value[1] == WaitFlag)
  {
    match lookPath(editorName)
    case None => None
    case Some(executable) => Some([executable] + AppendEditorArgs(executable, filename))
  }

  /**
   * The wait test looks at the whole path, not the editor's name: any
   * executable under a directory whose path contains "code" or "vsc" is
   * started with `--wait`, whatever the editor is called.
   */
  lemma {:induction false} DirectoryDecidesWait(dir: string, name: string, tempFilename: string)
    requires NeedsWait(dir)
    ensures AppendEditorArgs(dir + name, tempFilename) == [WaitFlag, tempFilename]
  {
    var path := dir + name;
    var pattern := if IsSubstring("code", dir) then "code" else "vsc";
    var i: nat :| i <= |dir| && OccursAt(dir, pattern, i);
    assert path[i..i + |pattern|] == dir[i..i + |pattern|];
    assert OccursAt(path, pattern, i);
  }

  /**
   * For example: `vim` itself gets no flag, but a `vim` installed under
   * `/home/decoder/bin` is started with `--wait`.
   */
  lemma PathDecidesWait(tempFilename: string)
    ensures Resolve("vim") == "vim"
    ensures AppendEditorArgs("vim", tempFilename) == [tempFilename]
    ensures AppendEditorArgs("/home/decoder/bin/vim", tempFilename) == [WaitFlag, tempFilename]
  {
    var dir := "/home/decoder/bin/";
    assert OccursAt(dir, "code", 8);
    DirectoryDecidesWait(dir, "vim", tempFilename);
    assert dir + "vim" == "/home/decoder/bin/vim";
    assert !IsSubstring("code", "vim") && !IsSubstring("vsc", "vim") by {
      forall i: nat | i <= 3 ensures !OccursAt("vim", "code", i) && !OccursAt("vim", "vsc", i) {
        if i == 0 { assert "vim"[0..3][1] != "vsc"[1]; }
      }
    }
  }
}
