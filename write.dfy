/**
 * `cmd/write.go`: its draft of the editor selection and argument building,
 * proved to agree with `cmd/editorservice.go`, and the name of the file the
 * write command persists.
 */
module Write {
  import opened Editor
  import EditorService
  import Strings

  /** `FileExtension`. */
  const FileExtension: string := ".ck"

  /** The write.go draft of `getPreferredEditor`. */
  method GetPreferredEditor(editor: string) returns (r: string)
    ensures r == Resolve(editor)
    ensures r in SupportedEditors
    ensures r == editor <==> editor in SupportedEditors
  {
    var supportedEditors := SupportedEditors;
    if editor == "" {
      return DefaultEditor;
    }
    for i := 0 to |supportedEditors|
      invariant forall j :: 0 <= j < i ==> supportedEditors[j] != editor
    {
      if editor == supportedEditors[i] {
        return editor;
      }
    }
    return DefaultEditor;
  }

  /** Both drafts of `getPreferredEditor` pick the same editor on every input. */
  method PreferredEditorDraftsAgree(editor: string) returns (fromWrite: string, fromService: string)
    ensures fromWrite == fromService
    ensures fromWrite in SupportedEditors
  {
    fromWrite := GetPreferredEditor(editor);
    fromService := EditorService.GetPreferredEditor(editor);
  }

  /**
   * `resolveEditorArgs`, the write.go draft of `appendEditorArgs`; it builds
   * the same argument list on every input.
   */
  function ResolveEditorArgs(command: string, tempFilename: string): (args: seq<string>)
    ensures args == EditorService.AppendEditorArgs(command, tempFilename)
  {
    var args := [tempFilename];
    if Strings.Contains(command, "code") || Strings.Contains(command, "vsc") then
      [EditorService.WaitFlag] + args
    else
      args
  }

  /** The path the write command persists to: the file-name flag, then ".ck". */
  function OutputPath(fileName: string): (path: string)
    ensures |path| == |fileName| + |FileExtension|
    ensures path[..|fileName|] == fileName
    ensures path[|fileName|..] == FileExtension
  {
    fileName + FileExtension
  }
}
