/**
 * The editor allow-list shared by both drafts of `getPreferredEditor`: a
 * requested editor is kept when it is on the list and replaced by the
 * default otherwise. Unsupported names are never an error.
 */
module Editor {

  /** `DefaultEditor`. */
  const DefaultEditor: string := "vim"

  /** The editors the tool accepts, in the order the source scans them. */
  const SupportedEditors: seq<string> := ["vim", "vi", "code", "vsc", "nano"]

  /** The editor a request resolves to. */
  function Resolve(requested: string): (r: string)
    ensures r in SupportedEditors
    ensures requested in SupportedEditors ==> r == requested
    ensures requested !in SupportedEditors ==> r == DefaultEditor
    ensures requested == "" ==> r == DefaultEditor
  {
    if requested == "" then DefaultEditor
    else if requested in SupportedEditors then requested
    else DefaultEditor
  }

  /** Resolving a resolved editor changes nothing. */
  lemma ResolveIdempotent(requested: string)
    ensures Resolve(Resolve(requested)) == Resolve(requested)
  {
  }
}
