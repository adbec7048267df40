/**
 * The host application's objects, as far as the plugin looks at them:
 * a file handle with its parent folder, and the editor of the active
 * markdown view.
 */
module Host {
  import opened Wrappers

  /**
   * A folder of the vault. `isRoot` stands for the answer of the folder's
   * `isRoot()` method: true exactly for the vault's root folder.
   */
  datatype Folder = Folder(path: string, isRoot: bool)

  /**
   * A file handle (`TFile`): its base name (the name without extension),
   * its extension and its parent folder, which the host may leave unset.
   */
  datatype TFile = TFile(basename: string, extension: string, parent: Option<Folder>)

  /**
   * The text of an editor split at its selection: `before` the selection,
   * the `selection` itself (empty when there is only a cursor) and `after` it.
   */
  datatype Editor = Editor(before: string, selection: string, after: string) {

    /** The whole document text. */
    function Text(): string {
      before + selection + after
    }

    /**
     * `replaceSelection(t)`: the selection is replaced by `t` and the cursor
     * ends up just after the inserted text, with nothing selected.
     */
    function ReplaceSelection(t: string): (e: Editor)
      ensures e.Text() == before + t + after
      ensures e.selection == [] && e.after == after
      ensures e.before == before + t
    {
      Editor(before + t, [], after)
    }
  }

  /**
   * Two insertions in a row at the cursor put both texts there, in order:
   * the reason consecutive link insertions accumulate instead of overwriting
   * each other.
   */
  lemma ReplaceSelectionTwice(e: Editor, s: string, t: string)
    ensures e.ReplaceSelection(s).ReplaceSelection(t) == e.ReplaceSelection(s + t)
  {
    assert e.before + s + t == e.before + (s + t);
  }
}
