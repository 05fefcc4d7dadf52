/**
 * Autosave posts the editor's text to `POST /api/save` under the current
 * document name. These lemmas connect the names the editor makes up to what
 * the server stores and lists.
 */
module Autosave {
  import opened Wrappers
  import opened JsString
  import opened EditorText
  import opened Documents
  import opened Tabs

  /** The save request autosave makes for the editor's state, as the server handles it. */
  function AutosaveRequest(w: Workspace): SaveResult {
    Save(Some(w.docName), w.text)
  }

  /** A name derived from a title is never empty, so autosave after a title edit is never rejected. */
  lemma TitledDocumentIsSaved(w: Workspace, title: string, collaborating: bool)
    ensures var r := AutosaveRequest(TypeTitle(w, title, collaborating));
      r.WriteFile? && r.path == DocPath(DocName(title)) && r.content == w.text
  {
    assert DocName(title) != "";
  }

  /** The name `addTab` gives a new tab is made of safe characters only. */
  lemma NewTabNameIsSafe(id: int, nowMs: nat)
    ensures IsSafe(NewTab(id, nowMs).docName)
  {
    var d := Decimal(nowMs);
    var name := NewTab(id, nowMs).docName;
    assert name == "untitled_" + d;
    forall i | 0 <= i < |name| ensures IsSafeChar(name[i]) {
      if i >= 9 { assert name[i] == d[i - 9]; }
    }
  }

  /**
   * A new tab's document is stored under exactly its own name, and once the
   * file is in the directory the listing shows it under that name.
   */
  lemma NewTabDocumentKeepsItsName(id: int, nowMs: nat, content: string, files: seq<string>)
    requires NewTab(id, nowMs).docName + Extension in files
    ensures var name := NewTab(id, nowMs).docName;
      && Save(Some(name), content) == WriteFile(DocsDir + "/" + name + Extension, content)
      && DocEntry(name, name + Extension) in ListDocuments(files)
  {
    var name := NewTab(id, nowMs).docName;
    NewTabNameIsSafe(id, nowMs);
    SanitizeIdempotent(name);
    SavedDocumentIsListed(name, content, files);
  }
}
