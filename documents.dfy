/**
 * The document routes of the server: the filename sanitiser shared by save,
 * load and delete, the validation of a save request, the path each route
 * touches, and the `.txt` listing. The file-system calls themselves are not
 * modelled; each route yields the operation it would perform.
 */
module Documents {
  import opened Wrappers
  import opened JsString

  /** The directory the documents are kept in (`path.join(__dirname, 'documents')`). */
  const DocsDir := "documents"
  const Extension := ".txt"

  /** A character the pattern `[a-z0-9_-]` with the `i` flag accepts: an ASCII letter of either case, a digit, `_` or `-`. */
  predicate IsSafeChar(c: char) {
    ('a' <= c <= 'z') || ('A' <= c <= 'Z') || ('0' <= c <= '9') || c == '_' || c == '-'
  }

  predicate IsSafe(s: string) {
    forall i :: 0 <= i < |s| ==> IsSafeChar(s[i])
  }

  /** `filename.replace(/[^a-z0-9_-]/gi, '_')`. */
  function Sanitize(name: string): (r: string)
    ensures |r| == |name|
    ensures IsSafe(r)
    ensures forall i :: 0 <= i < |name| ==> (IsSafeChar(name[i]) <==> r[i] == name[i])
    ensures forall i :: 0 <= i < |name| ==> !IsSafeChar(name[i]) ==> r[i] == '_'
  {
    if |name| == 0 then ""
    else [if IsSafeChar(name[0]) then name[0] else '_'] + Sanitize(name[1..])
  }

  /** A name made only of safe characters is kept as it is; in particular sanitising twice is sanitising once. */
  lemma SanitizeIdempotent(name: string)
    ensures IsSafe(name) ==> Sanitize(name) == name
    ensures Sanitize(Sanitize(name)) == Sanitize(name)
  {
  }

  /** The file a route reads, writes or removes for a requested filename: `DOCS_DIR/<sanitised>.txt`. */
  function DocPath(filename: string): (p: string)
  {
    DocsDir + "/" + Sanitize(filename) + Extension
  }

  /** The part of a path after the documents directory. */
  function FileInDocsDir(p: string): string
    requires |p| >= |DocsDir| + 1
  {
    p[|DocsDir| + 1..]
  }

  lemma DocPathParts(f: string)
    ensures |DocPath(f)| == |DocsDir| + 1 + |f| + |Extension|
    ensures DocPath(f)[..|DocsDir| + 1] == DocsDir + "/"
    ensures FileInDocsDir(DocPath(f)) == Sanitize(f) + Extension
  {
    assert DocPath(f) == (DocsDir + "/") + (Sanitize(f) + Extension);
  }

  /**
   * Every path lies directly inside the documents directory: the file part
   * has no `/` and no `.` other than the one of the extension, so no
   * requested name can reach another directory; and two requests touch the
   * same file exactly when their names sanitise alike.
   */
  lemma DocPathConfined(f: string, g: string)
    ensures DocPath(f)[..|DocsDir| + 1] == DocsDir + "/"
    ensures FileInDocsDir(DocPath(f)) == Sanitize(f) + Extension
    ensures forall i :: 0 <= i < |f| ==> FileInDocsDir(DocPath(f))[i] != '/' && FileInDocsDir(DocPath(f))[i] != '.'
    ensures DocPath(f) == DocPath(g) <==> Sanitize(f) == Sanitize(g)
  {
    DocPathParts(f);
    FileNameHasNoSeparator(f);
    DocPathInjective(f, g);
  }

  lemma FileNameHasNoSeparator(f: string)
    ensures forall i :: 0 <= i < |f| ==> FileInDocsDir(DocPath(f))[i] != '/' && FileInDocsDir(DocPath(f))[i] != '.'
  {
    DocPathParts(f);
    forall i | 0 <= i < |f|
      ensures FileInDocsDir(DocPath(f))[i] != '/' && FileInDocsDir(DocPath(f))[i] != '.'
    {
      assert FileInDocsDir(DocPath(f))[i] == Sanitize(f)[i];
    }
  }

  lemma DocPathInjective(f: string, g: string)
    ensures DocPath(f) == DocPath(g) <==> Sanitize(f) == Sanitize(g)
  {
    if DocPath(f) == DocPath(g) {
      DocPathParts(f);
      DocPathParts(g);
      var sf, sg := Sanitize(f), Sanitize(g);
      assert sf + Extension == sg + Extension;
      assert sf == (sf + Extension)[..|sf|];
      assert sg == (sg + Extension)[..|sg|];
    }
  }

  /** What `POST /api/save` does with a request. */
  datatype SaveResult =
    | Rejected(status: nat, error: string)
    | WriteFile(path: string, content: string)

  /**
   * `POST /api/save`: a missing (absent or null) or empty `filename` is
   * rejected with status 400 and nothing is written; otherwise the content
   * is written to the sanitised path.
   */
  function Save(filename: Option<string>, content: string): (r: SaveResult)
    ensures r.Rejected? <==> filename.None? || filename.value == ""
    ensures r.Rejected? ==> r.status == 400
    ensures r.WriteFile? ==> r.path == DocPath(filename.value) && r.content == content
  {
    if filename.None? || filename.value == "" then Rejected(400, "Filename is required")
    else WriteFile(DocPath(filename.value), content)
  }

  /** What `GET /api/load/:filename` reads, and the name it reports back. */
  datatype LoadRequest = ReadFile(path: string, reportedName: string)

  function Load(filename: string): (r: LoadRequest)
  {
    ReadFile(DocPath(filename), Sanitize(filename))
  }

  /** What `DELETE /api/delete/:filename` removes. */
  datatype DeleteRequest = Unlink(path: string)

  function Delete(filename: string): (r: DeleteRequest)
  {
    Unlink(DocPath(filename))
  }

  /** Save, load and delete of one filename touch the same file. */
  lemma RoutesShareOnePath(filename: string, content: string)
    requires filename != ""
    ensures Save(Some(filename), content).WriteFile?
    ensures Save(Some(filename), content).path == Load(filename).path == Delete(filename).path
    ensures Load(filename).path == DocsDir + "/" + Load(filename).reportedName + Extension
  {
  }

  /** One entry of the listing. */
  datatype DocEntry = DocEntry(name: string, fullName: string)

  /** The directory entries that end in `.txt`, in directory order. */
  function TxtFiles(files: seq<string>): (r: seq<string>)
    ensures |r| <= |files|
    ensures forall f :: f in r <==> f in files && EndsWith(f, Extension)
  {
    if |files| == 0 then []
    else if EndsWith(files[0], Extension) then [files[0]] + TxtFiles(files[1..])
    else
      assert forall f :: f in files <==> f == files[0] || f in files[1..];
      TxtFiles(files[1..])
  }

  /** A single entry is kept exactly when it ends in `.txt`. */
  lemma TxtFilesOne(f: string)
    ensures TxtFiles([f]) == if EndsWith(f, Extension) then [f] else []
  {
    assert [f][1..] == [];
  }

  /** Filtering a listing made of two parts filters each part, in order. */
  lemma {:induction false} TxtFilesAppend(x: seq<string>, y: seq<string>)
    ensures TxtFiles(x + y) == TxtFiles(x) + TxtFiles(y)
    decreases |x|
  {
    if |x| == 0 {
      assert x + y == y;
    } else {
      assert (x + y)[0] == x[0];
      assert (x + y)[1..] == x[1..] + y;
      TxtFilesAppend(x[1..], y);
    }
  }

  /**
   * `GET /api/documents`: the `.txt` entries in their directory order, each
   * named by its full name with the first `.txt` removed.
   */
  function ListDocuments(files: seq<string>): (r: seq<DocEntry>)
    ensures |r| == |TxtFiles(files)| <= |files|
    ensures forall k :: 0 <= k < |r| ==> r[k].fullName == TxtFiles(files)[k]
    ensures forall k :: 0 <= k < |r| ==> r[k].name == ReplaceFirst(r[k].fullName, Extension, "")
  {
    if |files| == 0 then []
    else if EndsWith(files[0], Extension) then
      [DocEntry(ReplaceFirst(files[0], Extension, ""), files[0])] + ListDocuments(files[1..])
    else ListDocuments(files[1..])
  }

  /** In a stored file name the first `.txt` is the extension, because a sanitised name has no `.`. */
  lemma StoredNameStripsToSanitised(f: string)
    ensures ReplaceFirst(Sanitize(f) + Extension, Extension, "") == Sanitize(f)
  {
    var s := Sanitize(f);
    var full := s + Extension;
    assert OccursAt(full, Extension, |s|);
    forall j | 0 <= j < |s| ensures !OccursAt(full, Extension, j) {
      assert full[j] == s[j];
      if j + |Extension| <= |full| { assert full[j..j + |Extension|][0] == full[j]; }
    }
    assert IndexOf(full, Extension, 0) == Some(|s|);
    assert full[..|s|] == s;
  }

  /**
   * Save then list: a document saved under a non-empty filename is listed
   * with `name` equal to the sanitised filename, and loading that name reads
   * back the file that was written.
   */
  lemma SavedDocumentIsListed(filename: string, content: string, files: seq<string>)
    requires filename != ""
    requires Sanitize(filename) + Extension in files
    ensures DocEntry(Sanitize(filename), Sanitize(filename) + Extension) in ListDocuments(files)
    ensures Load(Sanitize(filename)).path == Save(Some(filename), content).path
  {
    var full := Sanitize(filename) + Extension;
    assert EndsWith(full, Extension) by {
      assert full[|full| - |Extension|..] == Extension;
    }
    assert full in TxtFiles(files);
    var k :| 0 <= k < |TxtFiles(files)| && TxtFiles(files)[k] == full;
    StoredNameStripsToSanitised(filename);
    assert ListDocuments(files)[k] == DocEntry(Sanitize(filename), full);
    SanitizeIdempotent(filename);
  }
}
