# Notepad: editor tabs, text helpers, collaboration flags and document routes

This project models the core of a browser notepad and its small Node
server, and proves properties of that model.

- **Tabs** (`tabs.dfy`): the editor's tab manager in `script.js`. It covers the
  tab list, the active tab id, the id counter, and what the editor shows (text,
  title, document name). The value functions `Switch`, `Add`, `Close`,
  `TypeText`, `TypeTitle` and `InitializeTabs` state what each operation leaves
  behind. The class `TabManager` updates the same state in place, as the
  page's global variables are updated, and each of its methods is proved to
  match its function. The invariant `Valid` holds after every operation: at
  least one tab, distinct ids below the counter, and an active id that names a
  tab.
- **EditorText** (`editor_text.dfy`): the character and word counts, the Tab key
  indentation, the document name derived from the title, and the "saved …
  ago" buckets.
- **JsString** (`js_string.dfy`): the JavaScript string built-ins these use:
  `trim`, `split(/\s+/)` with JavaScript's whitespace set, ASCII `toLowerCase`,
  `endsWith`, `indexOf`, string `replace`, and the decimal form of an integer.
- **Collab** (`collab.dfy`): the client's collaboration flags. It covers reading
  the session id from the page path and the socket `connect` handler that
  joins or re-attaches. `CollabClient` updates the flags in place.
- **Documents** (`documents.dfy`): the server's filename sanitiser and the path
  shared by save, load and delete. It also covers save-request validation and
  the `.txt` listing. Each route yields the file operation it would perform.
- **Autosave** (`autosave.dfy`): links the names the editor makes up to what the
  server stores and lists.

`script.js` looks a session up with `GET /api/collaborate/<id>`
(script.js:151) and creates one with `POST /api/collaborate/create`
(script.js:500). `server.js` defines neither route: it serves the document
routes, and its `GET *` handler (server.js:106) answers every other GET,
the session lookup included, with `index.html`. The model therefore covers
only the client side of collaboration, and the reply to the session lookup
is an input (`Collab.Reply`).

## Model

| member | source | states |
|---|---|---|
| JsString.Trim | script.js:376 | `trim` gives the empty string exactly when the text is all whitespace; otherwise the result starts and ends with a non-whitespace character |
| JsString.TrimIsSlice | script.js:376 | `trim` returns the part of the text between an all-whitespace prefix and an all-whitespace suffix; with `Trim`'s own contract this fixes the result |
| JsString.Split | script.js:376 | `split(/\s+/)` returns at least one piece, and no piece contains whitespace; `EditorText.ReplaceIsSplitJoin` says what the pieces are |
| JsString.SplitCountsWords | script.js:376 | on a string with non-whitespace at both ends, the number of pieces equals the number of maximal non-whitespace runs, and no piece is empty |
| JsString.TrimKeepsWords | script.js:376 | trimming does not change the number of words |
| JsString.ToLowerCase | script.js:462 | keeps the length and lowers each character on its own |
| JsString.ToLowerCaseProperties | script.js:462 | the result has no upper-case letter, keeps whitespace where it was, and equals text that had no upper-case letter |
| JsString.Decimal | script.js:273 | the string form of `Date.now()` is a non-empty run of digits with no leading zero |
| JsString.DecimalRoundTrip | script.js:273 | reading the digits back gives the number |
| JsString.IndexOf | server.js:75 | returns the first occurrence at or after the start, or nothing exactly when there is none |
| JsString.ReplaceFirst | server.js:75 | a string-pattern `replace` returns the text unchanged when the pattern occurs nowhere; otherwise, for the leftmost position where it occurs, the text before it, then the replacement, then the text after that occurrence |
| EditorText.WordCountIsWords | script.js:376 | the trim/split formula counts the maximal non-whitespace runs, and gives 0 exactly for all-whitespace text |
| EditorText.UpdateCounts | script.js:373-380 | chars is the text's length; words is its number of words, and 0 exactly when the text is blank |
| EditorText.InsertTab | script.js:674-682 | the selection is replaced by four spaces; text before and after is kept; the caret lands after the spaces |
| EditorText.InsertTabUndo | script.js:677-680 | deleting the inserted spaces gives the text with the selection removed, or the original text when nothing was selected |
| EditorText.ReplaceSpaceRuns | script.js:462 | `replace(/\s+/g, '_')` never makes the text longer |
| EditorText.ReplaceLeavesNoSpace | script.js:462 | after the replacement no whitespace is left, and text with no whitespace is unchanged |
| EditorText.ReplaceIsSplitJoin | script.js:462 | replacing every maximal whitespace run by the separator equals splitting at the runs (`split(/\s+/)`) and joining the pieces with the separator |
| EditorText.DocName | script.js:461-462 | the derived document name is non-empty and has no whitespace and no upper-case ASCII letter |
| EditorText.DocNameJoinsWords | script.js:461-462 | the derived name is the lower-cased trimmed title (or default title) split into its words and joined with `_`; there is one non-empty piece per word |
| EditorText.DocNameLength | script.js:461-462 | the derived name is no longer than the trimmed title, or than the default title when the trimmed title is empty |
| EditorText.DocNameIdempotent | script.js:461-462 | deriving the name again from a derived name changes nothing |
| EditorText.ElapsedSeconds | script.js:364 | the whole seconds are the millisecond difference rounded down |
| EditorText.FormatAge | script.js:366-369 | each label is chosen exactly for its range (under a minute, minutes, hours, a day or more), and the minutes and hours shown are the ages rounded down |
| EditorText.FormatAgeMonotonic | script.js:364-369 | an older save never gets a label that reads as more recent |
| Documents.Sanitize | server.js:28 | keeps the length, keeps every `[a-zA-Z0-9_-]` character, and replaces every other character by `_` |
| Documents.SanitizeIdempotent | server.js:28 | a name of safe characters is kept as is, so sanitising twice equals sanitising once |
| Documents.DocPathParts | server.js:29 | the path is `documents/` + sanitised name + `.txt` |
| Documents.DocPathConfined | server.js:28-29 | the path is under `documents/`, and its name part has no `/` and no `.` before the extension; two filenames map to the same file exactly when they sanitise alike |
| Documents.Save | server.js:22-31 | a missing or empty filename is rejected with 400 and nothing is written; any other filename writes the content to its sanitised path |
| Documents.RoutesShareOnePath | server.js:28-91 | save, load and delete of one non-empty filename touch the same file; load reports the sanitised name that file is named after |
| Documents.TxtFiles | server.js:72-73 | a directory entry is kept exactly when it ends in `.txt` |
| Documents.TxtFilesOne | server.js:72-73 | a one-entry listing keeps the entry exactly when it ends in `.txt` |
| Documents.TxtFilesAppend | server.js:72-73 | filtering two listings put together gives the two filtered listings put together, so the kept entries stay in directory order |
| Documents.ListDocuments | server.js:72-77 | one entry per `.txt` file, in directory order; `fullName` is the file and `name` is the file with its first `.txt` removed |
| Documents.StoredNameStripsToSanitised | server.js:75 | for a stored file, removing the first `.txt` gives back the sanitised name, because that name has no `.` |
| Documents.SavedDocumentIsListed | server.js:28-77 | once a saved file is in the directory, the listing shows it under its sanitised name, and loading that name reads the written file |
| Collab.FirstMatch | script.js:137 | finds the leftmost position where `/collaborate/` is followed by an id character, or reports there is none |
| Collab.IdRunLength | script.js:137 | the greedy `[a-f0-9-]+` takes the longest run of id characters |
| Collab.SessionIdFromPath | script.js:136-137 | there is no id exactly when the pattern does not occur; otherwise the id is a valid session id and is the full id run after the leftmost match |
| Collab.CheckSession | script.js:135-145 | reports a session exactly when the path names one, and records that id; otherwise the flags are unchanged; reachable flags stay reachable |
| Collab.Join | script.js:148-181 | the session is fetched first; `join-session` is sent, as the only other request, exactly when the session was found and the socket is connected; a found session is recorded and the client is collaborating; otherwise the flags are unchanged |
| Collab.OnConnect | script.js:70-81 | with no session nothing is sent; a joined client re-sends `join-session`; an unjoined client first fetches the session, sends `join-session` as its only other request exactly when the session was found while connected, and is collaborating afterwards exactly when it was found; every request names the current session |
| Collab.JoinedClientReattaches | script.js:76-79 | after any series of reconnects a joined client keeps its flags and has sent only `join-session` for its session, once per reconnect |
| Collab.FoundSessionIsJoined | script.js:154-163 | a found session reached while connected is fetched, then joined, and the client is collaborating |
| Collab.CollabClient.constructor | script.js:39-40 | the flags start with no session and not collaborating |
| Collab.CollabClient.CheckCollaborativeSession | script.js:135-145 | updates the flags in place as `CheckSession` states |
| Collab.CollabClient.HandleConnect | script.js:70-81 | updates the flags in place and returns the requests as `OnConnect` states |
| Tabs.FindIndex | script.js:286 | `findIndex` returns the first tab with the id, or -1 exactly when no tab has it |
| Tabs.SwitchStoresThenShows | script.js:244-265 | switching stores the editor into the previously active tab, changes no other tab, makes the target active and shows it; the invariant holds |
| Tabs.SwitchAwayAndBack | script.js:244-265 | switching to another tab and back shows the editor as it was left, so no edit is lost |
| Tabs.AddAppendsFreshTab | script.js:268-278 | adding stores the editor into the old tab, appends one empty tab whose id is the old counter, increments the counter, and shows the new tab; ids stay distinct |
| Tabs.CloseRefused | script.js:281-288 | the last tab cannot be closed, and closing an unknown id changes nothing |
| Tabs.RemoveAtKeepsOthers | script.js:290 | splicing out one tab keeps the others in order, keeps their ids distinct, and removes exactly the closed id |
| Tabs.CloseRemovesExactlyOne | script.js:281-301 | with more than one tab, closing removes exactly that tab, writes into no other tab, reports it closed, and keeps the invariant |
| Tabs.CloseActiveShowsNeighbour | script.js:293-296 | closing the active tab shows the tab now at its index, or the new last tab; the closed tab's editor contents are not written back |
| Tabs.CloseInactiveKeepsEditor | script.js:297-300 | closing another tab keeps the active tab and the editor as they were |
| Tabs.TypeTextSyncsActiveTab | script.js:448-454 | outside collaboration, typing stores the text into the active tab only, and the invariant holds |
| Tabs.TypeTitleSyncsActiveTab | script.js:460-481 | outside collaboration, the title and its derived document name go into the editor and the active tab only |
| Tabs.TypingWhileCollaboratingKeepsTabs | script.js:447-481 | while collaborating, typing changes what the editor shows but no tab |
| Tabs.MaxId | script.js:199 | the largest id is one of the tabs' ids and no tab's id exceeds it |
| Tabs.InitializeTabsAsWrittenLosesActiveTab | script.js:196-201 | as written, restoring stores the page-load editor into the restored active tab, so its saved text, title and name are lost |
| Tabs.InitializeTabsAsWrittenCounterexample | script.js:196-201 | a stored tab holding "hello" comes back empty when the page loads with an empty editor |
| Tabs.InitializeTabsRestores | script.js:184-205 | with nothing stored there is one default tab; otherwise the stored tabs come back unchanged, the stored (or first) tab is active and shown, and the counter is above every id; the invariant holds |
| Tabs.TabManager.constructor | script.js:184-205 | sets the globals as the corrected `InitializeTabs` states |
| Tabs.TabManager.SwitchToTab | script.js:244-265 | updates the state in place as `Switch` states, and keeps the invariant |
| Tabs.TabManager.AddTab | script.js:268-278 | updates the state in place as `Add` states, and keeps the invariant |
| Tabs.TabManager.CloseTab | script.js:281-301 | returns the outcome and updates the state in place as `Close` states, and keeps the invariant |
| Tabs.TabManager.OnTextInput | script.js:435-457 | updates the state in place as `TypeText` states, and keeps the invariant |
| Tabs.TabManager.OnTitleInput | script.js:460-484 | updates the state in place as `TypeTitle` states, and keeps the invariant |
| Autosave.TitledDocumentIsSaved | script.js:409-412 | after a title edit, the autosave request is never rejected and writes to the path of the derived name |
| Autosave.NewTabNameIsSafe | script.js:273 | a new tab's `untitled_<ms>` name has only characters the sanitiser keeps |
| Autosave.NewTabDocumentKeepsItsName | script.js:409-412 | a new tab's document is stored under exactly its own name and listed under it |

## Left out

- DOM rendering (`renderTabs`, status texts, alerts) is not modelled. Neither are `localStorage` writes (`saveTabs`), `fetch` and socket transport, or file-system calls. The server routes yield the file operation; the client's lookup reply and socket state are inputs.
- Errors from the file system are not modelled: a missing file (404) and failed writes or unlinks (500).
- The server's `catch` for a `filename` that is not a string is not modelled. Such a value is truthy but has no `replace`, so the route answers 500. Filenames are strings here.
- `Tabs.InitializeTabsRestores` assumes storage holds what `saveTabs` wrote: a non-empty list with distinct ids, and a stored active id among them. Hand-edited storage, `JSON.parse` failures and `parseInt` of non-numeric text are not modelled.
- In collaborative mode the page skips `initializeTabs`. This page-load sequence is not modelled: `TabManager` is always constructed by `initializeTabs`.
- A successful join also loads the session's title and text into the editor. Those editor fields are not modelled, and neither are `isReceivingUpdate` and the socket update handlers (`load-content`, `content-update`, `title-update`, user counts). `Collab` models only the two flags and the requests sent.
- `formatTime` parses dates and prints `toLocaleDateString()` for old saves. Both are left out: the model starts from millisecond timestamps and returns the bucket (`Age`) instead of the text.
- Strings are sequences of Unicode scalar values, while JavaScript counts UTF-16 code units. `UpdateCounts` counts a character outside the Basic Multilingual Plane as one where the page counts two.
- Documents.Sanitize: works on Unicode scalar values, while the server's regular expression has no `u` flag and replaces each UTF-16 code unit. A character outside the Basic Multilingual Plane becomes `__` on the server and `_` here: `a😀` is stored as `a__.txt`, while the model gives `a_`. `Documents.DocPath`, `Documents.SavedDocumentIsListed` and `Documents.ListDocuments` inherit this difference for such names.
- Collab.OnConnect: assumes each join finishes before the next `connect` event. `joinCollaborativeSession` is asynchronous and is not awaited (script.js:75). A reconnect while the lookup is pending finds the client not yet collaborating, fetches the session again, and can send `join-session` twice.
- Autosave.AutosaveRequest: builds the save request right after the edit. The page waits 500 ms (script.js:394), reads `currentDocName` and the text at that moment (script.js:409-412), and posts only when `serverAvailable` is set (script.js:402). The debounce, the timer and the server-availability check are not modelled.
- `JsString.ToLowerCase` lowers only ASCII letters, while JavaScript also lowers other scripts. `EditorText.DocName` therefore states "no upper-case ASCII letter" only.
- The server-side session store, session expiry and edit relay are not modelled, because `server.js` contains none of them.
- Creating a session (`POST /api/collaborate/create`), fonts, themes, keyboard shortcuts, download and clearing are not modelled; they are outside the tab manager and the document routes.

## Findings

| source | as written | input that shows it | evidently intended | confidence | as-written member | corrected member |
|---|---|---|---|---|---|---|
| script.js:196-201 | `initializeTabs` sets `activeTabId` to the stored id and then calls `switchToTab(activeTabId)`. That call first stores the editor as the page loaded it into the tab with that same id. `switchToTab` then saves the tabs, so the stored active tab's text, title and name are overwritten in storage too. | stored tabs `[{id: 1, title: "Notes", content: "hello", docName: "notes"}]`, stored active id `1`, page loaded with an empty editor | the stored tabs come back unchanged and the stored active tab is shown | not executed | Tabs.InitializeTabsAsWrittenCounterexample | Tabs.InitializeTabsRestores |
