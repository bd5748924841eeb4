# Vertab Notebook note store, in Dafny

Vertab Notebook is a one-window tkinter note-taking application
(`testvertab.py`). A sidebar lists saved note titles, an editor pane holds a
title entry and a content box, and three buttons (New Note, Save, Delete)
act on a global title -> content dictionary. The dictionary is written to
`notes.json` in full after every change.

This project models that note store:

- `text.dfy` (module `Text`): Python's `str.strip()` and `str.rstrip()` as the
  Save handler applies them, over Python 3's `str.isspace()` character set.
- `title_order.dfy` (module `TitleOrder`): Python's `<` on `str`, which is
  code-point lexicographic. It also defines `sorted` over a set of titles.
- `notes.dfy` (module `Notes`): the class `NoteApp`. Its fields are the
  `notes` dictionary, `current_note_title` (`current`, an `Option`) and the
  notes file (`file`, `None` while the file does not exist). Its methods are
  the four handlers plus file saving and sidebar rebuilding. The pure
  functions (`StoreAfterSave`, `SidebarTitles`) have lemmas about them.
  Four walkthrough methods replay sessions: a rename, a blank title, a delete
  with nothing selected, and a declined then a confirmed deletion.

What a handler reads from a widget becomes a parameter: the title entry, the
content box, the Treeview selection, and the answer to the yes/no dialog.
What it writes to a widget becomes its result: the editor fields, the
rebuilt sidebar rows and the selected row. An error dialog becomes an
outcome value (`EmptyTitle`, `NothingSelected`). `NoteApp.Valid()` states
that the file always holds the dictionary, except at start-up without a file,
when the dictionary is empty. Every handler preserves it.

Python truthiness is modelled exactly. `if current_note_title` (testvertab.py:64)
and `if not current_note_title` (testvertab.py:77) treat `""` like `None`
(`Notes.Truthy`): with `""` as the current title, a save inserts instead of
renaming, and a delete is refused as "no note selected".

`save_note` only ever stores a non-empty stripped title (testvertab.py:57-61,
67). A file loaded at start-up may hold any keys, so the model proves that
saves and deletes keep well-formed titles (`WellFormedTitles`) well formed,
rather than assuming it.

Renaming a note onto a title that already exists silently overwrites that
other note. `SaveCount` shows the store shrinking by one in that case.

## Model

| member | source | states |
|---|---|---|
| `Text.IsSpace` | testvertab.py:57-58 | the whitespace set of Python's `str.isspace()`: it holds every ASCII whitespace character and no ASCII letter or digit |
| `Text.RStrip` | testvertab.py:58 | the result is a prefix of the input; everything removed is whitespace; the result is empty or ends in a non-whitespace character |
| `Text.LStrip` | testvertab.py:57 | the result is a suffix of the input; everything removed is whitespace; the result is empty or starts with a non-whitespace character |
| `Text.Strip` | testvertab.py:57-59 | the stripped title is empty exactly when the field is all whitespace (the `if not title` test); otherwise it starts and ends with non-whitespace |
| `Text.RStripDropsTrailing` | testvertab.py:58 | appending whitespace to a string that does not end in whitespace is undone by `rstrip` (how the Text widget's trailing newline disappears) |
| `Text.LStripDropsLeading` | testvertab.py:57 | prepending whitespace to a string that does not start with whitespace is undone by `lstrip` |
| `Text.StripRecoversCore` | testvertab.py:57 | an independent characterisation: for any whitespace padding p and q around a core m without edge whitespace, `strip(p + m + q) == m` |
| `Text.StripKeepsCore` | testvertab.py:57 | a string without edge whitespace is its own `strip` |
| `Text.StripIdempotent` | testvertab.py:57 | `strip` is idempotent |
| `TitleOrder.Less` | testvertab.py:28 | Python's `<` on `str`: nothing sorts before the empty string, and a proper prefix sorts before every extension of it |
| `TitleOrder.LessIrreflexive` | testvertab.py:28 | no title sorts before itself |
| `TitleOrder.LessTransitive` | testvertab.py:28 | the `str` order used by `sorted` is transitive |
| `TitleOrder.LessTotal` | testvertab.py:28 | any two different titles are ordered one way or the other |
| `TitleOrder.LessAsymmetric` | testvertab.py:28 | two titles never sort before each other |
| `TitleOrder.Sorted` | testvertab.py:28 | `sorted(keys)` has one entry per key, holds exactly the keys, and is strictly increasing |
| `TitleOrder.SortedIsUnique` | testvertab.py:28 | every strictly increasing sequence holding exactly the keys equals `sorted(keys)` |
| `Notes.Truthy` | testvertab.py:64 | the current title is truthy exactly when it is neither `None` nor `""`; the same test guards `delete_note` at line 77 |
| `Notes.SidebarTitles` | testvertab.py:28 | the sidebar titles are exactly the dictionary's keys, one row per key, in strictly increasing order |
| `Notes.SidebarIsOrderIndependent` | testvertab.py:26-29 | the listing depends only on the set of titles: any increasing listing of the same titles is the same sequence |
| `Notes.SidebarHasNoRepeats` | testvertab.py:26-29 | no title appears twice in the sidebar |
| `Notes.StoreAfterSave` | testvertab.py:63-67 | the saved title maps to the saved content; a rename removes the old title (keys become old keys minus the old title plus the new one); otherwise keys become old keys plus the title; every other entry keeps its content |
| `Notes.SaveAgainReplaces` | testvertab.py:64-67 | saving again under the title just saved replaces its content without adding an entry |
| `Notes.SaveCount` | testvertab.py:63-67 | a save adds one note for a new title and removes one when a loaded note is renamed away (so renaming onto an existing title loses a note) |
| `Notes.IsTitleIffStripped` | testvertab.py:57-59 | a title has no edge whitespace and is non-empty exactly when it is a non-empty fixed point of `strip` |
| `Notes.SaveKeepsTitlesWellFormed` | testvertab.py:57-67 | if every stored title is non-empty and stripped, it stays so after a save |
| `Notes.NoteApp.Load` | testvertab.py:12-18 | start-up takes the dictionary from the file, or starts empty when the file is absent; no note is loaded in the editor |
| `Notes.NoteApp.SaveNotesToFile` | testvertab.py:21-23 | the file afterwards holds the whole dictionary |
| `Notes.NoteApp.UpdateTreeview` | testvertab.py:26-29 | the rows inserted one by one into the cleared sidebar are exactly `SidebarTitles(notes)` |
| `Notes.NoteApp.OnTreeSelect` | testvertab.py:32-43 | an empty selection changes nothing; otherwise the first selected title becomes current, and the editor shows it with its content, or `""` when the title is not stored |
| `Notes.NoteApp.NewNote` | testvertab.py:46-50 | no title is current and both editor fields are cleared; the dictionary and the file are untouched |
| `Notes.NoteApp.Commit` | testvertab.py:63-70 | the part of a save after the title check: the dictionary becomes `StoreAfterSave` of the old one, the title becomes current, the file mirrors the dictionary, and the returned rows are the sidebar listing |
| `Notes.NoteApp.SaveNote` | testvertab.py:55-72 | a blank title field leaves dictionary, current title and file unchanged and reports the error; otherwise the dictionary becomes `StoreAfterSave` of the stripped title and right-stripped content, that title becomes current and selected, the file mirrors the dictionary and the sidebar is rebuilt |
| `Notes.NoteApp.DeleteNote` | testvertab.py:75-85 | with no current title (`None` or `""`) it reports the error, and with the confirmation declined it does nothing; both leave all state unchanged; when confirmed, exactly the current title's entry is removed (an absent one is no error), every other entry is kept, the file holds the remaining dictionary (`{}` after the last note) and the editor is back to a new note; well-formed titles stay well formed |

## Left out

- Window layout, widget creation, styling with ttkbootstrap's `Style`, and `mainloop` (testvertab.py:89-150) are not modelled; they are user-interface plumbing.
- The dialogs `messagebox.showerror` and `messagebox.askyesno` are modelled only through their effect: the error outcomes `EmptyTitle` and `NothingSelected`, and the `confirm` parameter. Their message texts are not modelled.
- JSON encoding and decoding of the notes file is not modelled: the file is a `map<string, string>` value. `load_notes_from_file` catches only a missing file (testvertab.py:17); any other read failure (a malformed file, a decoding error, a permission error) raises at start-up, and those cases are not modelled.
- A key `""` in a loaded file makes the start-up sidebar rebuild raise, because Tk reserves the empty item id for the Treeview root (testvertab.py:29, 148). The model does not capture that failure: `UpdateTreeview` lists such a key like any other.
- A failed write of the notes file makes the handler raise. That case is not modelled: the write always succeeds.
- Treeview selection events: `tree.selection_set(title)` at the end of a save, and `tree.selection_remove` in New Note, make Tk fire `<<TreeviewSelect>>` later from the event loop. In the model that is the caller's next `OnTreeSelect` call (`RenameWalkthrough` replays it), not part of `SaveNote` or `NewNote`. `SaveNote` returns the selected title in its outcome.
- Python strings may hold lone surrogate code points (U+D800 to U+DFFF); a Dafny `char` cannot, so titles and contents holding them are not modelled.
