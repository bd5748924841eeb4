/**
 * The note store behind the notebook window: a title -> content dictionary,
 * the title currently loaded in the editor, and the notes file that mirrors the
 * dictionary. The four button and sidebar handlers are methods of `NoteApp`;
 * what they read from widgets arrives as parameters and what they write to
 * widgets (editor fields, sidebar rows) comes back as results.
 */
module Notes {
  import opened Text
  import opened TitleOrder

  datatype Option<T> = None | Some(value: T)

  /** The two editor fields: the single-line title entry and the content text box. */
  datatype Editor = Editor(title: string, content: string)

  /** What a click on "Save" ends in: the "Title cannot be empty!" error dialog, or
      the rebuilt sidebar with the saved title selected. */
  datatype SaveOutcome = EmptyTitle | Saved(title: string, listing: seq<string>)

  /** What a click on "Delete" ends in: the "No note selected to delete!" error
      dialog, a declined confirmation, or the rebuilt sidebar and cleared editor. */
  datatype DeleteOutcome = NothingSelected | Declined | Deleted(listing: seq<string>, editor: Editor)

  /** Python truthiness of the current title: `None` and `""` are both false. */
  function Truthy(current: Option<string>): (r: bool)
    ensures r <==> current != None && current != Some("")
  {
    current.Some? && current.value != ""
  }

  /** A save renames when a title is loaded and the stripped title field differs from it. */
  predicate IsRename(current: Option<string>, title: string)
  {
    Truthy(current) && current.value != title
  }

  /** The sidebar rows: every title of the store, each once, in increasing order. */
  function SidebarTitles(notes: map<string, string>): (r: seq<string>)
    ensures |r| == |notes|
    ensures forall t :: t in r <==> t in notes
    ensures StrictlyIncreasing(r)
  {
    Sorted(notes.Keys)
  }

  /** Whatever order a listing was produced in, if it is increasing and holds
      exactly the store's titles, it is the sidebar listing. */
  lemma SidebarIsOrderIndependent(notes: map<string, string>, rows: seq<string>)
    requires StrictlyIncreasing(rows)
    requires forall t :: t in rows <==> t in notes
    ensures rows == SidebarTitles(notes)
  {
    SortedIsUnique(rows, notes.Keys);
  }

  /** No title appears twice in the sidebar. */
  lemma SidebarHasNoRepeats(notes: map<string, string>)
    ensures forall i, j :: 0 <= i < j < |SidebarTitles(notes)| ==> SidebarTitles(notes)[i] != SidebarTitles(notes)[j]
  {
    IncreasingHasNoRepeats(SidebarTitles(notes));
  }

  /** The dictionary after a successful save of `content` under `title`. */
  function StoreAfterSave(notes: map<string, string>, current: Option<string>, title: string, content: string): (r: map<string, string>)
    ensures title in r && r[title] == content
    ensures IsRename(current, title) ==> current.value !in r && r.Keys == notes.Keys - {current.value} + {title}
    ensures !IsRename(current, title) ==> r.Keys == notes.Keys + {title}
    ensures forall k :: k in notes && k != title && !(IsRename(current, title) && k == current.value) ==> k in r && r[k] == notes[k]
  {
    var kept := if IsRename(current, title) then notes - {current.value} else notes;
    kept[title := content]
  }

  /** Saving again under the title just saved replaces the entry instead of adding one. */
  lemma SaveAgainReplaces(notes: map<string, string>, current: Option<string>, title: string, first: string, second: string)
    ensures var once := StoreAfterSave(notes, current, title, first);
            StoreAfterSave(once, Some(title), title, second) == StoreAfterSave(notes, current, title, second)
            && |StoreAfterSave(once, Some(title), title, second)| == |once|
  {
    var once := StoreAfterSave(notes, current, title, first);
    var twice := StoreAfterSave(once, Some(title), title, second);
    var direct := StoreAfterSave(notes, current, title, second);
    var kept := if IsRename(current, title) then notes - {current.value} else notes;
    assert once == kept[title := first] && direct == kept[title := second];
    assert !IsRename(Some(title), title);
    assert twice == once[title := second];
    assert kept[title := first][title := second] == kept[title := second];
    assert twice.Keys == once.Keys;
  }

  /** How many notes a save leaves: one more for a new title, one fewer when a
      loaded note is renamed away; so renaming onto a title that already exists
      overwrites that note and the store shrinks by one. */
  lemma SaveCount(notes: map<string, string>, current: Option<string>, title: string, content: string)
    ensures |StoreAfterSave(notes, current, title, content)|
         == |notes| + (if title in notes then 0 else 1)
                    - (if IsRename(current, title) && current.value in notes then 1 else 0)
  {
    var r := StoreAfterSave(notes, current, title, content);
    var kept := if IsRename(current, title) then notes.Keys - {current.value} else notes.Keys;
    assert r.Keys == kept + {title};
    assert |kept| == |notes| - (if IsRename(current, title) && current.value in notes then 1 else 0);
    if title in notes {
      assert title in kept;
      assert kept + {title} == kept;
    } else {
      assert title !in kept;
    }
    assert |r| == |r.Keys|;
  }

  /** A title as a save produces it: not empty, no whitespace at either end. */
  predicate IsTitle(t: string)
  {
    t != "" && !IsSpace(t[0]) && !IsSpace(t[|t| - 1])
  }

  /** Such titles are exactly the non-empty strings that `strip` leaves alone. */
  lemma IsTitleIffStripped(t: string)
    ensures IsTitle(t) <==> t != "" && Strip(t) == t
  {
    if IsTitle(t) {
      StripKeepsCore(t);
    }
  }

  predicate WellFormedTitles(notes: map<string, string>)
  {
    forall k :: k in notes ==> IsTitle(k)
  }

  /** A save keeps every title well formed, because it stores the stripped title field. */
  lemma SaveKeepsTitlesWellFormed(notes: map<string, string>, current: Option<string>, titleField: string, content: string)
    requires WellFormedTitles(notes)
    requires Strip(titleField) != ""
    ensures WellFormedTitles(StoreAfterSave(notes, current, Strip(titleField), content))
  {
  }

  class NoteApp {
    /** The `notes` dictionary. */
    var notes: map<string, string>
    /** `current_note_title`: the title loaded in the editor, `None` for a new note. */
    var current: Option<string>
    /** The notes file: `None` while it does not exist, otherwise the dictionary it holds. */
    var file: Option<map<string, string>>

    /** The file always holds the dictionary, except before the first write when
        there was no file and the dictionary is empty. */
    ghost predicate Valid()
      reads this
    {
      match file
      case None => notes == map[]
      case Some(saved) => saved == notes
    }

    /** Start-up: load the dictionary from the file, or start empty if there is no file. */
    constructor Load(stored: Option<map<string, string>>)
      ensures Valid()
      ensures file == stored && current == None
      ensures stored.None? ==> notes == map[]
    {
      notes := if stored.Some? then stored.value else map[];
      current := None;
      file := stored;
    }

    /** Write the whole dictionary to the file, replacing what it held. */
    method SaveNotesToFile()
      modifies this`file
      ensures file == Some(notes)
    {
      file := Some(notes);
    }

    /** Rebuild the sidebar: clear it, then insert the titles one by one in sorted order. */
    method UpdateTreeview() returns (rows: seq<string>)
      ensures rows == SidebarTitles(notes)
    {
      var titles := SidebarTitles(notes);
      rows := [];
      for i := 0 to |titles|
        invariant rows == titles[..i]
      {
        rows := rows + [titles[i]];
      }
    }

    /** A sidebar selection loads the first selected title and its content into the editor. */
    method OnTreeSelect(selection: seq<string>) returns (shown: Option<Editor>)
      modifies this`current
      ensures selection == [] ==> shown == None && current == old(current)
      ensures selection != [] ==> current == Some(selection[0])
      ensures selection != [] && selection[0] in notes ==> shown == Some(Editor(selection[0], notes[selection[0]]))
      ensures selection != [] && selection[0] !in notes ==> shown == Some(Editor(selection[0], ""))
    {
      if selection == [] {
        return None;
      }
      var title := selection[0];
      current := Some(title);
      shown := Some(Editor(title, if title in notes then notes[title] else ""));
    }

    /** "New Note": forget the loaded title and clear both editor fields. */
    method NewNote() returns (cleared: Editor)
      modifies this`current
      ensures current == None
      ensures cleared == Editor("", "")
    {
      current := None;
      cleared := Editor("", "");
    }

    /** The part of "Save" after the title check: drop the loaded title when
        renaming, store the entry, make its title current, persist and refresh. */
    method Commit(title: string, content: string) returns (rows: seq<string>)
      requires Valid()
      modifies this`notes, this`current, this`file
      ensures Valid()
      ensures notes == StoreAfterSave(old(notes), old(current), title, content)
      ensures current == Some(title)
      ensures rows == SidebarTitles(notes)
    {
      if Truthy(current) && current.value != title {
        notes := notes - {current.value};
      }
      notes := notes[title := content];
      current := Some(title);
      SaveNotesToFile();
      rows := UpdateTreeview();
    }

    /** "Save": store the stripped title with the right-stripped content, renaming
        the loaded note when the title changed, then persist and refresh. */
    method SaveNote(titleField: string, contentField: string) returns (outcome: SaveOutcome)
      requires Valid()
      modifies this`notes, this`current, this`file
      ensures Valid()
      ensures Strip(titleField) == "" ==>
        outcome == EmptyTitle && notes == old(notes) && current == old(current) && file == old(file)
      ensures Strip(titleField) != "" ==>
        && notes == StoreAfterSave(old(notes), old(current), Strip(titleField), RStrip(contentField))
        && current == Some(Strip(titleField))
        && outcome == Saved(Strip(titleField), SidebarTitles(notes))
    {
      var title := Strip(titleField);
      var content := RStrip(contentField);
      if title == "" {
        return EmptyTitle;
      }
      var rows := Commit(title, content);
      outcome := Saved(title, rows);
    }

    /** "Delete": refuse without a loaded title, ask for confirmation, then drop
        the loaded note, persist, refresh and go back to a new note. */
    method DeleteNote(confirm: bool) returns (outcome: DeleteOutcome)
      requires Valid()
      modifies this`notes, this`current, this`file
      ensures Valid()
      ensures !Truthy(old(current)) ==>
        outcome == NothingSelected && notes == old(notes) && current == old(current) && file == old(file)
      ensures Truthy(old(current)) && !confirm ==>
        outcome == Declined && notes == old(notes) && current == old(current) && file == old(file)
      ensures Truthy(old(current)) && confirm ==>
        && old(current).value !in notes
        && notes.Keys == old(notes).Keys - {old(current).value}
        && (forall k :: k in notes ==> notes[k] == old(notes)[k])
        && current == None
        && file == Some(notes)
        && outcome == Deleted(SidebarTitles(notes), Editor("", ""))
      ensures old(WellFormedTitles(notes)) ==> WellFormedTitles(notes)
    {
      if !Truthy(current) {
        return NothingSelected;
      }
      if !confirm {
        return Declined;
      }
      notes := notes - {current.value};
      SaveNotesToFile();
      var rows := UpdateTreeview();
      var cleared := NewNote();
      outcome := Deleted(rows, cleared);
    }
  }

  /** A session on a store holding {"A": "x"}: load "A", retype the title as "B"
      and save (a rename), then select the renamed row. */
  method RenameWalkthrough()
  {
    var app := new NoteApp.Load(Some(map["A" := "x"]));
    var shown := app.OnTreeSelect(["A"]);
    assert shown == Some(Editor("A", "x"));

    StripKeepsCore("B");
    RStripDropsTrailing("x", "\n");
    assert "x" + "\n" == "x\n";
    var saved := app.SaveNote("B", "x\n");
    assert app.notes.Keys == {"B"};
    assert app.notes == map["B" := "x"];
    assert SidebarTitles(app.notes) == ["B"];
    assert saved == Saved("B", ["B"]);
    assert app.file == Some(map["B" := "x"]);
    // Selecting the saved row reloads the editor with the trimmed fields.
    var reshown := app.OnTreeSelect(["B"]);
    assert reshown == Some(Editor("B", "x"));
  }

  /** A session on a store holding {"B": "x"}: load "B", then save with a blank title. */
  method BlankTitleWalkthrough()
  {
    var app := new NoteApp.Load(Some(map["B" := "x"]));
    var shown := app.OnTreeSelect(["B"]);
    assert AllSpace(" \t");
    var blank := app.SaveNote(" \t", "y");
    assert blank == EmptyTitle && app.notes == map["B" := "x"] && app.current == Some("B");
  }

  /** A session on a store holding {"B": "x"}: load "B", start a new note, then try to delete. */
  method NothingSelectedWalkthrough()
  {
    var app := new NoteApp.Load(Some(map["B" := "x"]));
    var shown := app.OnTreeSelect(["B"]);
    var cleared := app.NewNote();
    var refused := app.DeleteNote(true);
    assert refused == NothingSelected && app.notes == map["B" := "x"];
  }

  /** A session on a store holding {"B": "x"}: load "B", decline its deletion, then confirm it. */
  method DeleteWalkthrough()
  {
    var app := new NoteApp.Load(Some(map["B" := "x"]));
    var shown := app.OnTreeSelect(["B"]);
    var declined := app.DeleteNote(false);
    assert declined == Declined && app.notes == map["B" := "x"];
    var deleted := app.DeleteNote(true);
    assert app.notes == map[] && app.current == None;
    assert deleted == Deleted([], Editor("", ""));
  }
}
