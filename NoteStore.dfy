/**
 * The note manager itself: the list of notes it owns and the copy of that
 * list it last wrote to browser storage. Every mutation writes the whole list
 * back (`saveNotes`); `updateNote` writes only when it found the note.
 */
module NoteApp {
  import opened Wrappers
  import opened Notes
  import Search
  import CsvExport

  class NoteStore {
    /** The notes, in the order they were added. */
    var notes: seq<Note>
    /** The storage entry "notes": None while nothing has been written. */
    var saved: Option<seq<Note>>

    /**
     * Starts from what storage holds, or from the empty list when the entry is
     * absent. Nothing is written back.
     */
    constructor (stored: Option<seq<Note>>)
      ensures notes == stored.GetOr([])
      ensures saved == stored
    {
      notes := stored.GetOr([]);
      saved := stored;
    }

    /** Writes a snapshot of the whole list to storage. */
    method SaveNotes()
      modifies this
      ensures notes == old(notes)
      ensures saved == Some(notes)
    {
      saved := Some(notes);
    }

    /**
     * Appends a new unpinned note with the freshly generated id `id`, then saves.
     */
    method AddNote(id: string, content: string)
      requires id !in Ids(notes)
      modifies this
      ensures notes == old(notes) + [Note(id, content, false)]
      ensures Ids(notes) == Ids(old(notes)) + {id}
      ensures saved == Some(notes)
      ensures UniqueIds(old(notes)) ==> UniqueIds(notes)
    {
      if UniqueIds(notes) {
        AddedKeepsIdsUnique(notes, id, content);
      }
      notes := Added(notes, id, content);
      SaveNotes();
    }

    /** Removes every note with id `id`, keeping the others in order, then saves. */
    method DeleteNote(id: string)
      modifies this
      ensures notes == Without(old(notes), id)
      ensures forall n :: n in notes <==> n in old(notes) && n.id != id
      ensures IsSubsequence(notes, old(notes))
      ensures Ids(notes) == Ids(old(notes)) - {id}
      ensures id !in Ids(old(notes)) ==> notes == old(notes)
      ensures saved == Some(notes)
      ensures UniqueIds(old(notes)) ==> UniqueIds(notes)
    {
      WithoutSpec(notes, id);
      if UniqueIds(notes) {
        FilterKeepsIdsUnique(notes, OtherThan(id));
      }
      notes := Without(notes, id);
      SaveNotes();
    }

    /**
     * Appends a copy of the first note with id `id` (its content, unpinned,
     * under the new id `newId`) and saves. When no note has `id` the source
     * throws before changing anything: `found` is false and nothing changes.
     */
    method DuplicateNote(id: string, newId: string) returns (found: bool)
      requires newId !in Ids(notes)
      modifies this
      ensures found <==> id in Ids(old(notes))
      ensures !found ==> notes == old(notes) && saved == old(saved)
      ensures found ==> Duplicated(old(notes), id, newId) == Some(notes) && saved == Some(notes)
      ensures UniqueIds(old(notes)) ==> UniqueIds(notes)
    {
      var i := FirstIndex(notes, id);
      found := i.Some?;
      if found {
        AddNote(newId, notes[i.value].content);
      }
    }

    /** Flips the pin state of every note with id `id`, then saves. */
    method ToggleFixNote(id: string)
      modifies this
      ensures notes == Toggled(old(notes), id)
      ensures Ids(notes) == Ids(old(notes))
      ensures saved == Some(notes)
      ensures UniqueIds(old(notes)) ==> UniqueIds(notes)
    {
      ToggledIds(notes, id);
      notes := Toggled(notes, id);
      SaveNotes();
    }

    /**
     * Replaces the content of the first note with id `id` and saves; when no
     * note has that id nothing changes and nothing is saved.
     */
    method UpdateNote(id: string, content: string)
      modifies this
      ensures notes == Updated(old(notes), id, content)
      ensures Ids(notes) == Ids(old(notes))
      ensures saved == if id in Ids(old(notes)) then Some(notes) else old(saved)
      ensures UniqueIds(old(notes)) ==> UniqueIds(notes)
    {
      UpdatedIds(notes, id, content);
      if UniqueIds(notes) {
        UpdatedKeepsIdsUnique(notes, id, content);
      }
      var i := FirstIndex(notes, id);
      if i.Some? {
        notes := notes[i.value := notes[i.value].(content := content)];
        SaveNotes();
      }
    }

    /**
     * The notes whose lower-cased content contains the lower-cased query, in
     * list order; every note for the empty query.
     */
    method SearchNotes(query: string) returns (found: seq<Note>)
      ensures found == Search.SearchNotes(notes, query)
      ensures forall n :: n in found <==>
                n in notes && exists i :: Search.OccursAt(Search.Lower(n.content), Search.Lower(query), i)
      ensures IsSubsequence(found, notes)
      ensures query == "" ==> found == notes
    {
      found := Search.SearchNotes(notes, query);
      Search.SearchSpec(notes, query);
      if query == "" {
        Search.SearchEmptyQuery(notes);
      }
    }

    /** The CSV text of the export; reading it back gives every note's content and pin state. */
    method ExportToCsv() returns (text: string)
      ensures text == CsvExport.Csv(notes)
      ensures CsvExport.ParseCsv(text) == Some(CsvExport.Records(notes))
    {
      text := CsvExport.Csv(notes);
      CsvExport.CsvRoundTrip(notes);
    }

    /**
     * The order `displayNotes` renders: the given search result, or the whole
     * list when none is given, pinned notes first.
     */
    method DisplayNotes(notesToDisplay: Option<seq<Note>>) returns (shown: seq<Note>)
      ensures multiset(shown) == multiset(notesToDisplay.GetOr(notes))
      ensures forall i, j :: 0 <= i < j < |shown| && shown[j].fixed ==> shown[i].fixed
      ensures shown == DisplayOrder(notesToDisplay.GetOr(notes))
    {
      var source := notesToDisplay.GetOr(notes);
      DisplayOrderSpec(source);
      shown := DisplayOrder(source);
    }
  }
}
