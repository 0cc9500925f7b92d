/**
 * The note records kept by the note manager and the list operations its
 * mutations are built from: `filter`, the pin toggle (`map`), `find` by id,
 * the in-place content update, duplication, and the pinned-first display order.
 */
module Notes {
  import opened Wrappers

  /** One note: an opaque id, its free text and whether it is pinned ("fixed"). */
  datatype Note = Note(id: string, content: string, fixed: bool)

  /** The ids that occur in a list of notes. */
  function Ids(notes: seq<Note>): set<string>
  {
    set n | n in notes :: n.id
  }

  /** No two notes of the list share an id. */
  predicate UniqueIds(notes: seq<Note>)
  {
    forall i, j :: 0 <= i < j < |notes| ==> notes[i].id != notes[j].id
  }

  /** `a` is `b` with some elements dropped, the rest kept in their order. */
  ghost predicate IsSubsequence(a: seq<Note>, b: seq<Note>)
    decreases |b|
  {
    if b == [] then a == []
    else (a != [] && a[0] == b[0] && IsSubsequence(a[1..], b[1..])) || IsSubsequence(a, b[1..])
  }

  // ---------------------------------------------------------------------------
  // Array.prototype.filter

  /** The notes of the list that `keep` accepts, in list order. */
  function Filter(notes: seq<Note>, keep: Note -> bool): (r: seq<Note>)
    ensures |r| <= |notes|
    ensures forall n :: n in r <==> n in notes && keep(n)
  {
    if notes == [] then []
    else if keep(notes[0]) then [notes[0]] + Filter(notes[1..], keep)
    else Filter(notes[1..], keep)
  }

  lemma {:induction false} FilterIsSubsequence(notes: seq<Note>, keep: Note -> bool)
    ensures IsSubsequence(Filter(notes, keep), notes)
  {
    if notes != [] {
      FilterIsSubsequence(notes[1..], keep);
    }
  }

  /** Every occurrence of an accepted note is kept, every other one dropped. */
  lemma {:induction false} FilterCounts(notes: seq<Note>, keep: Note -> bool, n: Note)
    ensures multiset(Filter(notes, keep))[n] == if keep(n) then multiset(notes)[n] else 0
  {
    if notes != [] {
      FilterCounts(notes[1..], keep, n);
      assert notes == [notes[0]] + notes[1..];
    }
  }

  /** A filter that accepts every note of the list returns the list itself. */
  lemma {:induction false} FilterAll(notes: seq<Note>, keep: Note -> bool)
    requires forall n :: n in notes ==> keep(n)
    ensures Filter(notes, keep) == notes
  {
    if notes != [] {
      assert notes[0] in notes;
      assert forall n :: n in notes[1..] ==> n in notes;
      FilterAll(notes[1..], keep);
    }
  }

  /** Filtering twice with the same test is filtering once. */
  lemma FilterIdempotent(notes: seq<Note>, keep: Note -> bool)
    ensures Filter(Filter(notes, keep), keep) == Filter(notes, keep)
  {
    FilterAll(Filter(notes, keep), keep);
  }

  /** Two tests that agree on every note of the list select the same notes. */
  lemma {:induction false} FilterAgree(notes: seq<Note>, keep: Note -> bool, keep': Note -> bool)
    requires forall n :: n in notes ==> keep(n) == keep'(n)
    ensures Filter(notes, keep) == Filter(notes, keep')
  {
    if notes != [] {
      assert notes[0] in notes;
      assert forall n :: n in notes[1..] ==> n in notes;
      FilterAgree(notes[1..], keep, keep');
    }
  }

  /** Filtering a list whose ids are distinct leaves them distinct. */
  lemma {:induction false} FilterKeepsIdsUnique(notes: seq<Note>, keep: Note -> bool)
    requires UniqueIds(notes)
    ensures UniqueIds(Filter(notes, keep))
  {
    if notes != [] {
      var rest := notes[1..];
      assert UniqueIds(rest) by {
        forall i, j | 0 <= i < j < |rest| ensures rest[i].id != rest[j].id {
          assert rest[i] == notes[i + 1] && rest[j] == notes[j + 1];
        }
      }
      FilterKeepsIdsUnique(rest, keep);
      var tail := Filter(rest, keep);
      forall m | m in tail ensures m.id != notes[0].id {
        var k :| 0 <= k < |rest| && rest[k] == m;
        assert notes[k + 1] == m;
      }
    }
  }

  // ---------------------------------------------------------------------------
  // deleteNote: notes.filter(note => note.id !== id)

  /** The test that keeps every note except those with id `id`. */
  function OtherThan(id: string): Note -> bool
  {
    (n: Note) => n.id != id
  }

  function Without(notes: seq<Note>, id: string): seq<Note>
  {
    Filter(notes, OtherThan(id))
  }

  /**
   * Deleting keeps exactly the notes with another id, in their order, and
   * deleting an id that is absent changes nothing.
   */
  lemma WithoutSpec(notes: seq<Note>, id: string)
    ensures forall n :: n in Without(notes, id) <==> n in notes && n.id != id
    ensures IsSubsequence(Without(notes, id), notes)
    ensures id !in Ids(Without(notes, id))
    ensures Ids(Without(notes, id)) == Ids(notes) - {id}
    ensures id !in Ids(notes) ==> Without(notes, id) == notes
  {
    FilterIsSubsequence(notes, OtherThan(id));
    if id !in Ids(notes) {
      FilterAll(notes, OtherThan(id));
    }
  }

  /** Deleting the same id twice is deleting it once. */
  lemma WithoutIdempotent(notes: seq<Note>, id: string)
    ensures Without(Without(notes, id), id) == Without(notes, id)
  {
    FilterIdempotent(notes, OtherThan(id));
  }

  // ---------------------------------------------------------------------------
  // toggleFixNote: notes.map(note => { if (note.id === id) note.fixed = !note.fixed; ... })

  /** The pin state of every note with id `id` flipped; everything else as it was. */
  function Toggled(notes: seq<Note>, id: string): (r: seq<Note>)
    ensures |r| == |notes|
    ensures forall i :: 0 <= i < |notes| ==>
              r[i].id == notes[i].id && r[i].content == notes[i].content &&
              (r[i].fixed <==> (notes[i].fixed != (notes[i].id == id)))
  {
    if notes == [] then []
    else
      var n := notes[0];
      [if n.id == id then n.(fixed := !n.fixed) else n] + Toggled(notes[1..], id)
  }

  /** Toggling the same id twice restores the list. */
  lemma ToggledTwice(notes: seq<Note>, id: string)
    ensures Toggled(Toggled(notes, id), id) == notes
  {
  }

  /** Toggling an id that no note has changes nothing. */
  lemma ToggledAbsent(notes: seq<Note>, id: string)
    requires id !in Ids(notes)
    ensures Toggled(notes, id) == notes
  {
    var r := Toggled(notes, id);
    forall i | 0 <= i < |notes| ensures r[i] == notes[i] {
      assert notes[i] in notes;
    }
  }

  lemma ToggledIds(notes: seq<Note>, id: string)
    ensures Ids(Toggled(notes, id)) == Ids(notes)
    ensures UniqueIds(notes) ==> UniqueIds(Toggled(notes, id))
  {
    var r := Toggled(notes, id);
    forall x | x in Ids(r) ensures x in Ids(notes) {
      var k :| 0 <= k < |r| && r[k].id == x;
      assert notes[k] in notes;
    }
    forall x | x in Ids(notes) ensures x in Ids(r) {
      var k :| 0 <= k < |notes| && notes[k].id == x;
      assert r[k] in r;
    }
  }

  // ---------------------------------------------------------------------------
  // updateNote and duplicateNote: notes.find(note => note.id === id)

  /** Where `find` stops: the first note with id `id`, or None when there is none. */
  function FirstIndex(notes: seq<Note>, id: string): (r: Option<nat>)
    ensures r.Some? ==> r.value < |notes| && notes[r.value].id == id
    ensures r.Some? ==> forall j :: 0 <= j < r.value ==> notes[j].id != id
    ensures r.None? <==> id !in Ids(notes)
  {
    if notes == [] then None
    else if notes[0].id == id then Some(0)
    else
      match FirstIndex(notes[1..], id)
      case None =>
        assert forall n :: n in notes ==> n == notes[0] || n in notes[1..];
        None
      case Some(i) =>
        assert notes[1..][i] in notes;
        Some(i + 1)
  }

  /** The content of the first note with id `id` replaced by `content`; no note with that id: unchanged. */
  function Updated(notes: seq<Note>, id: string, content: string): seq<Note>
  {
    match FirstIndex(notes, id)
    case None => notes
    case Some(i) => notes[i := notes[i].(content := content)]
  }

  /**
   * Updating touches the content of the first note with the id and nothing
   * else; when the ids are distinct that is the one note with the id.
   */
  lemma UpdatedSpec(notes: seq<Note>, id: string, content: string)
    ensures |Updated(notes, id, content)| == |notes|
    ensures id !in Ids(notes) ==> Updated(notes, id, content) == notes
    ensures forall i :: 0 <= i < |notes| ==>
              Updated(notes, id, content)[i].id == notes[i].id &&
              Updated(notes, id, content)[i].fixed == notes[i].fixed
    ensures forall i :: 0 <= i < |notes| ==>
              Updated(notes, id, content)[i].content ==
                if FirstIndex(notes, id) == Some(i) then content else notes[i].content
    ensures UniqueIds(notes) ==>
              forall i :: 0 <= i < |notes| ==>
                Updated(notes, id, content)[i].content ==
                  if notes[i].id == id then content else notes[i].content
  {
  }

  lemma UpdatedIds(notes: seq<Note>, id: string, content: string)
    ensures Ids(Updated(notes, id, content)) == Ids(notes)
  {
    var r := Updated(notes, id, content);
    UpdatedSpec(notes, id, content);
    forall x | x in Ids(r) ensures x in Ids(notes) {
      var k :| 0 <= k < |r| && r[k].id == x;
      assert notes[k] in notes;
    }
    forall x | x in Ids(notes) ensures x in Ids(r) {
      var k :| 0 <= k < |notes| && notes[k].id == x;
      assert r[k] in r;
    }
  }

  lemma UpdatedKeepsIdsUnique(notes: seq<Note>, id: string, content: string)
    requires UniqueIds(notes)
    ensures UniqueIds(Updated(notes, id, content))
  {
    UpdatedSpec(notes, id, content);
  }

  /**
   * With two notes sharing an id, `updateNote` (through `find`) changes only
   * the first of them, while `toggleFixNote` (through `map`) flips both.
   */
  lemma DuplicateIdsDisagree(a: Note, b: Note, content: string)
    requires a.id == b.id
    ensures Updated([a, b], a.id, content) == [a.(content := content), b]
    ensures Toggled([a, b], a.id) == [a.(fixed := !a.fixed), b.(fixed := !b.fixed)]
  {
  }

  /** `addNote(content)` with the freshly generated id `id`. */
  function Added(notes: seq<Note>, id: string, content: string): seq<Note>
  {
    notes + [Note(id, content, false)]
  }

  lemma AddedKeepsIdsUnique(notes: seq<Note>, id: string, content: string)
    requires UniqueIds(notes) && id !in Ids(notes)
    ensures UniqueIds(Added(notes, id, content))
  {
    var r := Added(notes, id, content);
    forall i, j | 0 <= i < j < |r| ensures r[i].id != r[j].id {
      if j == |notes| {
        assert r[i] == notes[i] && notes[i] in notes;
      }
    }
  }

  /**
   * `duplicateNote(id)`: `addNote` with the content of the first note with id
   * `id` under the new id `newId`; None when no note has `id`, where the
   * source reads `.content` of `undefined` and throws before changing anything.
   */
  function Duplicated(notes: seq<Note>, id: string, newId: string): (r: Option<seq<Note>>)
    ensures r.None? <==> id !in Ids(notes)
    ensures r.Some? ==>
              && |r.value| == |notes| + 1
              && r.value[..|notes|] == notes
              && r.value[|notes|].id == newId
              && !r.value[|notes|].fixed
              && exists k :: && 0 <= k < |notes| && notes[k].id == id
                             && (forall j :: 0 <= j < k ==> notes[j].id != id)
                             && r.value[|notes|].content == notes[k].content
  {
    match FirstIndex(notes, id)
    case None => None
    case Some(i) => Some(Added(notes, newId, notes[i].content))
  }

  // ---------------------------------------------------------------------------
  // displayNotes: pinned notes first, then the others

  function IsPinned(n: Note): bool { n.fixed }

  function IsUnpinned(n: Note): bool { !n.fixed }

  function DisplayOrder(notes: seq<Note>): seq<Note>
  {
    Filter(notes, IsPinned) + Filter(notes, IsUnpinned)
  }

  /**
   * The display order puts every pinned note before every unpinned one, keeps
   * the list order within each group, and shows every note exactly as often as
   * the list holds it.
   */
  lemma DisplayOrderSpec(notes: seq<Note>)
    ensures forall i, j :: 0 <= i < j < |DisplayOrder(notes)| && DisplayOrder(notes)[j].fixed ==>
              DisplayOrder(notes)[i].fixed
    ensures multiset(DisplayOrder(notes)) == multiset(notes)
    ensures IsSubsequence(DisplayOrder(notes)[..|Filter(notes, IsPinned)|], notes)
    ensures IsSubsequence(DisplayOrder(notes)[|Filter(notes, IsPinned)|..], notes)
  {
    var p, u := Filter(notes, IsPinned), Filter(notes, IsUnpinned);
    var r := DisplayOrder(notes);
    forall k | 0 <= k < |p| ensures r[k].fixed {
      assert r[k] == p[k] && r[k] in p && IsPinned(r[k]);
    }
    forall k | |p| <= k < |r| ensures !r[k].fixed {
      assert r[k] == u[k - |p|] && r[k] in u && IsUnpinned(r[k]);
    }
    forall n ensures multiset(r)[n] == multiset(notes)[n] {
      FilterCounts(notes, IsPinned, n);
      FilterCounts(notes, IsUnpinned, n);
    }
    assert r[..|p|] == p && r[|p|..] == u;
    FilterIsSubsequence(notes, IsPinned);
    FilterIsSubsequence(notes, IsUnpinned);
  }
}
