/**
 * `searchNotes(query)`: the notes whose lower-cased content contains the
 * lower-cased query, in list order. Lower-casing is modelled on ASCII letters.
 */
module Search {
  import opened Notes

  function LowerChar(c: char): char
  {
    if 'A' <= c <= 'Z' then (c as int + 32) as char else c
  }

  /** `toLowerCase` on the ASCII range. */
  function Lower(s: string): string
  {
    seq(|s|, i requires 0 <= i < |s| => LowerChar(s[i]))
  }

  /** `text.includes(query)`: `query` is a prefix of some suffix of `text`. */
  predicate Contains(text: string, query: string)
    decreases |text|
  {
    query <= text || (text != [] && Contains(text[1..], query))
  }

  /** `query` occurs in `text` starting at position `i`. */
  ghost predicate OccursAt(text: string, query: string, i: int)
  {
    0 <= i && i + |query| <= |text| && text[i..i + |query|] == query
  }

  /** An occurrence in the text without its first character is one position further in the text. */
  lemma OccursShift(text: string, query: string, i: int)
    requires text != []
    ensures OccursAt(text[1..], query, i) <==> i >= 0 && OccursAt(text, query, i + 1)
  {
    if 0 <= i && i + |query| <= |text| - 1 {
      assert text[1..][i..i + |query|] == text[i + 1..i + 1 + |query|];
    }
  }

  /** An occurrence at position 0 is a prefix. */
  lemma OccursAtStart(text: string, query: string)
    ensures OccursAt(text, query, 0) <==> query <= text
  {
    if |query| <= |text| {
      assert text[0..|query|] == text[..|query|];
    }
  }

  /** `Contains` holds exactly when the query occurs at some position of the text. */
  lemma {:induction false} ContainsIffOccurs(text: string, query: string)
    ensures Contains(text, query) <==> exists i :: OccursAt(text, query, i)
    decreases |text|
  {
    OccursAtStart(text, query);
    if !(query <= text) && text != [] {
      var tail := text[1..];
      ContainsIffOccurs(tail, query);
      forall i | OccursAt(tail, query, i) ensures OccursAt(text, query, i + 1) {
        OccursShift(text, query, i);
      }
      forall i | OccursAt(text, query, i) ensures OccursAt(tail, query, i - 1) {
        OccursShift(text, query, i - 1);
      }
    }
  }

  /** The test `searchNotes` filters with. */
  function MatchesQuery(query: string): Note -> bool
  {
    (n: Note) => Contains(Lower(n.content), Lower(query))
  }

  function SearchNotes(notes: seq<Note>, query: string): seq<Note>
  {
    Filter(notes, MatchesQuery(query))
  }

  /**
   * The search result holds exactly the notes whose lower-cased content has
   * the lower-cased query at some position, in their list order.
   */
  lemma SearchSpec(notes: seq<Note>, query: string)
    ensures forall n :: n in SearchNotes(notes, query) <==>
              n in notes && exists i :: OccursAt(Lower(n.content), Lower(query), i)
    ensures IsSubsequence(SearchNotes(notes, query), notes)
  {
    forall n: Note {
      ContainsIffOccurs(Lower(n.content), Lower(query));
    }
    FilterIsSubsequence(notes, MatchesQuery(query));
  }

  /** The empty query returns the whole list. */
  lemma SearchEmptyQuery(notes: seq<Note>)
    ensures SearchNotes(notes, "") == notes
  {
    FilterAll(notes, MatchesQuery(""));
  }

  /** Queries that differ only in letter case give the same result. */
  lemma SearchIgnoresCase(notes: seq<Note>, query: string, query': string)
    requires Lower(query) == Lower(query')
    ensures SearchNotes(notes, query) == SearchNotes(notes, query')
  {
    FilterAgree(notes, MatchesQuery(query), MatchesQuery(query'));
  }

  /** A note with content "Buy Milk" is found by the query "milk". */
  lemma SearchExample(id: string)
    ensures SearchNotes([Note(id, "Buy Milk", false)], "milk") == [Note(id, "Buy Milk", false)]
  {
    var text := Lower("Buy Milk");
    assert text[4..8] == Lower("milk");
    assert OccursAt(text, Lower("milk"), 4);
    ContainsIffOccurs(text, Lower("milk"));
  }
}
