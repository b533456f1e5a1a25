/**
 * `filterNotes` of public/app.js: the search box's filter over the cached
 * note list. A blank query shows every note; any other query keeps, in
 * order, the notes whose lower-cased text contains the trimmed, lower-cased
 * query.
 */
module NoteClient {
  import opened Notes
  import opened JsString

  /** The query is empty or trims to nothing, so the filter passes every
      note through. */
  predicate IsBlankQuery(q: string)
    ensures IsBlankQuery(q) <==> IsBlank(q)
  {
    TrimEmptyIffBlank(q);
    q == "" || Trim(q) == ""
  }

  /** The needle the filter searches for: the query trimmed, then lower-cased. */
  function Needle(q: string): (r: string)
    ensures |r| <= |q|
    ensures r != [] ==> !IsWhitespace(r[0]) && !IsWhitespace(r[|r| - 1])
  {
    ToLowerCase(Trim(q))
  }

  /** The filter callback: the note's lower-cased text contains the needle. */
  predicate Matches(n: Note, needle: string) {
    Includes(ToLowerCase(n.text), needle)
  }

  /** `a` is `b` with some elements left out, the rest in the same order. */
  predicate IsSubsequence(a: seq<Note>, b: seq<Note>)
    decreases |b|
  {
    if a == [] then true
    else if b == [] then false
    else if a[0] == b[0] then IsSubsequence(a[1..], b[1..])
    else IsSubsequence(a, b[1..])
  }

  /** The notes that match `needle`, in order,
      each as often as the input has it. */
  function Keep(notes: seq<Note>, needle: string): (r: seq<Note>)
    ensures IsSubsequence(r, notes)
    ensures forall n :: n in r <==> n in notes && Matches(n, needle)
    ensures forall n :: multiset(r)[n] == if Matches(n, needle) then multiset(notes)[n] else 0
  {
    if notes == [] then []
    else
      var rest := Keep(notes[1..], needle);
      assert notes == [notes[0]] + notes[1..];
      if Matches(notes[0], needle) then [notes[0]] + rest else rest
  }

  /** The search filter: every note for a blank query, otherwise the notes
      matching the query's needle. */
  function FilterNotes(notes: seq<Note>, q: string): (r: seq<Note>)
    ensures IsBlank(q) ==> r == notes
    ensures !IsBlank(q) ==> IsSubsequence(r, notes)
    ensures !IsBlank(q) ==> forall n :: n in r <==> n in notes && Matches(n, Needle(q))
    ensures !IsBlank(q) ==> forall n :: multiset(r)[n] == if Matches(n, Needle(q)) then multiset(notes)[n] else 0
  {
    TrimEmptyIffBlank(q);
    if IsBlankQuery(q) then notes else Keep(notes, Needle(q))
  }

  /** A note matches a needle exactly when the needle appears at some
      offset of the note's lower-cased text; the filter uses this with the
      query trimmed and lower-cased. */
  lemma MatchesMeaning(n: Note, needle: string)
    ensures Matches(n, needle) <==> exists k :: OccursAt(ToLowerCase(n.text), needle, k)
  {
    var text := ToLowerCase(n.text);
    IncludesIffOccurs(text, needle);
    if Matches(n, needle) {
      var k :| OccursAt(text, needle, k);
      assert OccursAt(ToLowerCase(n.text), needle, k);
      assert exists j :: OccursAt(ToLowerCase(n.text), needle, j);
    } else {
      assert !Includes(text, needle);
    }
  }

  /** Keeping the matches of a list that holds only matches changes nothing. */
  lemma {:induction false} KeepAllMatching(notes: seq<Note>, needle: string)
    requires forall i :: 0 <= i < |notes| ==> Matches(notes[i], needle)
    ensures Keep(notes, needle) == notes
  {
    if notes != [] {
      KeepAllMatching(notes[1..], needle);
      assert [notes[0]] + notes[1..] == notes;
    }
  }

  /** Filtering again with the same query gives the same list. */
  lemma FilterNotesIdempotent(notes: seq<Note>, q: string)
    ensures FilterNotes(FilterNotes(notes, q), q) == FilterNotes(notes, q)
  {
    var once := FilterNotes(notes, q);
    if !IsBlank(q) {
      assert forall i :: 0 <= i < |once| ==> once[i] in once;
      KeepAllMatching(once, Needle(q));
      TrimEmptyIffBlank(q);
    }
  }

  /** Whitespace around the query does not change the result. */
  lemma FilterNotesIgnoresPadding(notes: seq<Note>, pre: string, q: string, post: string)
    requires IsBlank(pre) && IsBlank(post)
    ensures FilterNotes(notes, pre + q + post) == FilterNotes(notes, q)
  {
    TrimIgnoresPadding(pre, q, post);
    TrimEmptyIffBlank(q);
    TrimEmptyIffBlank(pre + q + post);
  }

  /** Case does not matter: a query and its lower-cased form select the same
      notes. */
  lemma FilterNotesIgnoresCase(notes: seq<Note>, q: string)
    ensures FilterNotes(notes, ToLowerCase(q)) == FilterNotes(notes, q)
  {
    TrimToLowerCaseCommute(q);
    ToLowerCaseIdempotent(Trim(q));
    TrimEmptyIffBlank(q);
    TrimEmptyIffBlank(ToLowerCase(q));
  }
}
