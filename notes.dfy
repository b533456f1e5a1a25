/**
 * The note record of the quick-notes server and the two look-ups the
 * routes and the loader do over the note array: `findIndex` by id and the
 * `reduce` that computes the largest numeric id.
 */
module Notes {

  datatype Option<T> = None | Some(value: T)

  /** A note's `id` as the JSON file may hold it. Ids the server issues are
      numbers; a note read back from the file may carry something else, which
      the loader counts as 0 and which `===` never matches a number. */
  datatype NoteId = Num(value: int) | NonNumeric

  /** A note: `createdAt` and `updatedAt` are timestamps given as integers
      (the source stores ISO date strings). */
  datatype Note = Note(id: NoteId, text: string, pinned: bool, createdAt: int, updatedAt: int)

  /** The look-up by id the update and delete routes do: the first position
      whose note carries the number `id`, or `None` (the source's -1) when no
      note does. */
  function FindIndex(notes: seq<Note>, id: int): (r: Option<nat>)
    ensures r.None? <==> forall i :: 0 <= i < |notes| ==> notes[i].id != Num(id)
    ensures r.Some? ==> r.value < |notes| && notes[r.value].id == Num(id)
    ensures r.Some? ==> forall i :: 0 <= i < r.value ==> notes[i].id != Num(id)
  {
    if notes == [] then None
    else if notes[0].id == Num(id) then Some(0)
    else match FindIndex(notes[1..], id)
      case None => None
      case Some(k) => Some(k + 1)
  }

  /** What the `reduce` callback contributes for one note. */
  function IdValue(id: NoteId): int {
    match id
    case Num(v) => v
    case NonNumeric => 0
  }

  /** Every numeric id in `notes` is below `bound`. */
  ghost predicate IdsBelow(notes: seq<Note>, bound: int) {
    forall i :: 0 <= i < |notes| ==> IdValue(notes[i].id) < bound
  }

  /** The largest id in `notes`, starting from 0 and counting an id that is
      not a number as 0; folded from the left as the loader's reduction is. */
  function MaxId(notes: seq<Note>): (m: int)
    ensures m >= 0
    ensures forall i :: 0 <= i < |notes| ==> IdValue(notes[i].id) <= m
    ensures m == 0 || exists i :: 0 <= i < |notes| && notes[i].id == Num(m)
  {
    if notes == [] then 0
    else
      var front := notes[..|notes| - 1];
      var m := MaxId(front);
      var v := IdValue(notes[|notes| - 1].id);
      assert forall i :: 0 <= i < |front| ==> front[i] == notes[i];
      if v > m then v else m
  }

  /** One past the largest id is an id no note holds. */
  lemma MaxIdPlusOneIsFree(notes: seq<Note>)
    ensures IdsBelow(notes, MaxId(notes) + 1)
    ensures FindIndex(notes, MaxId(notes) + 1) == None
  {
  }
}
