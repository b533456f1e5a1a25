/**
 * Two runs of the note store driven through its routes, proved from the
 * contracts of `NoteStore` alone.
 */
module NoteScenarios {
  import opened Notes
  import opened NoteServer

  /** On a fresh store: create a note. */
  method CreateOne() returns (store: NoteStore, created: Reply)
    ensures fresh(store) && store.Valid() && store.nextId == 2
    ensures created == Success(201, Note(Num(1), "buy milk", false, 10, 10))
    ensures store.notes == [created.note]
  {
    store := new NoteStore();
    JsString.TrimUntouched("buy milk");
    created := store.Create(Str("buy milk"), 10);
  }

  /** Then pin it and list. */
  method CreateAndPin() returns (store: NoteStore, created: Reply, pinned: Reply, listed: seq<Note>)
    ensures fresh(store) && store.Valid()
    ensures created == Success(201, Note(Num(1), "buy milk", false, 10, 10))
    ensures pinned == Success(200, Note(Num(1), "buy milk", true, 10, 20))
    ensures store.notes == [pinned.note] && listed == [pinned.note]
  {
    store, created := CreateOne();
    pinned := store.Update(1, Missing, Bool(true), 20);
    var n := pinned.note;
    assert store.notes == [n];
    NoteOrder.SortNotesOfSorted([n]);
    listed := store.List();
  }

  /** Then delete the note and list again. */
  method PinAndDelete() returns (created: Reply, pinned: Reply, listed: seq<Note>, removed: Reply, final: seq<Note>)
    ensures created == Success(201, Note(Num(1), "buy milk", false, 10, 10))
    ensures pinned == Success(200, Note(Num(1), "buy milk", true, 10, 20))
    ensures listed == [pinned.note]
    ensures removed == pinned && final == []
  {
    var store;
    store, created, pinned, listed := CreateAndPin();
    removed := store.Delete(1);
    NoteOrder.SortNotesOfSorted([]);
    final := store.List();
  }

  /** The counter lives in memory only: after the newest note is deleted and
      the store is reloaded from its file, the next create hands out the
      deleted note's id again. */
  method RestartReissuesId() returns (first: Reply, second: Reply)
    ensures first.Success? && second.Success? && first.note.id == second.note.id
  {
    var store := new NoteStore();
    JsString.TrimUntouched("a");
    first := store.Create(Str("a"), 1);
    var gone := store.Delete(1);
    var file := store.Flush();
    var restarted := new NoteStore();
    restarted.Load(file);
    second := restarted.Create(Str("a"), 2);
  }
}
