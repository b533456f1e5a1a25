/**
 * The note store of server.js: the global `notes` array and the `nextId`
 * counter, the start-up loader that recovers them from the notes file, and
 * the bodies of the four `/api/notes` routes. Express (routing, body
 * parsing, responses) is reduced to method parameters and a `Reply` value;
 * the debounced write is reduced to a `savePending` flag that every
 * successful mutation raises and `Flush` lowers.
 */
module NoteServer {
  import opened Notes
  import NoteOrder
  import JsString

  /** One field of the parsed JSON request body, as far as the routes look at
      it: absent (`undefined`), a string, a boolean, or any other JSON value
      given by what `String(v)` makes of it and by its truthiness. */
  datatype BodyValue = Missing | Str(s: string) | Bool(b: bool) | Other(asString: string, truthy: bool)

  /** JavaScript truthiness; `!v` is its negation. */
  predicate Truthy(v: BodyValue) {
    match v
    case Missing => false
    case Str(s) => s != ""
    case Bool(b) => b
    case Other(_, t) => t
  }

  /** The string JavaScript converts a value to. */
  function AsString(v: BodyValue): string {
    match v
    case Missing => "undefined"
    case Str(s) => s
    case Bool(b) => if b then "true" else "false"
    case Other(r, _) => r
  }

  /** The create route's guard: the text is truthy and its string form does
      not trim to nothing; the route answers 400 otherwise. */
  predicate AcceptsText(text: BodyValue)
    ensures AcceptsText(text) <==> Truthy(text) && !JsString.IsBlank(AsString(text))
  {
    JsString.TrimEmptyIffBlank(AsString(text));
    Truthy(text) && JsString.Trim(AsString(text)) != ""
  }

  /** For a string body field, create accepts exactly the text that is not
      all whitespace; an absent field is always refused. */
  lemma AcceptsTextMeaning(s: string)
    ensures AcceptsText(Str(s)) <==> !JsString.IsBlank(s)
    ensures !AcceptsText(Missing)
  {
    JsString.TrimEmptyIffBlank(s);
  }

  /** What a route sends: a status with the note as JSON, or a status with
      `{ error: message }`. */
  datatype Reply = Success(status: int, note: Note) | Failure(status: int, error: string)

  /** One element of the file's `notes` array: `null`, on which reading
      `n.id` throws, or a note object. */
  datatype Entry = Null | Record(note: Note)

  /** The notes file as `loadData` finds it: missing, unreadable or not JSON
      (the read or the parse throws), parsed but `parsed.notes` is not an
      array (a bare top-level array included, whose `notes` is undefined),
      or parsed with a `notes` array. */
  datatype DataFile = NoFile | Unreadable | NotesNotArray | NotesArray(entries: seq<Entry>)

  /** The notes of an array with no `null` entry; `None` when the `reduce`
      over it would throw. */
  function Records(entries: seq<Entry>): (r: Option<seq<Note>>)
    ensures r.None? <==> exists i :: 0 <= i < |entries| && entries[i].Null?
    ensures r.Some? ==> |r.value| == |entries|
    ensures r.Some? ==> forall i :: 0 <= i < |entries| ==> entries[i] == Record(r.value[i])
  {
    if entries == [] then Some([])
    else match (entries[0], Records(entries[1..]))
      case (Record(n), Some(rest)) => Some([n] + rest)
      case (Null, _) => None
      case (_, None) => assert entries[1..][0] == entries[1]; None
  }

  /** The file `saveData` writes for `notes`: `{ notes }`. */
  function SavedFile(notes: seq<Note>): (r: DataFile)
    ensures r.NotesArray? && |r.entries| == |notes|
    ensures forall i :: 0 <= i < |notes| ==> r.entries[i] == Record(notes[i])
  {
    NotesArray(seq(|notes|, i requires 0 <= i < |notes| => Record(notes[i])))
  }

  /** Loading what was saved gives back the same notes. */
  lemma SavedFileReloads(notes: seq<Note>)
    ensures SavedFile(notes).NotesArray?
    ensures Records(SavedFile(notes).entries) == Some(notes)
  {
    var entries := SavedFile(notes).entries;
    assert forall i :: 0 <= i < |entries| ==> entries[i] == Record(notes[i]);
    assert Records(entries).value == notes;
  }

  /** The counter a reload recovers never exceeds the one in memory, so ids
      issued and then deleted before a restart can be issued again. */
  lemma ReloadNeverRaisesNextId(notes: seq<Note>, nextId: int)
    requires nextId >= 1 && IdsBelow(notes, nextId)
    ensures MaxId(notes) + 1 <= nextId
  {
    if MaxId(notes) != 0 {
      var i :| 0 <= i < |notes| && notes[i].id == Num(MaxId(notes));
      assert IdValue(notes[i].id) < nextId;
    }
  }

  /** The in-place edits of the update route applied to one note: the
      trimmed text when `text` is a string, the pin state when `pinned` is a
      boolean, and the update time always; id and creation time stay. */
  function Patch(was: Note, text: BodyValue, pinned: BodyValue, now: int): (r: Note)
    ensures r.id == was.id && r.createdAt == was.createdAt && r.updatedAt == now
    ensures r.text == if text.Str? then JsString.Trim(text.s) else was.text
    ensures r.pinned == if pinned.Bool? then pinned.b else was.pinned
  {
    var withText := if text.Str? then was.(text := JsString.Trim(text.s)) else was;
    var withPin := if pinned.Bool? then withText.(pinned := pinned.b) else withText;
    withPin.(updatedAt := now)
  }

  class NoteStore {
    /** The in-memory store (`let notes`, newest creation first). */
    var notes: seq<Note>
    /** The next id to hand out (`let nextId`). */
    var nextId: int
    /** A mutation happened since the last write to the file (`scheduleSave`). */
    var savePending: bool
    /** Every id created since the last load, and every numeric id loaded. */
    ghost var issued: set<int>

    /** `nextId` is above every id present and every id issued, so the next
        create takes an id nobody holds or held. */
    ghost predicate Valid()
      reads this
    {
      nextId >= 1 && IdsBelow(notes, nextId) && forall x :: x in issued ==> x < nextId
    }

    /** The globals before `loadData` runs. */
    constructor ()
      ensures Valid()
      ensures notes == [] && nextId == 1 && !savePending && issued == {}
    {
      notes := [];
      nextId := 1;
      savePending := false;
      issued := {};
    }

    /** `loadData`: take the file's notes and set `nextId` one past the
        largest numeric id, or reset to an empty store when the file is
        missing, unreadable, of the wrong shape or holds a `null` note. */
    method Load(file: DataFile)
      modifies this
      ensures Valid()
      ensures savePending == old(savePending)
      ensures file.NotesArray? && Records(file.entries).Some? ==>
        notes == Records(file.entries).value && nextId == MaxId(notes) + 1
      ensures !(file.NotesArray? && Records(file.entries).Some?) ==>
        notes == [] && nextId == 1
      ensures issued == set i | 0 <= i < |notes| && notes[i].id.Num? :: notes[i].id.value
    {
      match file {
        case NotesArray(entries) =>
          match Records(entries) {
            case Some(loaded) =>
              notes := loaded;
              nextId := MaxId(notes) + 1;
            case None =>
              notes := [];
              nextId := 1;
          }
        case _ =>
          notes := [];
          nextId := 1;
      }
      issued := set i | 0 <= i < |notes| && notes[i].id.Num? :: notes[i].id.value;
      forall x | x in issued ensures x < nextId {
        var i :| 0 <= i < |notes| && notes[i].id.Num? && notes[i].id.value == x;
        assert IdValue(notes[i].id) == x;
      }
    }

    /** GET /api/notes: the notes in list order, the store left as it is. */
    method List() returns (r: seq<Note>)
      ensures r == NoteOrder.SortNotes(notes)
    {
      r := NoteOrder.SortNotes(notes);
    }

    /** POST /api/notes. Refuses (400) missing or blank text and changes
        nothing; otherwise puts a new unpinned note with the trimmed text and
        the next id in front of the others. */
    method Create(text: BodyValue, now: int) returns (reply: Reply)
      requires Valid()
      modifies this
      ensures Valid()
      ensures !AcceptsText(text) ==>
        reply == Failure(400, "Empty note") && notes == old(notes) && nextId == old(nextId) &&
        savePending == old(savePending) && issued == old(issued)
      ensures AcceptsText(text) ==>
        var n := Note(Num(old(nextId)), JsString.Trim(AsString(text)), false, now, now);
        reply == Success(201, n) && notes == [n] + old(notes) && nextId == old(nextId) + 1 &&
        savePending && issued == old(issued) + {old(nextId)}
      ensures reply.Success? ==>
        reply.note.id.Num? && reply.note.id.value !in old(issued) &&
        FindIndex(old(notes), reply.note.id.value) == None
    {
      if !Truthy(text) || JsString.Trim(AsString(text)) == "" {
        return Failure(400, "Empty note");
      }
      var id := nextId;
      nextId := nextId + 1;
      var note := Note(Num(id), JsString.Trim(AsString(text)), false, now, now);
      notes := [note] + notes;
      issued := issued + {id};
      savePending := true;
      reply := Success(201, note);
    }

    /** PUT /api/notes/:id. Not found (404) changes nothing; otherwise the
        first note with that id gets the trimmed text when `text` is a string
        (blank text included), the new pin state when `pinned` is a boolean,
        and `updatedAt` in any case; no other note changes. */
    method Update(id: int, text: BodyValue, pinned: BodyValue, now: int) returns (reply: Reply)
      requires Valid()
      modifies this
      ensures Valid()
      ensures nextId == old(nextId) && issued == old(issued)
      ensures FindIndex(old(notes), id).None? ==>
        reply == Failure(404, "Not found") && notes == old(notes) && savePending == old(savePending)
      ensures FindIndex(old(notes), id).Some? ==>
        var i := FindIndex(old(notes), id).value;
        var was := old(notes)[i];
        |notes| == |old(notes)| && savePending &&
        (forall j :: 0 <= j < |notes| && j != i ==> notes[j] == old(notes)[j]) &&
        notes[i].id == was.id && notes[i].createdAt == was.createdAt &&
        notes[i].text == (if text.Str? then JsString.Trim(text.s) else was.text) &&
        notes[i].pinned == (if pinned.Bool? then pinned.b else was.pinned) &&
        notes[i].updatedAt == now &&
        reply == Success(200, notes[i])
    {
      var found := FindIndex(notes, id);
      if found.None? {
        return Failure(404, "Not found");
      }
      var idx := found.value;
      var note := Patch(notes[idx], text, pinned, now);
      notes := notes[idx := note];
      savePending := true;
      reply := Success(200, note);
    }

    /** DELETE /api/notes/:id. Not found (404) changes nothing; otherwise
        the first note with that id is cut out and returned, the others keep
        their order and `nextId` stays where it was. */
    method Delete(id: int) returns (reply: Reply)
      requires Valid()
      modifies this
      ensures Valid()
      ensures nextId == old(nextId) && issued == old(issued)
      ensures FindIndex(old(notes), id).None? ==>
        reply == Failure(404, "Not found") && notes == old(notes) && savePending == old(savePending)
      ensures FindIndex(old(notes), id).Some? ==>
        var i := FindIndex(old(notes), id).value;
        reply == Success(200, old(notes)[i]) &&
        notes == old(notes)[..i] + old(notes)[i + 1..] &&
        |notes| == |old(notes)| - 1 && savePending
    {
      var found := FindIndex(notes, id);
      if found.None? {
        return Failure(404, "Not found");
      }
      var idx := found.value;
      var removed := notes[idx];
      notes := notes[..idx] + notes[idx + 1..];
      savePending := true;
      reply := Success(200, removed);
    }

    /** `saveData` once the debounce timer fires: the file receives the
        current notes and nothing is pending any more. */
    method Flush() returns (written: DataFile)
      modifies this
      ensures written == SavedFile(notes)
      ensures notes == old(notes) && nextId == old(nextId) && issued == old(issued)
      ensures !savePending
    {
      savePending := false;
      written := SavedFile(notes);
    }
  }
}
