/**
 * `sortNotes` of server.js: a sorted copy of the note array, pinned notes
 * first and, within the pinned and the unpinned group, newest `createdAt`
 * first. `Array.prototype.sort` is stable, so notes that tie on both keys
 * keep their relative order; the model is a stable insertion sort and the
 * lemmas below show its output is the only sequence with those properties.
 */
module NoteOrder {
  import opened Notes

  /** The comparator handed to the sort: between notes with the same pin
      state, the later `createdAt` minus the earlier; otherwise -1 when `a` is
      the pinned one and 1 when `b` is. */
  function Compare(a: Note, b: Note): (r: int)
    ensures !(Before(a, b) && Before(b, a))
    ensures r < 0 <==> Before(a, b)
    ensures r == 0 <==> SameRank(a, b)
    ensures r > 0 <==> Before(b, a)
  {
    if a.pinned == b.pinned then b.createdAt - a.createdAt
    else if a.pinned then -1 else 1
  }

  /** `a` sorts strictly before `b`: the comparator returns a negative number. */
  predicate Before(a: Note, b: Note) {
    (a.pinned && !b.pinned) || (a.pinned == b.pinned && a.createdAt > b.createdAt)
  }

  /** `a` and `b` tie: the comparator returns 0. */
  predicate SameRank(a: Note, b: Note) {
    a.pinned == b.pinned && a.createdAt == b.createdAt
  }

  /** No note sorts strictly before a note that precedes it. */
  predicate InListOrder(s: seq<Note>) {
    forall i, j :: 0 <= i < j < |s| ==> !Before(s[j], s[i])
  }

  /** The tie class of `k` in `s`: the notes of `s` on which the comparator
      returns 0 against `k`, in the order `s` has them. */
  function RankGroup(s: seq<Note>, k: Note): (r: seq<Note>)
    ensures forall n :: n in r <==> n in s && SameRank(n, k)
  {
    if s == [] then []
    else if SameRank(s[0], k) then [s[0]] + RankGroup(s[1..], k)
    else RankGroup(s[1..], k)
  }

  /** A note that does not sort after the head of a sorted sequence may be
      put in front of it. */
  lemma ConsInListOrder(y: Note, t: seq<Note>)
    requires InListOrder(t) && (t != [] ==> !Before(t[0], y))
    ensures InListOrder([y] + t)
  {
  }

  /** Inserts `x` in front of the first note it does not sort after, so that
      it precedes every note it ties with. */
  function Insert(x: Note, s: seq<Note>): (r: seq<Note>)
    requires InListOrder(s)
    ensures InListOrder(r)
    ensures multiset(r) == multiset(s) + multiset{x}
    ensures r != [] && (r[0] == x || (s != [] && r[0] == s[0]))
  {
    if s == [] || !Before(s[0], x) then [x] + s
    else
      var rest := Insert(x, s[1..]);
      ConsInListOrder(s[0], rest);
      assert s == [s[0]] + s[1..];
      [s[0]] + rest
  }

  /** `sortNotes`: a sorted copy (`arr` itself is a value and stays as it
      was) holding the same notes, every pinned note before every unpinned
      one, and `createdAt` non-increasing within each group. */
  function SortNotes(s: seq<Note>): (r: seq<Note>)
    ensures InListOrder(r)
    ensures multiset(r) == multiset(s)
    ensures forall i, j :: 0 <= i < j < |r| && r[j].pinned ==> r[i].pinned
    ensures forall i, j :: 0 <= i < j < |r| && r[i].pinned == r[j].pinned ==> r[i].createdAt >= r[j].createdAt
  {
    if s == [] then []
    else
      assert s == [s[0]] + s[1..];
      Insert(s[0], SortNotes(s[1..]))
  }

  /** Inserting `x` puts it at the head of its tie group and leaves every
      other group as it was. */
  lemma {:induction false} InsertRankGroup(x: Note, s: seq<Note>, k: Note)
    requires InListOrder(s)
    ensures RankGroup(Insert(x, s), k) == if SameRank(x, k) then [x] + RankGroup(s, k) else RankGroup(s, k)
  {
    if s == [] || !Before(s[0], x) {
      assert ([x] + s)[1..] == s;
    } else {
      var rest := Insert(x, s[1..]);
      assert ([s[0]] + rest)[1..] == rest;
      InsertRankGroup(x, s[1..], k);
    }
  }

  /** Sorting is stable: notes that tie keep their relative order. */
  lemma {:induction false} SortNotesStable(s: seq<Note>, k: Note)
    ensures RankGroup(SortNotes(s), k) == RankGroup(s, k)
  {
    if s != [] {
      SortNotesStable(s[1..], k);
      InsertRankGroup(s[0], SortNotes(s[1..]), k);
    }
  }

  /** In a sorted sequence, a note tied with some member of it does not sort
      before its head. */
  lemma {:induction false} HeadNotAfterGroup(u: seq<Note>, k: Note)
    requires InListOrder(u) && RankGroup(u, k) != []
    ensures u != [] && !Before(k, u[0])
  {
    if !SameRank(u[0], k) {
      HeadNotAfterGroup(u[1..], k);
      assert u[1..][0] == u[1];
    }
  }

  /** Two sorted sequences with the same tie groups are equal. */
  lemma {:induction false} ListOrderUnique(t: seq<Note>, u: seq<Note>)
    requires InListOrder(t) && InListOrder(u)
    requires forall k :: RankGroup(t, k) == RankGroup(u, k)
    ensures t == u
    decreases |t|
  {
    if t == [] || u == [] {
      // The head's own tie group cannot be empty in the other sequence.
      if t != [] {
        var g := RankGroup(t, t[0]);
      } else if u != [] {
        var g := RankGroup(u, u[0]);
      }
    } else {
      var a, b := t[0], u[0];
      assert RankGroup(t, a) != [];
      HeadNotAfterGroup(u, a);
      assert RankGroup(u, b) != [];
      HeadNotAfterGroup(t, b);
      assert SameRank(a, b);
      assert RankGroup(t, a) == [a] + RankGroup(t[1..], a);
      assert RankGroup(u, a) == [b] + RankGroup(u[1..], a);
      assert a == b by {
        assert ([a] + RankGroup(t[1..], a))[0] == ([b] + RankGroup(u[1..], a))[0];
      }
      forall k ensures RankGroup(t[1..], k) == RankGroup(u[1..], k) {
        assert RankGroup(t, k) == RankGroup(u, k);
        if SameRank(a, k) {
          assert RankGroup(t, k) == [a] + RankGroup(t[1..], k);
          assert RankGroup(u, k) == [a] + RankGroup(u[1..], k);
          assert RankGroup(t[1..], k) == RankGroup(t, k)[1..];
        }
      }
      ListOrderUnique(t[1..], u[1..]);
      assert t == [a] + t[1..] && u == [b] + u[1..];
    }
  }

  /** `sortNotes`' output is fully determined: it is the one sequence in list
      order whose tie groups are those of the input, in the input's order. */
  lemma SortNotesIsUnique(s: seq<Note>, t: seq<Note>)
    requires InListOrder(t)
    requires forall k :: RankGroup(t, k) == RankGroup(s, k)
    ensures t == SortNotes(s)
  {
    forall k ensures RankGroup(t, k) == RankGroup(SortNotes(s), k) {
      SortNotesStable(s, k);
    }
    ListOrderUnique(t, SortNotes(s));
  }

  /** A list already in list order comes back unchanged. */
  lemma SortNotesOfSorted(s: seq<Note>)
    requires InListOrder(s)
    ensures SortNotes(s) == s
  {
    SortNotesIsUnique(s, s);
  }

  /** Sorting twice is sorting once. */
  lemma SortNotesIdempotent(s: seq<Note>)
    ensures SortNotes(SortNotes(s)) == SortNotes(s)
  {
    SortNotesOfSorted(SortNotes(s));
  }
}
