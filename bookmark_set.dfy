/** The bookmark set of the annotation store: a list kept sorted by time, insertion
    guarded by a 0.5 s proximity rule, removal into a bounded most-recent-first undo
    history, and undo of the latest removal (frontend/src/store/annotationStore.ts,
    addBookmark, removeBookmark, undo). */
module BookmarkSet {
  import opened Wrappers
  import opened AnnotationTypes

  /** A new bookmark closer than this to an existing one is rejected. */
  const ProximitySeconds: real := 0.5
  /** The undo history keeps at most this many deleted bookmarks. */
  const UndoLimit: nat := 50

  predicate SortedByTime(s: seq<Bookmark>) {
    forall i, j :: 0 <= i < j < |s| ==> s[i].time <= s[j].time
  }

  predicate StrictlySortedByTime(s: seq<Bookmark>) {
    forall i, j :: 0 <= i < j < |s| ==> s[i].time < s[j].time
  }

  /** No two bookmarks of `s` are closer than the proximity rule allows. */
  predicate WellSpaced(s: seq<Bookmark>) {
    forall i, j :: 0 <= i < j < |s| ==> Abs(s[i].time - s[j].time) >= ProximitySeconds
  }

  /** No identifier occurs twice in `s`. */
  predicate UniqueIds(s: seq<Bookmark>) {
    forall i, j :: 0 <= i < j < |s| ==> s[i].id != s[j].id
  }

  predicate HasId(s: seq<Bookmark>, id: Id) {
    exists i :: 0 <= i < |s| && s[i].id == id
  }

  // ---------------------------------------------------------------------------
  // Sorting. `Array.prototype.sort` is stable, so any stable sort gives the same
  // list; the model uses a stable insertion sort.

  /** Index of the first bookmark of `s` that is strictly later than `t`, or |s|. */
  function FirstLater(s: seq<Bookmark>, t: real): (k: nat)
    ensures k <= |s|
    ensures forall i :: 0 <= i < k ==> s[i].time <= t
    ensures k < |s| ==> s[k].time > t
  {
    if s == [] then 0 else if s[0].time > t then 0 else 1 + FirstLater(s[1..], t)
  }

  /** `FirstLater` is the index that separates the bookmarks not later than `t` from the first later one. */
  lemma {:induction false} FirstLaterIs(s: seq<Bookmark>, t: real, k: nat)
    requires k <= |s|
    requires forall i :: 0 <= i < k ==> s[i].time <= t
    requires k < |s| ==> s[k].time > t
    ensures FirstLater(s, t) == k
  {
    if k > 0 {
      FirstLaterIs(s[1..], t, k - 1);
    }
  }

  /** Inserts `b` in front of the first bookmark that is strictly later than it. */
  function InsertByTime(s: seq<Bookmark>, b: Bookmark): (r: seq<Bookmark>)
    ensures |r| == |s| + 1
  {
    if s == [] then [b]
    else if b.time < s[0].time then [b] + s
    else [s[0]] + InsertByTime(s[1..], b)
  }

  /** The insertion puts `b` at index `FirstLater(s, b.time)` and keeps the rest in order. */
  lemma {:induction false} InsertSplits(s: seq<Bookmark>, b: Bookmark)
    ensures InsertByTime(s, b) == s[..FirstLater(s, b.time)] + [b] + s[FirstLater(s, b.time)..]
  {
    if s != [] && b.time >= s[0].time {
      InsertSplits(s[1..], b);
      var k := FirstLater(s[1..], b.time);
      assert s[1..][..k] == s[1..k + 1];
      assert s[1..][k..] == s[k + 1..];
      assert [s[0]] + s[1..k + 1] == s[..k + 1];
    }
  }

  lemma InsertKeepsOrder(s: seq<Bookmark>, b: Bookmark)
    requires SortedByTime(s)
    ensures SortedByTime(InsertByTime(s, b))
    ensures multiset(InsertByTime(s, b)) == multiset(s) + multiset{b}
  {
    var k := FirstLater(s, b.time);
    InsertSplits(s, b);
    var r := InsertByTime(s, b);
    assert s == s[..k] + s[k..];
    forall i, j | 0 <= i < j < |r| ensures r[i].time <= r[j].time {
      InsertOrderAt(s, b, k, r, i, j);
    }
  }

  lemma InsertOrderAt(s: seq<Bookmark>, b: Bookmark, k: nat, r: seq<Bookmark>, i: nat, j: nat)
    requires SortedByTime(s)
    requires k == FirstLater(s, b.time)
    requires r == s[..k] + [b] + s[k..]
    requires i < j < |r|
    ensures r[i].time <= r[j].time
  {
    if j < k {
      assert r[i] == s[i] && r[j] == s[j];
    } else if j == k {
      assert r[i] == s[i];
    } else if i < k {
      assert r[i] == s[i] && r[j] == s[j - 1];
    } else if i == k {
      assert r[j] == s[j - 1] && s[k].time > b.time;
    } else {
      assert r[i] == s[i - 1] && r[j] == s[j - 1];
    }
  }

  /** Stable insertion sort by time: each element is inserted into the sorted prefix. */
  function SortByTime(s: seq<Bookmark>): (r: seq<Bookmark>)
    ensures SortedByTime(r)
    ensures multiset(r) == multiset(s)
    ensures |r| == |s|
  {
    if s == [] then []
    else
      var rest := SortByTime(s[..|s| - 1]);
      InsertKeepsOrder(rest, s[|s| - 1]);
      assert s == s[..|s| - 1] + [s[|s| - 1]];
      InsertByTime(rest, s[|s| - 1])
  }

  /** Sorting a list that is already sorted leaves it as it is. */
  lemma {:induction false} SortSortedIsIdentity(s: seq<Bookmark>)
    requires SortedByTime(s)
    ensures SortByTime(s) == s
  {
    if s != [] {
      var n := |s| - 1;
      SortSortedIsIdentity(s[..n]);
      InsertSplits(s[..n], s[n]);
      assert s[..n][..n] + [s[n]] + s[..n][n..] == s;
    }
  }

  /** Sorting a sorted list with one bookmark appended is one insertion step. */
  lemma SortAppendIsInsert(s: seq<Bookmark>, b: Bookmark)
    requires SortedByTime(s)
    ensures SortByTime(s + [b]) == InsertByTime(s, b)
  {
    assert (s + [b])[..|s|] == s;
    SortSortedIsIdentity(s);
  }

  // ---------------------------------------------------------------------------
  // addBookmark

  /** Some existing bookmark lies strictly within 0.5 s of `t`. */
  predicate TooClose(s: seq<Bookmark>, t: real) {
    exists i :: 0 <= i < |s| && Abs(s[i].time - t) < ProximitySeconds
  }

  /** The bookmark list after `addBookmark(t)`, where `id` is the freshly drawn id. */
  function AddBookmark(s: seq<Bookmark>, t: real, id: Id): (r: seq<Bookmark>)
    ensures TooClose(s, t) ==> r == s
    ensures !TooClose(s, t) ==> SortedByTime(r)
    ensures !TooClose(s, t) ==> multiset(r) == multiset(s) + multiset{Bookmark(id, t)}
  {
    if TooClose(s, t) then s else SortByTime(s + [Bookmark(id, t)])
  }

  /** `addBookmark(t)` on the list together with the id counter: the counter advances
      exactly when a bookmark is added. */
  function AddStep(s: seq<Bookmark>, next: Id, t: real): (seq<Bookmark>, Id) {
    if TooClose(s, t) then (s, next) else (AddBookmark(s, t, next), next + 1)
  }

  /** On a sorted list an accepted bookmark is inserted after every bookmark that is not
      later than it, and the existing bookmarks keep their order. */
  lemma AddToSortedInserts(s: seq<Bookmark>, t: real, id: Id)
    requires SortedByTime(s)
    requires !TooClose(s, t)
    ensures AddBookmark(s, t, id) == s[..FirstLater(s, t)] + [Bookmark(id, t)] + s[FirstLater(s, t)..]
  {
    SortAppendIsInsert(s, Bookmark(id, t));
    InsertSplits(s, Bookmark(id, t));
  }

  /** Adding keeps the spacing rule of a sorted, well-spaced list. */
  lemma AddKeepsSpacing(s: seq<Bookmark>, t: real, id: Id)
    requires SortedByTime(s) && WellSpaced(s)
    ensures WellSpaced(AddBookmark(s, t, id))
  {
    if !TooClose(s, t) {
      AddToSortedInserts(s, t, id);
      var k := FirstLater(s, t);
      var r := AddBookmark(s, t, id);
      forall i, j | 0 <= i < j < |r| ensures Abs(r[i].time - r[j].time) >= ProximitySeconds {
        SpacingAt(s, Bookmark(id, t), k, r, i, j);
      }
    }
  }

  lemma SpacingAt(s: seq<Bookmark>, b: Bookmark, k: nat, r: seq<Bookmark>, i: nat, j: nat)
    requires WellSpaced(s) && !TooClose(s, b.time)
    requires k <= |s| && r == s[..k] + [b] + s[k..]
    requires i < j < |r|
    ensures Abs(r[i].time - r[j].time) >= ProximitySeconds
  {
    if j < k {
      assert r[i] == s[i] && r[j] == s[j];
    } else if j == k {
      assert r[i] == s[i];
      assert !(Abs(s[i].time - b.time) < ProximitySeconds);
    } else if i < k {
      assert r[i] == s[i] && r[j] == s[j - 1];
    } else if i == k {
      assert r[j] == s[j - 1];
      assert !(Abs(s[j - 1].time - b.time) < ProximitySeconds);
    } else {
      assert r[i] == s[i - 1] && r[j] == s[j - 1];
    }
  }

  /** Once a bookmark at `t1` is accepted, a second one within 0.5 s of it is rejected. */
  lemma SecondCloseAddRejected(s: seq<Bookmark>, t1: real, id1: Id, t2: real, id2: Id)
    requires !TooClose(s, t1)
    requires Abs(t1 - t2) < ProximitySeconds
    ensures AddBookmark(AddBookmark(s, t1, id1), t2, id2) == AddBookmark(s, t1, id1)
  {
    var r := AddBookmark(s, t1, id1);
    assert Bookmark(id1, t1) in multiset(r);
    var i :| 0 <= i < |r| && r[i] == Bookmark(id1, t1);
    assert Abs(r[i].time - t2) < ProximitySeconds;
  }

  // ---------------------------------------------------------------------------
  // removeBookmark

  /** `bookmarks.find(b => b.id === id)`. */
  function FindById(s: seq<Bookmark>, id: Id): (r: Option<nat>)
    ensures r.None? <==> !HasId(s, id)
    ensures r.Some? ==> r.value < |s| && s[r.value].id == id
    ensures r.Some? ==> forall i :: 0 <= i < r.value ==> s[i].id != id
  {
    if s == [] then None
    else if s[0].id == id then Some(0)
    else
      var r := FindById(s[1..], id);
      if r.Some? then Some(r.value + 1)
      else
        assert forall i :: 1 <= i < |s| ==> s[i].id == s[1..][i - 1].id;
        None
  }

  /** `bookmarks.filter(b => b.id !== id)`. */
  function WithoutId(s: seq<Bookmark>, id: Id): (r: seq<Bookmark>)
    ensures |r| <= |s|
    ensures forall i :: 0 <= i < |r| ==> r[i].id != id
    ensures !HasId(s, id) ==> r == s
  {
    if s == [] then []
    else if s[0].id == id then WithoutId(s[1..], id)
    else
      assert !HasId(s, id) ==> !HasId(s[1..], id) by {
        if HasId(s[1..], id) {
          var i :| 0 <= i < |s[1..]| && s[1..][i].id == id;
          assert s[i + 1].id == id;
        }
      }
      [s[0]] + WithoutId(s[1..], id)
  }

  /** The filter keeps exactly the bookmarks whose id differs. */
  lemma {:induction false} WithoutIdMembers(s: seq<Bookmark>, id: Id)
    ensures forall b :: b in WithoutId(s, id) <==> b in s && b.id != id
  {
    if s != [] {
      WithoutIdMembers(s[1..], id);
      assert s == [s[0]] + s[1..];
    }
  }

  /** The filter keeps the relative order of what it keeps, so sortedness survives. */
  lemma {:induction false} WithoutIdKeepsOrder(s: seq<Bookmark>, id: Id)
    requires SortedByTime(s)
    ensures SortedByTime(WithoutId(s, id))
  {
    if s != [] {
      WithoutIdKeepsOrder(s[1..], id);
      WithoutIdMembers(s[1..], id);
      var rest := WithoutId(s[1..], id);
      forall b | b in rest ensures s[0].time <= b.time {
        var j :| 0 <= j < |s[1..]| && s[1..][j] == b;
        assert s[j + 1] == b;
      }
    }
  }

  /** The undo history after pushing `b` on its front and keeping the 50 newest. */
  function PushHistory(history: seq<Bookmark>, b: Bookmark): (r: seq<Bookmark>)
    ensures |r| == if |history| < UndoLimit then |history| + 1 else UndoLimit
    ensures r[0] == b
    ensures r[1..] == history[..|r| - 1]
  {
    ([b] + history)[..if |history| < UndoLimit then |history| + 1 else UndoLimit]
  }

  /** The bookmark list and undo history after `removeBookmark(id)`. */
  function RemoveBookmark(s: seq<Bookmark>, history: seq<Bookmark>, id: Id): (r: (seq<Bookmark>, seq<Bookmark>))
    ensures !HasId(s, id) ==> r == (s, history)
    ensures HasId(s, id) ==> r.0 == WithoutId(s, id)
    ensures HasId(s, id) ==> r.1 == PushHistory(history, s[FindById(s, id).value])
    ensures |history| <= UndoLimit ==> |r.1| <= UndoLimit
  {
    match FindById(s, id)
    case None => (s, history)
    case Some(k) => (WithoutId(s, id), PushHistory(history, s[k]))
  }

  // ---------------------------------------------------------------------------
  // undo

  /** The bookmark list and undo history after `undo()`: the newest deleted bookmark is
      appended and the list sorted again, with no proximity check. */
  function Undo(s: seq<Bookmark>, history: seq<Bookmark>): (r: (seq<Bookmark>, seq<Bookmark>))
    ensures history == [] ==> r == (s, history)
    ensures history != [] ==> r.1 == history[1..]
    ensures history != [] ==> SortedByTime(r.0)
    ensures history != [] ==> multiset(r.0) == multiset(s) + multiset{history[0]}
  {
    if history == [] then (s, history)
    else (SortByTime(s + [history[0]]), history[1..])
  }

  /** Undo re-inserts without the proximity check, so it can break the spacing rule. */
  lemma UndoCanBreakSpacing()
    ensures WellSpaced([Bookmark(1, 10.0)])
    ensures Undo([Bookmark(1, 10.0)], [Bookmark(2, 10.2)]).0 == [Bookmark(1, 10.0), Bookmark(2, 10.2)]
    ensures !WellSpaced(Undo([Bookmark(1, 10.0)], [Bookmark(2, 10.2)]).0)
  {
    var r := Undo([Bookmark(1, 10.0)], [Bookmark(2, 10.2)]).0;
    SortAppendIsInsert([Bookmark(1, 10.0)], Bookmark(2, 10.2));
    assert [Bookmark(1, 10.0)][1..] == [];
    assert r == [Bookmark(1, 10.0), Bookmark(2, 10.2)];
    assert Abs(r[0].time - r[1].time) < ProximitySeconds;
  }

  /** Removing a bookmark and undoing restores the list exactly when times are strictly
      increasing and ids unique; the history loses at most its oldest entry. */
  lemma RemoveThenUndoRestores(s: seq<Bookmark>, history: seq<Bookmark>, id: Id)
    requires StrictlySortedByTime(s) && UniqueIds(s)
    requires HasId(s, id)
    ensures Undo(RemoveBookmark(s, history, id).0, RemoveBookmark(s, history, id).1)
         == (s, history[..if |history| < UndoLimit then |history| else UndoLimit - 1])
  {
    var k := FindById(s, id).value;
    var rest := s[..k] + s[k + 1..];
    assert s == s[..k] + [s[k]] + s[k + 1..];
    UniqueIdsSplit(s, k);
    WithoutIdSplit(s[..k], s[k], s[k + 1..], id);
    RemoveAtKeepsOrder(s, k);
    SortAppendIsInsert(rest, s[k]);
    ReinsertAtRestores(s, k);
  }

  /** Dropping one element keeps a list sorted. */
  lemma RemoveAtKeepsOrder(s: seq<Bookmark>, k: nat)
    requires SortedByTime(s) && k < |s|
    ensures SortedByTime(s[..k] + s[k + 1..])
  {
    var rest := s[..k] + s[k + 1..];
    forall i, j | 0 <= i < j < |rest| ensures rest[i].time <= rest[j].time {
      var i' := if i < k then i else i + 1;
      var j' := if j < k then j else j + 1;
      assert rest[i] == s[i'] && rest[j] == s[j'];
    }
  }

  /** With strictly increasing times, inserting the dropped element goes back to its place. */
  lemma ReinsertAtRestores(s: seq<Bookmark>, k: nat)
    requires StrictlySortedByTime(s) && k < |s|
    ensures InsertByTime(s[..k] + s[k + 1..], s[k]) == s
  {
    var rest := s[..k] + s[k + 1..];
    InsertSplits(rest, s[k]);
    assert forall i :: 0 <= i < k ==> rest[i] == s[i];
    assert k < |rest| ==> rest[k] == s[k + 1];
    FirstLaterIs(rest, s[k].time, k);
    assert rest[..k] == s[..k] && rest[k..] == s[k + 1..];
    assert s[..k] + [s[k]] + s[k + 1..] == s;
  }

  /** Filtering an id that occurs once, at a known position, removes exactly that element. */
  lemma WithoutIdSplit(a: seq<Bookmark>, x: Bookmark, b: seq<Bookmark>, id: Id)
    requires x.id == id
    requires !HasId(a, id) && !HasId(b, id)
    ensures WithoutId(a + [x] + b, id) == a + b
  {
    WithoutIdConcat(a, [x] + b, id);
    assert ([x] + b)[0] == x && ([x] + b)[1..] == b;
    assert WithoutId([x] + b, id) == WithoutId(b, id);
    assert a + [x] + b == a + ([x] + b);
  }

  /** With unique ids, the id at index `k` occurs nowhere else. */
  lemma UniqueIdsSplit(s: seq<Bookmark>, k: nat)
    requires UniqueIds(s) && k < |s|
    ensures !HasId(s[..k], s[k].id) && !HasId(s[k + 1..], s[k].id)
  {
  }

  lemma {:induction false} WithoutIdConcat(a: seq<Bookmark>, b: seq<Bookmark>, id: Id)
    ensures WithoutId(a + b, id) == WithoutId(a, id) + WithoutId(b, id)
  {
    if a != [] {
      WithoutIdConcat(a[1..], b, id);
      assert (a + b)[1..] == a[1..] + b;
    } else {
      assert a + b == b;
    }
  }
}
