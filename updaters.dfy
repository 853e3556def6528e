/**
 * The list transforms the bookmark list hands to `setBookmarks(current => …)`:
 * the remote INSERT / DELETE / UPDATE handlers and the replace-by-id and
 * filter-by-id steps of the optimistic add, edit and delete. Each is a
 * function from the current list to the next one. Beside them, the
 * invariant they keep: no two entries share an id.
 */
module Updaters {
  import opened Types

  /** `current.some(b => b.id === id)` */
  predicate HasId(s: seq<Bookmark>, id: string) {
    exists i :: 0 <= i < |s| && s[i].id == id
  }

  /** `bookmarks.some(b => b.url === url)`: the duplicate-url guard of an add. */
  predicate HasUrl(s: seq<Bookmark>, url: string) {
    exists i :: 0 <= i < |s| && s[i].url == url
  }

  /** A provisional entry with the url and title of `row`: the echo test of a remote INSERT. */
  predicate IsEchoOf(b: Bookmark, row: Bookmark) {
    IsTemp(b.id) && b.url == row.url && b.title == row.title
  }

  /** `i` is the first index whose entry `row` is an echo of. */
  predicate FirstEcho(s: seq<Bookmark>, row: Bookmark, i: int) {
    0 <= i < |s| && IsEchoOf(s[i], row) && forall j :: 0 <= j < i ==> !IsEchoOf(s[j], row)
  }

  /** `i` is the first index holding an entry with this id. */
  predicate FirstWithId(s: seq<Bookmark>, id: string, i: int) {
    0 <= i < |s| && s[i].id == id && forall j :: 0 <= j < i ==> s[j].id != id
  }

  /** `current.findIndex(b => IsEchoOf(b, row))`, with None for -1. */
  function FindEcho(s: seq<Bookmark>, row: Bookmark): (r: Option<nat>)
    ensures r.Some? ==> FirstEcho(s, row, r.value)
    ensures r.None? ==> forall j :: 0 <= j < |s| ==> !IsEchoOf(s[j], row)
  {
    if s == [] then None
    else if IsEchoOf(s[0], row) then Some(0)
    else match FindEcho(s[1..], row)
      case None => None
      case Some(i) => Some(i + 1)
  }

  /** `bookmarks.find(b => b.id === id)` */
  function FindById(s: seq<Bookmark>, id: string): (r: Option<Bookmark>)
    ensures r.None? <==> !HasId(s, id)
    ensures r.Some? ==> exists i :: FirstWithId(s, id, i) && s[i] == r.value
  {
    if s == [] then None
    else if s[0].id == id then
      assert FirstWithId(s, id, 0);
      Some(s[0])
    else
      var r := FindById(s[1..], id);
      assert r.Some? ==> exists i :: FirstWithId(s, id, i) && s[i] == r.value by {
        if r.Some? {
          var i :| FirstWithId(s[1..], id, i) && s[1..][i] == r.value;
          assert FirstWithId(s, id, i + 1);
        }
      }
      assert HasId(s, id) ==> HasId(s[1..], id) by {
        if HasId(s, id) {
          var i :| 0 <= i < |s| && s[i].id == id;
          assert s[1..][i - 1].id == id;
        }
      }
      r
  }

  /** `current.filter(b => b.id !== id)`: every entry with that id goes, the rest stay. */
  function RemoveById(s: seq<Bookmark>, id: string): (r: seq<Bookmark>)
    ensures forall i :: 0 <= i < |r| ==> r[i].id != id
    ensures forall b: Bookmark :: b in r ==> b in s
    ensures !HasId(s, id) ==> r == s
  {
    if s == [] then []
    else
      var rest := RemoveById(s[1..], id);
      if s[0].id == id then
        rest
      else
        assert !HasId(s, id) ==> rest == s[1..] by {
          if HasId(s[1..], id) {
            var i :| 0 <= i < |s[1..]| && s[1..][i].id == id;
            assert s[i + 1].id == id;
          }
        }
        assert !HasId(s, id) ==> [s[0]] + rest == s;
        [s[0]] + rest
  }

  /** Every entry without that id survives as often as it was listed. */
  lemma {:induction false} RemoveByIdCounts(s: seq<Bookmark>, id: string)
    ensures forall b: Bookmark :: b.id != id ==> multiset(RemoveById(s, id))[b] == multiset(s)[b]
  {
    if s != [] {
      RemoveByIdCounts(s[1..], id);
      assert s == [s[0]] + s[1..];
      assert multiset(s) == multiset{s[0]} + multiset(s[1..]);
      if s[0].id != id {
        assert RemoveById(s, id) == [s[0]] + RemoveById(s[1..], id);
        assert multiset(RemoveById(s, id)) == multiset{s[0]} + multiset(RemoveById(s[1..], id));
      }
    }
  }

  /** Filtering distributes over concatenation, so the survivors keep their order. */
  lemma {:induction false} RemoveByIdConcat(a: seq<Bookmark>, b: seq<Bookmark>, id: string)
    ensures RemoveById(a + b, id) == RemoveById(a, id) + RemoveById(b, id)
  {
    if a != [] {
      var ab := a + b;
      assert ab[0] == a[0] && ab[1..] == a[1..] + b;
      RemoveByIdConcat(a[1..], b, id);
      if a[0].id == id {
        assert RemoveById(ab, id) == RemoveById(a[1..] + b, id);
        assert RemoveById(a, id) == RemoveById(a[1..], id);
      } else {
        assert RemoveById(ab, id) == [a[0]] + RemoveById(a[1..] + b, id);
        assert RemoveById(a, id) == [a[0]] + RemoveById(a[1..], id);
      }
    } else {
      assert a + b == b;
    }
  }

  /** `current.map(b => b.id === id ? row : b)`: same length, `row` exactly where the id matches. */
  function ReplaceById(s: seq<Bookmark>, id: string, row: Bookmark): (r: seq<Bookmark>)
    ensures |r| == |s|
    ensures forall i :: 0 <= i < |s| ==> r[i] == if s[i].id == id then row else s[i]
    ensures !HasId(s, id) ==> r == s
  {
    if s == [] then []
    else [if s[0].id == id then row else s[0]] + ReplaceById(s[1..], id, row)
  }

  /**
   * The remote INSERT handler: a row whose id is listed is ignored; otherwise
   * it takes the place of the first provisional entry with its url and title;
   * failing both, it goes to the front.
   */
  function RemoteInsert(s: seq<Bookmark>, row: Bookmark): (r: seq<Bookmark>)
    ensures HasId(s, row.id) ==> r == s
    ensures !HasId(s, row.id) && (forall j :: 0 <= j < |s| ==> !IsEchoOf(s[j], row)) ==> r == [row] + s
    ensures forall i :: FirstEcho(s, row, i) && !HasId(s, row.id) ==> r == s[i := row]
  {
    if HasId(s, row.id) then s
    else match FindEcho(s, row)
      case Some(i) =>
        assert forall k :: FirstEcho(s, row, k) ==> k == i by {
          forall k | FirstEcho(s, row, k) ensures k == i {
            assert !(k < i) && !(i < k);
          }
        }
        s[i := row]
      case None => [row] + s
  }

  /** The remote UPDATE handler: the row replaces the entries with its id. */
  function RemoteUpdate(s: seq<Bookmark>, row: Bookmark): (r: seq<Bookmark>)
    ensures |r| == |s|
    ensures forall i :: 0 <= i < |s| ==> r[i].id == s[i].id
    ensures forall i :: 0 <= i < |s| && s[i].id == row.id ==> r[i] == row
    ensures forall i :: 0 <= i < |s| && s[i].id != row.id ==> r[i] == s[i]
  {
    ReplaceById(s, row.id, row)
  }

  /** No two entries share an id. */
  ghost predicate DistinctIds(s: seq<Bookmark>) {
    forall i, j :: 0 <= i < j < |s| ==> s[i].id != s[j].id
  }

  /** No entry holds a provisional id the counter has yet to hand out. */
  ghost predicate TempIdsBelow(s: seq<Bookmark>, next: nat) {
    forall i, k :: 0 <= i < |s| && next <= k ==> s[i].id != TempId(k)
  }

  /** No two provisional entries share a url, as the duplicate-url guard ensures. */
  ghost predicate OneProvisionalPerUrl(s: seq<Bookmark>) {
    forall i, j :: 0 <= i < j < |s| && IsTemp(s[i].id) && IsTemp(s[j].id) ==> s[i].url != s[j].url
  }

  /** The list invariant the component relies on, with `next` the counter of provisional ids. */
  ghost predicate Consistent(s: seq<Bookmark>, next: nat) {
    DistinctIds(s) && TempIdsBelow(s, next) && OneProvisionalPerUrl(s)
  }

  /** A remote INSERT of a durable row keeps the list consistent; ids stay distinct whatever the row. */
  lemma RemoteInsertConsistent(s: seq<Bookmark>, next: nat, row: Bookmark)
    requires Consistent(s, next)
    ensures DistinctIds(RemoteInsert(s, row))
    ensures !IsTemp(row.id) ==> Consistent(RemoteInsert(s, row), next)
  {
    var r := RemoteInsert(s, row);
    if !HasId(s, row.id) {
      match FindEcho(s, row)
      case Some(i) =>
        assert r == s[i := row];
      case None =>
        assert r == [row] + s;
        assert forall j :: 0 < j < |r| ==> r[j] == s[j - 1];
    }
  }

  lemma TailConsistent(s: seq<Bookmark>, next: nat)
    requires s != [] && Consistent(s, next)
    ensures Consistent(s[1..], next)
  {
    assert forall j :: 0 <= j < |s[1..]| ==> s[1..][j] == s[j + 1];
  }

  /** Putting back a list's own head in front of a consistent selection of its tail. */
  lemma ConsConsistent(s: seq<Bookmark>, next: nat, rest: seq<Bookmark>)
    requires s != [] && Consistent(s, next) && Consistent(rest, next)
    requires forall b: Bookmark :: b in rest ==> b in s[1..]
    ensures Consistent([s[0]] + rest, next)
  {
    var tail := s[1..];
    var r := [s[0]] + rest;
    forall j | 0 < j < |r|
      ensures r[j].id != s[0].id
      ensures IsTemp(s[0].id) && IsTemp(r[j].id) ==> r[j].url != s[0].url
    {
      assert r[j] == rest[j - 1];
      assert r[j] in tail;
      var k :| 0 <= k < |tail| && tail[k] == r[j];
      assert s[k + 1] == r[j];
    }
    assert forall j :: 0 < j < |r| ==> r[j] == rest[j - 1];
    assert DistinctIds(r);
    assert OneProvisionalPerUrl(r);
    assert TempIdsBelow(r, next);
  }

  /** Dropping entries by id keeps the list consistent. */
  lemma {:induction false} RemoveByIdConsistent(s: seq<Bookmark>, next: nat, id: string)
    requires Consistent(s, next)
    ensures Consistent(RemoveById(s, id), next)
  {
    if s != [] {
      TailConsistent(s, next);
      RemoveByIdConsistent(s[1..], next, id);
      if s[0].id != id {
        ConsConsistent(s, next, RemoveById(s[1..], id));
      }
    }
  }

  /**
   * Replacing the entries with id `id` by a durable row keeps the list
   * consistent, provided the row either keeps that id or brings a new one.
   */
  lemma ReplaceByIdConsistent(s: seq<Bookmark>, next: nat, id: string, row: Bookmark)
    requires Consistent(s, next)
    requires !IsTemp(row.id)
    requires row.id == id || !HasId(s, row.id)
    ensures Consistent(ReplaceById(s, id, row), next)
  {
    var r := ReplaceById(s, id, row);
    forall i, k | 0 <= i < |r| && next <= k ensures r[i].id != TempId(k) {
      if s[i].id == id {
        assert IsTemp(TempId(k));
      }
    }
    forall i, j | 0 <= i < j < |r| ensures r[i].id != r[j].id {
      if s[i].id == id && s[j].id != id {
        assert r[j] == s[j];
      } else if s[i].id != id && s[j].id == id {
        assert r[i] == s[i];
      }
    }
    forall i, j | 0 <= i < j < |r| && IsTemp(r[i].id) && IsTemp(r[j].id) ensures r[i].url != r[j].url {
      assert r[i] == s[i] && r[j] == s[j];
    }
  }

  /**
   * Putting a new provisional entry with the next counter value in front,
   * when no entry has its url, keeps the list consistent for the bumped counter.
   */
  lemma PrependProvisionalConsistent(s: seq<Bookmark>, next: nat, t: Bookmark)
    requires Consistent(s, next)
    requires t.id == TempId(next) && !HasUrl(s, t.url)
    ensures Consistent([t] + s, next + 1)
  {
    var r := [t] + s;
    forall i, k | 0 <= i < |r| && next + 1 <= k ensures r[i].id != TempId(k) {
      if i == 0 && TempId(next) == TempId(k) {
        TempIdInjective(next, k);
      }
      if i > 0 {
        assert r[i] == s[i - 1];
      }
    }
    assert forall j :: 0 < j < |r| ==> r[j] == s[j - 1];
  }

  /**
   * A provisional entry met by its own echo: whichever of the remote INSERT
   * and the store's reply to the add comes first, the list ends with the
   * durable row in the provisional entry's place, once, and the provisional
   * entry gone.
   */
  lemma EchoCommutesWithReply(s: seq<Bookmark>, i: int, row: Bookmark)
    requires DistinctIds(s) && OneProvisionalPerUrl(s)
    requires 0 <= i < |s| && IsEchoOf(s[i], row) && !HasId(s, row.id)
    ensures RemoteInsert(s, row) == s[i := row]
    ensures ReplaceById(s, s[i].id, row) == s[i := row]
    ensures RemoteInsert(ReplaceById(s, s[i].id, row), row) == s[i := row]
    ensures ReplaceById(RemoteInsert(s, row), s[i].id, row) == s[i := row]
  {
    assert FirstEcho(s, row, i) by {
      forall j | 0 <= j < i ensures !IsEchoOf(s[j], row) {
        assert !(IsTemp(s[j].id) && s[j].url == s[i].url);
      }
    }
    var fused := s[i := row];
    assert fused[i].id == row.id;
    assert HasId(fused, row.id);
    assert !HasId(fused, s[i].id) by {
      assert row.id != s[i].id;
    }
  }

  /** An optimistic add whose echo arrives: the durable row replaces the provisional one at the front. */
  lemma OptimisticAddThenEcho(s: seq<Bookmark>, t: Bookmark, row: Bookmark)
    requires IsEchoOf(t, row) && !HasId([t] + s, row.id)
    ensures RemoteInsert([t] + s, row) == [row] + s
  {
    assert FirstEcho([t] + s, row, 0);
    assert ([t] + s)[0 := row] == [row] + s;
  }

  /**
   * The optimistic edit of entry `i` in a list with distinct ids: that entry
   * gets the new title and url and keeps every other field, and no other
   * entry changes.
   */
  lemma OptimisticEditTouchesOneEntry(s: seq<Bookmark>, i: int, title: string, url: string)
    requires DistinctIds(s) && 0 <= i < |s|
    ensures var r := ReplaceById(s, s[i].id, s[i].(title := title, url := url));
      && |r| == |s|
      && r[i].id == s[i].id && r[i].userId == s[i].userId && r[i].description == s[i].description
      && r[i].tags == s[i].tags && r[i].createdAt == s[i].createdAt
      && r[i].title == title && r[i].url == url
      && forall j :: 0 <= j < |s| && j != i ==> r[j] == s[j]
  {
  }

  /** An optimistic add rolled back: the list is what it was before the add. */
  lemma OptimisticAddRollback(s: seq<Bookmark>, t: Bookmark)
    requires !HasId(s, t.id)
    ensures RemoveById([t] + s, t.id) == s
  {
    assert ([t] + s)[1..] == s;
  }

  /**
   * An optimistic edit rolled back from its snapshot: where every entry with
   * the id was the snapshot, the list is what it was before the edit.
   */
  lemma EditRollback(s: seq<Bookmark>, original: Bookmark, edited: Bookmark)
    requires edited.id == original.id
    requires forall i :: 0 <= i < |s| && s[i].id == original.id ==> s[i] == original
    ensures ReplaceById(ReplaceById(s, original.id, edited), original.id, original) == s
  {
  }

  /**
   * On a consistent list, rolling back a failed add restores the list as it
   * was before the add: the provisional id was fresh.
   */
  lemma AddRollbackRestores(s: seq<Bookmark>, next: nat, t: Bookmark)
    requires Consistent(s, next) && t.id == TempId(next)
    ensures RemoveById([t] + s, t.id) == s
  {
    assert !HasId(s, t.id) by {
      forall i | 0 <= i < |s| ensures s[i].id != t.id {
        assert s[i].id != TempId(next);
      }
    }
    OptimisticAddRollback(s, t);
  }

  /**
   * On a list with distinct ids, the optimistic edit of the entry `find`
   * returns, followed by the rollback to that entry, restores the list.
   */
  lemma EditRollbackRestores(s: seq<Bookmark>, id: string, title: string, url: string)
    requires DistinctIds(s) && FindById(s, id).Some?
    ensures var original := FindById(s, id).value;
      ReplaceById(ReplaceById(s, id, original.(title := title, url := url)), id, original) == s
  {
    var original := FindById(s, id).value;
    var k :| FirstWithId(s, id, k) && s[k] == original;
    forall i | 0 <= i < |s| && s[i].id == original.id ensures s[i] == original {
      assert i == k;
    }
    EditRollback(s, original, original.(title := title, url := url));
  }
}
