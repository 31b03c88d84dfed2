/**
 * The reading list: an ordered list of book ids kept under the storage key
 * 'dq_readlist', the badge that shows its length, and the page that lists
 * the books it names.
 */
module ReadingList {
  import opened Wrappers
  import opened Catalog

  /**
   * What the storage key holds: nothing (or the empty string, which reads the
   * same), text that does not parse, or a list of ids.
   */
  datatype Stored = Absent | Corrupt | Saved(ids: seq<int>)

  /** The two results of adding a book; AlreadyInList is the "already in your list" notice. */
  datatype AddOutcome = Added | AlreadyInList

  // ---------------------------------------------------------------------
  // List operations
  // ---------------------------------------------------------------------

  /** list.filter(x => x !== id): every occurrence of id dropped, the rest kept in order. */
  function RemoveAll(s: seq<int>, id: int): (r: seq<int>)
    ensures id !in r
    ensures forall x :: x != id ==> multiset(r)[x] == multiset(s)[x]
    ensures IsSubsequence(r, s)
  {
    if s == [] then []
    else
      var rest := RemoveAll(s[1..], id);
      assert s == [s[0]] + s[1..];
      if s[0] == id then rest else [s[0]] + rest
  }

  /** Removing an id that is not in the list changes nothing. */
  lemma {:induction false} RemoveAbsent(s: seq<int>, id: int)
    requires id !in s
    ensures RemoveAll(s, id) == s
  {
    if s != [] {
      RemoveAbsent(s[1..], id);
      assert s == [s[0]] + s[1..];
    }
  }

  /** Removing twice is removing once. */
  lemma RemoveIdempotent(s: seq<int>, id: int)
    ensures RemoveAll(RemoveAll(s, id), id) == RemoveAll(s, id)
  {
    RemoveAbsent(RemoveAll(s, id), id);
  }

  /** Removing from a duplicate-free list leaves it duplicate-free. */
  lemma {:induction false} RemoveKeepsNoDuplicates(s: seq<int>, id: int)
    requires NoDuplicates(s)
    ensures NoDuplicates(RemoveAll(s, id))
  {
    if s != [] {
      var rest := RemoveAll(s[1..], id);
      RemoveKeepsNoDuplicates(s[1..], id);
      if s[0] != id {
        assert s[0] !in s[1..];
        assert s[0] !in rest by {
          assert multiset(s[1..])[s[0]] == 0;
        }
      }
    }
  }

  /**
   * The list after addToReadingList: unchanged when the id is already there,
   * otherwise the id appended at the end. Either way the id is in it.
   */
  function AddId(s: seq<int>, id: int): (r: seq<int>)
    ensures id in r
    ensures r == s <==> id in s
    ensures r != s ==> r == s + [id]
  {
    if id in s then s else s + [id]
  }

  /** In a duplicate-free list an element occurs exactly once. */
  lemma {:induction false} OccursOnce(s: seq<int>, x: int)
    requires NoDuplicates(s) && x in s
    ensures multiset(s)[x] == 1
  {
    assert s == [s[0]] + s[1..];
    if s[0] == x {
      assert x !in s[1..];
    } else {
      OccursOnce(s[1..], x);
    }
  }

  /**
   * Adding keeps a duplicate-free list duplicate-free, and afterwards the id
   * is in the list exactly once, however many times it was added.
   */
  lemma AddOnce(s: seq<int>, id: int)
    requires NoDuplicates(s)
    ensures NoDuplicates(AddId(s, id))
    ensures multiset(AddId(s, id))[id] == 1
    ensures AddId(AddId(s, id), id) == AddId(s, id)
  {
    OccursOnce(AddId(s, id), id);
  }

  // ---------------------------------------------------------------------
  // Rendering: ids that name no catalog book are skipped
  // ---------------------------------------------------------------------

  /** Every id of the list names a catalog book. */
  predicate AllFound(catalog: seq<Book>, ids: seq<int>) {
    forall k :: 0 <= k < |ids| ==> Find(catalog, ids[k]).Some?
  }

  /** The books the list page shows for the ids, in list order; dangling ids are skipped. */
  function Resolve(catalog: seq<Book>, ids: seq<int>): (r: seq<Book>)
    ensures |r| <= |ids|
    ensures forall b :: b in r ==> b in catalog && b.id in ids
    ensures AllFound(catalog, ids) ==> |r| == |ids| && forall k :: 0 <= k < |ids| ==> r[k].id == ids[k]
  {
    if ids == [] then []
    else
      var rest := Resolve(catalog, ids[1..]);
      var found := Find(catalog, ids[0]);
      var r := if found.Some? then [found.value] + rest else rest;
      assert AllFound(catalog, ids) ==> |r| == |ids| && forall k :: 0 <= k < |ids| ==> r[k].id == ids[k] by {
        if AllFound(catalog, ids) {
          AllFoundTail(catalog, ids);
          HeadThenIds(found.value, rest, ids);
        }
      }
      r
  }

  /** When every id of a list names a book, so does every id of its tail. */
  lemma AllFoundTail(catalog: seq<Book>, ids: seq<int>)
    requires ids != [] && AllFound(catalog, ids)
    ensures Find(catalog, ids[0]).Some? && AllFound(catalog, ids[1..])
  {
    forall k | 0 <= k < |ids[1..]| ensures Find(catalog, ids[1..][k]).Some? {
      assert ids[1..][k] == ids[k + 1];
    }
  }

  /** A book with the first id in front of books with the remaining ids has the ids pointwise. */
  lemma HeadThenIds(b: Book, rest: seq<Book>, ids: seq<int>)
    requires ids != [] && b.id == ids[0]
    requires |rest| == |ids| - 1 && forall k :: 0 <= k < |rest| ==> rest[k].id == ids[k + 1]
    ensures |[b] + rest| == |ids| && forall k :: 0 <= k < |ids| ==> ([b] + rest)[k].id == ids[k]
  {
  }

  /** Resolving a suffix of the list: the entry for its first id, then the rest. */
  lemma ResolveStep(catalog: seq<Book>, ids: seq<int>, i: nat)
    requires i < |ids|
    ensures Resolve(catalog, ids[i..]) ==
      (if Find(catalog, ids[i]).Some? then [Find(catalog, ids[i]).value] else []) + Resolve(catalog, ids[i + 1..])
  {
    assert ids[i..][0] == ids[i] && ids[i..][1..] == ids[i + 1..];
  }

  /** One pass of the rendering loop: the book of the next id, if any, joins the shown books. */
  lemma RenderStep(catalog: seq<Book>, list: seq<int>, i: nat, shown: seq<Book>)
    requires i < |list| && Resolve(catalog, list) == shown + Resolve(catalog, list[i..])
    ensures var book := Find(catalog, list[i]);
      Resolve(catalog, list) == (if book.Some? then shown + [book.value] else shown) + Resolve(catalog, list[i + 1..])
  {
    var book, rest := Find(catalog, list[i]), Resolve(catalog, list[i + 1..]);
    ResolveStep(catalog, list, i);
    if book.Some? {
      assert shown + ([book.value] + rest) == shown + [book.value] + rest;
    }
  }

  /** In a catalog with unique ids, a book is shown exactly when its id is in the list. */
  lemma {:induction false} ResolveShows(catalog: seq<Book>, ids: seq<int>, k: nat)
    requires UniqueIds(catalog) && k < |catalog|
    ensures catalog[k] in Resolve(catalog, ids) <==> catalog[k].id in ids
  {
    if ids != [] {
      var b, found, rest := catalog[k], Find(catalog, ids[0]), Resolve(catalog, ids[1..]);
      ResolveShows(catalog, ids[1..], k);
      FindOwnId(catalog, k);
      ShownAtHead(b, found, rest, Resolve(catalog, ids), ids);
    }
  }

  /** One step of ResolveShows: the head id shows b exactly when it is b's id. */
  lemma ShownAtHead(b: Book, found: Option<Book>, rest: seq<Book>, r: seq<Book>, ids: seq<int>)
    requires ids != [] && r == (if found.Some? then [found.value] + rest else rest)
    requires found.Some? && found.value == b <==> b.id == ids[0]
    requires b in rest <==> b.id in ids[1..]
    ensures b in r <==> b.id in ids
  {
    assert b.id in ids <==> b.id == ids[0] || b.id in ids[1..] by {
      assert ids == [ids[0]] + ids[1..];
    }
  }

  /**
   * Dangling ids are skipped, never pruned: dropping an id that names no book
   * leaves the shown books as they were.
   */
  lemma {:induction false} PruneDangling(catalog: seq<Book>, ids: seq<int>, id: int)
    requires Find(catalog, id).None?
    ensures Resolve(catalog, RemoveAll(ids, id)) == Resolve(catalog, ids)
  {
    if ids != [] {
      PruneDangling(catalog, ids[1..], id);
      var rest := RemoveAll(ids[1..], id);
      if ids[0] != id {
        assert RemoveAll(ids, id) == [ids[0]] + rest;
        assert ([ids[0]] + rest)[1..] == rest;
      }
    }
  }

  // ---------------------------------------------------------------------
  // The store behind the storage key
  // ---------------------------------------------------------------------

  class Store {
    /** The value under 'dq_readlist'. */
    var slot: Stored
    /** The '.reading-badge' text, or None on a page without a badge. */
    var badge: Option<int>

    /** getReadingList's view of the slot: absent or unparsable reads as empty. */
    function Ids(): seq<int>
      reads this
    {
      match slot
      case Saved(ids) => ids
      case _ => []
    }

    /** The badge, where there is one, shows the length of the list. */
    predicate Valid()
      reads this
    {
      badge.Some? ==> badge.value == |Ids()|
    }

    /** Page load: the stored value as found, and the badge refreshed (DOMContentLoaded). */
    constructor (initial: Stored, badgeOnPage: bool)
      ensures slot == initial && badge.Some? == badgeOnPage
      ensures Valid()
    {
      slot := initial;
      badge := None;
      new;
      if badgeOnPage {
        var ids := Get();
        badge := Some(|ids|);
      }
    }

    /** getReadingList: the stored ids, or the empty list when none are stored or they cannot be read. */
    method Get() returns (ids: seq<int>)
      ensures slot.Saved? ==> ids == slot.ids
      ensures slot.Absent? || slot.Corrupt? ==> ids == []
    {
      match slot
      case Saved(s) => ids := s;
      case _ => ids := [];
    }

    /** updateReadingListBadge: a badge, where present, shows the current list length. */
    method UpdateBadge()
      modifies this`badge
      ensures badge.Some? == old(badge).Some?
      ensures Valid()
    {
      if badge.Some? {
        var ids := Get();
        badge := Some(|ids|);
      }
    }

    /** setReadingList: the list is stored (replacing whatever was there) and the badge refreshed. */
    method Set(list: seq<int>)
      modifies this
      ensures slot == Saved(list) && Ids() == list
      ensures badge.Some? == old(badge).Some?
      ensures Valid()
    {
      slot := Saved(list);
      UpdateBadge();
    }

    /**
     * addToReadingList: an id already in the list is reported and nothing is
     * written; otherwise the id is appended and the list stored. A list that
     * could not be read counts as empty and is overwritten.
     */
    method Add(id: int) returns (outcome: AddOutcome)
      requires Valid()
      modifies this
      ensures outcome == AlreadyInList <==> id in old(Ids())
      ensures outcome == AlreadyInList ==> slot == old(slot) && badge == old(badge)
      ensures outcome == Added ==> slot == Saved(old(Ids()) + [id])
      ensures Ids() == AddId(old(Ids()), id)
      ensures NoDuplicates(old(Ids())) ==> NoDuplicates(Ids())
      ensures badge.Some? == old(badge).Some?
      ensures Valid()
    {
      var list := Get();
      if id in list {
        return AlreadyInList;
      }
      list := list + [id];
      Set(list);
      outcome := Added;
      assert NoDuplicates(old(Ids())) ==> NoDuplicates(Ids()) by {
        if NoDuplicates(old(Ids())) {
          AddOnce(old(Ids()), id);
        }
      }
    }

    /** removeFromReadingList: every occurrence of the id is dropped and the list is stored, present or not. */
    method Remove(id: int)
      modifies this
      ensures slot == Saved(RemoveAll(old(Ids()), id))
      ensures id !in Ids()
      ensures NoDuplicates(old(Ids())) ==> NoDuplicates(Ids())
      ensures badge.Some? == old(badge).Some?
      ensures Valid()
    {
      var list := Get();
      Set(RemoveAll(list, id));
      assert NoDuplicates(old(Ids())) ==> NoDuplicates(Ids()) by {
        if NoDuplicates(old(Ids())) {
          RemoveKeepsNoDuplicates(old(Ids()), id);
        }
      }
    }

    /**
     * renderReadingList: the empty-list notice when the list is empty,
     * otherwise one entry per id that names a catalog book, in list order.
     */
    method Render(catalog: seq<Book>) returns (emptyNotice: bool, shown: seq<Book>)
      ensures emptyNotice <==> Ids() == []
      ensures shown == Resolve(catalog, Ids())
    {
      var list := Get();
      shown := [];
      if |list| == 0 {
        return true, shown;
      }
      emptyNotice := false;
      var i := 0;
      while i < |list|
        invariant 0 <= i <= |list|
        invariant Resolve(catalog, list) == shown + Resolve(catalog, list[i..])
      {
        var book := Find(catalog, list[i]);
        RenderStep(catalog, list, i, shown);
        if book.Some? {
          shown := shown + [book.value];
        }
        i := i + 1;
      }
      assert list[i..] == [];
    }
  }

  /**
   * A page session: adding a book twice leaves it in the list once, the badge
   * follows the list, and removing it empties the list again.
   */
  method AddTwiceThenRemove(initial: Stored, id: int)
  {
    var store := new Store(initial, true);
    var first := store.Add(id);
    var second := store.Add(id);
    assert second == AlreadyInList;
    var after := store.Get();
    assert id in after && store.badge == Some(|after|);
    store.Remove(id);
    var removed := store.Get();
    assert id !in removed;
  }
}
