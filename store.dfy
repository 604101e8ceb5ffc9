/** The `Entry` table as the views use it through the ORM: rows kept in the
    model's default order (newest `created_at` first), ids handed out by an
    auto-increment counter, the declared column lengths enforced on every
    write, and `on_delete=CASCADE` from the owning user. */
module EntryStore {
  import opened Wrappers
  import opened Calendar
  import opened JournalModels

  // ---------------------------------------------------------------------------
  // Row sequences
  // ---------------------------------------------------------------------------

  /** `ordering = ['-created_at']`: no row is newer than one listed before it. */
  predicate NewestFirst(rows: seq<Entry>) {
    forall i, j :: 0 <= i < j < |rows| ==> Instant(rows[j].createdAt) <= Instant(rows[i].createdAt)
  }

  predicate DistinctIds(rows: seq<Entry>) {
    forall i, j :: 0 <= i < j < |rows| ==> rows[i].id != rows[j].id
  }

  /** What the table keeps true: default order, distinct ids below the next
      one to be handed out (ids start at 1), and every row within the
      declared column lengths. */
  predicate ValidRows(rows: seq<Entry>, nextId: nat) {
    && NewestFirst(rows)
    && DistinctIds(rows)
    && 1 <= nextId
    && forall i :: 0 <= i < |rows| ==> 1 <= rows[i].id < nextId && FitsColumns(rows[i])
  }

  /** The rows satisfying `p`, in their order (`QuerySet.filter`). */
  function Where(rows: seq<Entry>, p: Entry -> bool): (r: seq<Entry>)
    ensures |r| <= |rows|
    ensures forall e :: e in r <==> e in rows && p(e)
  {
    if rows == [] then []
    else (if p(rows[0]) then [rows[0]] else []) + Where(rows[1..], p)
  }

  /** The filter condition `user=u`. */
  function OwnerIs(u: UserId): Entry -> bool {
    (e: Entry) => e.user == u
  }

  /** The condition a row must meet to survive deleting user `u`. */
  function OwnerIsNot(u: UserId): Entry -> bool {
    (e: Entry) => e.user != u
  }

  /** `Entry.objects.filter(user=u)`. */
  function OwnedBy(rows: seq<Entry>, u: UserId): seq<Entry> {
    Where(rows, OwnerIs(u))
  }

  /** A filter of a valid table is valid. */
  lemma WhereValid(rows: seq<Entry>, nextId: nat, p: Entry -> bool)
    requires ValidRows(rows, nextId)
    ensures ValidRows(Where(rows, p), nextId)
  {
    WhereNewestFirst(rows, p);
    WhereDistinct(rows, p);
    var r := Where(rows, p);
    forall i | 0 <= i < |r|
      ensures 1 <= r[i].id < nextId && FitsColumns(r[i])
    {
      assert r[i] in rows;
    }
  }

  /** A filtered query keeps the default order. */
  lemma {:induction false} WhereNewestFirst(rows: seq<Entry>, p: Entry -> bool)
    requires NewestFirst(rows)
    ensures NewestFirst(Where(rows, p))
  {
    if rows != [] {
      var tail := rows[1..];
      WhereNewestFirst(tail, p);
      var rest := Where(tail, p);
      forall i | 0 <= i < |tail|
        ensures Instant(tail[i].createdAt) <= Instant(rows[0].createdAt)
      {
        assert tail[i] == rows[i + 1];
      }
      WhereBelow(tail, p, Instant(rows[0].createdAt));
      if p(rows[0]) {
        assert Where(rows, p) == [rows[0]] + rest;
        PrependNewestFirst(rows[0], rest);
      } else {
        assert Where(rows, p) == rest;
      }
    }
  }

  /** Filtering keeps every row no newer than a bound. */
  lemma {:induction false} WhereBelow(rows: seq<Entry>, p: Entry -> bool, t: int)
    requires forall i :: 0 <= i < |rows| ==> Instant(rows[i].createdAt) <= t
    ensures forall i :: 0 <= i < |Where(rows, p)| ==> Instant(Where(rows, p)[i].createdAt) <= t
  {
    if rows != [] {
      var tail := rows[1..];
      forall i | 0 <= i < |tail|
        ensures Instant(tail[i].createdAt) <= t
      {
        assert tail[i] == rows[i + 1];
      }
      WhereBelow(tail, p, t);
      var rest := Where(tail, p);
      if p(rows[0]) {
        var r := [rows[0]] + rest;
        assert Where(rows, p) == r;
        forall i | 0 <= i < |r|
          ensures Instant(r[i].createdAt) <= t
        {
          if i > 0 {
            assert r[i] == rest[i - 1];
          }
        }
      } else {
        assert Where(rows, p) == rest;
      }
    }
  }

  /** A row no older than any of a newest-first list can go in front of it. */
  lemma PrependNewestFirst(e: Entry, rows: seq<Entry>)
    requires NewestFirst(rows)
    requires forall i :: 0 <= i < |rows| ==> Instant(rows[i].createdAt) <= Instant(e.createdAt)
    ensures NewestFirst([e] + rows)
  {
    var r := [e] + rows;
    forall i, j | 0 <= i < j < |r|
      ensures Instant(r[j].createdAt) <= Instant(r[i].createdAt)
    {
      assert r[j] == rows[j - 1];
      if i > 0 {
        assert r[i] == rows[i - 1];
      }
    }
  }

  /** A filtered query keeps ids distinct. */
  lemma {:induction false} WhereDistinct(rows: seq<Entry>, p: Entry -> bool)
    requires DistinctIds(rows)
    ensures DistinctIds(Where(rows, p))
  {
    if rows != [] {
      WhereDistinct(rows[1..], p);
      var rest := Where(rows[1..], p);
      forall e | e in rest
        ensures e.id != rows[0].id
      {
        var k :| 0 <= k < |rows[1..]| && rows[1..][k] == e;
        assert rows[k + 1] == e;
      }
    }
  }

  /** Filtering a concatenation filters its parts. */
  lemma {:induction false} WhereAppend(a: seq<Entry>, b: seq<Entry>, p: Entry -> bool)
    ensures Where(a + b, p) == Where(a, p) + Where(b, p)
  {
    if a != [] {
      assert (a + b)[1..] == a[1..] + b;
      WhereAppend(a[1..], b, p);
    } else {
      assert a + b == b;
    }
  }

  /** Where the default order puts a row created at `t`: before the first
      row that is not newer. */
  function InsertPosition(rows: seq<Entry>, t: DateTime): (k: nat)
    ensures k <= |rows|
    ensures forall i :: 0 <= i < k ==> Instant(t) < Instant(rows[i].createdAt)
    ensures k < |rows| ==> Instant(rows[k].createdAt) <= Instant(t)
  {
    if rows == [] || Instant(rows[0].createdAt) <= Instant(t) then 0
    else 1 + InsertPosition(rows[1..], t)
  }

  /** The rows after inserting `e` where the default order puts it. */
  function InsertNewest(rows: seq<Entry>, e: Entry): seq<Entry> {
    var k := InsertPosition(rows, e.createdAt);
    rows[..k] + [e] + rows[k..]
  }

  /** The positions of the rows after an insertion. */
  lemma InsertNewestAt(rows: seq<Entry>, e: Entry)
    ensures var k := InsertPosition(rows, e.createdAt);
      var r := InsertNewest(rows, e);
      && |r| == |rows| + 1 && r[k] == e
      && (forall i :: 0 <= i < k ==> r[i] == rows[i])
      && (forall i :: k < i < |r| ==> r[i] == rows[i - 1])
  {
    var k := InsertPosition(rows, e.createdAt);
    var before, after := rows[..k], rows[k..];
    var r := before + [e] + after;
    assert InsertNewest(rows, e) == r;
    forall i | 0 <= i < k
      ensures r[i] == rows[i]
    {
      assert r[i] == before[i];
    }
    forall i | k < i < |r|
      ensures r[i] == rows[i - 1]
    {
      assert r[i] == after[i - k - 1];
    }
  }

  /** Inserting keeps the default order. */
  lemma InsertNewestOrder(rows: seq<Entry>, e: Entry)
    requires NewestFirst(rows)
    ensures NewestFirst(InsertNewest(rows, e))
  {
    var k := InsertPosition(rows, e.createdAt);
    var r := InsertNewest(rows, e);
    InsertNewestAt(rows, e);
    forall i, j | 0 <= i < j < |r|
      ensures Instant(r[j].createdAt) <= Instant(r[i].createdAt)
    {
      if i < k && j == k {
      } else if i == k && j > k {
        assert r[j] == rows[j - 1];
      } else if j < k {
        assert r[i] == rows[i] && r[j] == rows[j];
      } else if i < k {
        assert r[i] == rows[i] && r[j] == rows[j - 1];
      } else {
        assert r[i] == rows[i - 1] && r[j] == rows[j - 1];
      }
    }
  }

  /** Inserting adds exactly the new row. */
  lemma InsertNewestContents(rows: seq<Entry>, e: Entry)
    ensures multiset(InsertNewest(rows, e)) == multiset(rows) + multiset{e}
  {
    var k := InsertPosition(rows, e.createdAt);
    assert rows == rows[..k] + rows[k..];
  }

  /** Inserting a row of one owner leaves every other owner's rows alone. */
  lemma InsertNewestOthers(rows: seq<Entry>, e: Entry, u: UserId)
    requires u != e.user
    ensures OwnedBy(InsertNewest(rows, e), u) == OwnedBy(rows, u)
  {
    var k := InsertPosition(rows, e.createdAt);
    var before, after, p := rows[..k], rows[k..], OwnerIs(u);
    assert rows == before + after;
    assert Where([e], p) == [] by {
      assert [e][1..] == [];
    }
    WhereAppend(before + [e], after, p);
    WhereAppend(before, [e], p);
    WhereAppend(before, after, p);
  }

  /** The row with the given id and owner (`Entry.objects.get(id=, user=)`). */
  function Find(rows: seq<Entry>, id: int, user: UserId): (r: Option<Entry>)
    ensures r.Some? ==> r.value in rows && r.value.id == id && r.value.user == user
    ensures r.None? ==> forall e :: e in rows ==> !(e.id == id && e.user == user)
  {
    if rows == [] then None
    else if rows[0].id == id && rows[0].user == user then Some(rows[0])
    else Find(rows[1..], id, user)
  }

  /** The rows with the row whose id is `e.id` replaced by `e`. */
  function ReplaceRow(rows: seq<Entry>, e: Entry): (r: seq<Entry>)
    ensures |r| == |rows|
    ensures forall i :: 0 <= i < |rows| ==> r[i] == (if rows[i].id == e.id then e else rows[i])
  {
    seq(|rows|, i requires 0 <= i < |rows| => if rows[i].id == e.id then e else rows[i])
  }

  /** Replacing a row by one with the same id, owner and creation time keeps
      the table valid. */
  lemma ReplaceRowValid(rows: seq<Entry>, nextId: nat, before: Entry, e: Entry)
    requires ValidRows(rows, nextId) && before in rows
    requires e.id == before.id && e.user == before.user && e.createdAt == before.createdAt
    requires FitsColumns(e)
    ensures ValidRows(ReplaceRow(rows, e), nextId)
    ensures forall i :: 0 <= i < |rows| && rows[i].id == e.id ==> rows[i] == before
  {
    forall i | 0 <= i < |rows| && rows[i].id == e.id
      ensures rows[i] == before
    {
      var k :| 0 <= k < |rows| && rows[k] == before;
    }
  }

  /** Replacing a row of one owner leaves every other owner's rows alone. */
  lemma {:induction false} ReplaceRowOthers(rows: seq<Entry>, e: Entry, u: UserId)
    requires u != e.user
    requires forall i :: 0 <= i < |rows| && rows[i].id == e.id ==> rows[i].user == e.user
    ensures OwnedBy(ReplaceRow(rows, e), u) == OwnedBy(rows, u)
  {
    if rows != [] {
      assert ReplaceRow(rows, e)[1..] == ReplaceRow(rows[1..], e);
      ReplaceRowOthers(rows[1..], e, u);
    }
  }

  // ---------------------------------------------------------------------------
  // The table
  // ---------------------------------------------------------------------------

  /** The result of writing a row: the row as stored, or the column whose
      declared length the values exceed (the database refuses the write). */
  datatype Write = Written(entry: Entry) | TooLong(column: string)

  class EntryTable {
    var rows: seq<Entry>
    var nextId: nat

    predicate Valid()
      reads this
    {
      ValidRows(rows, nextId)
    }

    constructor ()
      ensures Valid() && rows == [] && nextId == 1
    {
      rows := [];
      nextId := 1;
    }

    /** `Entry.objects.get(id=id, user=user)`; None is `DoesNotExist`. */
    function Get(id: int, user: UserId): (r: Option<Entry>)
      reads this
      ensures r.Some? ==> r.value in rows && r.value.id == id && r.value.user == user
      ensures r.None? ==> forall e :: e in rows ==> !(e.id == id && e.user == user)
    {
      Find(rows, id, user)
    }

    /** `Entry.objects.filter(user=user)`: the owner's rows, newest first. */
    function Filter(user: UserId): (r: seq<Entry>)
      reads this
      requires Valid()
      ensures NewestFirst(r) && DistinctIds(r)
      ensures forall e :: e in r <==> e in rows && e.user == user
    {
      WhereNewestFirst(rows, OwnerIs(user));
      WhereDistinct(rows, OwnerIs(user));
      OwnedBy(rows, user)
    }

    /** `Entry.objects.create(...)`: `created_at` and `updated_at` are both
        `now`, the id is the next one, the row goes where the default order
        puts it. Nothing changes when a value is too long. */
    method Create(user: UserId, title: string, content: string, durationStr: string,
                  ip: Option<string>, now: DateTime) returns (w: Write)
      requires Valid()
      modifies this
      ensures Valid()
      ensures LengthViolation(title, durationStr).Some? ==>
                w == TooLong(LengthViolation(title, durationStr).value)
                && rows == old(rows) && nextId == old(nextId)
      ensures LengthViolation(title, durationStr).None? ==>
                w == Written(Entry(old(nextId), user, title, content, now, now, StoredIp(ip), durationStr))
                && rows == InsertNewest(old(rows), w.entry) && nextId == old(nextId) + 1
    {
      var violation := LengthViolation(title, durationStr);
      if violation.Some? {
        return TooLong(violation.value);
      }
      var e := Entry(nextId, user, title, content, now, now, StoredIp(ip), durationStr);
      InsertNewestOrder(rows, e);
      InsertIsValid(rows, nextId, e);
      rows := InsertNewest(rows, e);
      nextId := nextId + 1;
      w := Written(e);
    }

    /** `entry.save()` after the view has set title, content, duration and
        address: `updated_at` becomes `now`, `created_at` and the owner are
        kept. Nothing changes when a value is too long. */
    method Update(row: Entry, title: string, content: string, durationStr: string,
                  ip: Option<string>, now: DateTime) returns (w: Write)
      requires Valid() && row in rows
      modifies this
      ensures Valid()
      ensures nextId == old(nextId)
      ensures LengthViolation(title, durationStr).Some? ==>
                w == TooLong(LengthViolation(title, durationStr).value) && rows == old(rows)
      ensures LengthViolation(title, durationStr).None? ==>
                w == Written(row.(title := title, content := content, durationStr := durationStr,
                                  ipAddress := StoredIp(ip), updatedAt := now))
                && rows == ReplaceRow(old(rows), w.entry)
    {
      var violation := LengthViolation(title, durationStr);
      if violation.Some? {
        return TooLong(violation.value);
      }
      var e := row.(title := title, content := content, durationStr := durationStr,
                    ipAddress := StoredIp(ip), updatedAt := now);
      ReplaceRowValid(rows, nextId, row, e);
      rows := ReplaceRow(rows, e);
      w := Written(e);
    }

    /** Deleting a user deletes that user's entries (`on_delete=CASCADE`). */
    method DeleteUser(user: UserId)
      requires Valid()
      modifies this
      ensures Valid()
      ensures rows == Where(old(rows), OwnerIsNot(user)) && nextId == old(nextId)
      ensures OwnedBy(rows, user) == []
    {
      WhereValid(rows, nextId, OwnerIsNot(user));
      rows := Where(rows, OwnerIsNot(user));
      NoneOwned(rows, user);
    }
  }

  /** A fresh row with the next id and fitting columns keeps the table valid. */
  lemma InsertIsValid(rows: seq<Entry>, nextId: nat, e: Entry)
    requires ValidRows(rows, nextId) && e.id == nextId && FitsColumns(e)
    ensures ValidRows(InsertNewest(rows, e), nextId + 1)
  {
    InsertNewestOrder(rows, e);
    InsertNewestAt(rows, e);
    var r := InsertNewest(rows, e);
    var k := InsertPosition(rows, e.createdAt);
    forall i | 0 <= i < |r|
      ensures 1 <= r[i].id < nextId + 1 && FitsColumns(r[i])
    {
      if i < k {
        assert r[i] == rows[i];
      } else if i > k {
        assert r[i] == rows[i - 1];
      }
    }
    forall i, j | 0 <= i < j < |r|
      ensures r[i].id != r[j].id
    {
      InsertDistinctPair(rows, nextId, e, i, j);
    }
  }

  lemma InsertDistinctPair(rows: seq<Entry>, nextId: nat, e: Entry, i: nat, j: nat)
    requires ValidRows(rows, nextId) && e.id == nextId
    requires i < j < |rows| + 1
    ensures InsertNewest(rows, e)[i].id != InsertNewest(rows, e)[j].id
  {
    InsertNewestAt(rows, e);
    var k := InsertPosition(rows, e.createdAt);
    var r := InsertNewest(rows, e);
    if j < k {
      assert r[i] == rows[i] && r[j] == rows[j];
    } else if j == k {
      assert r[i] == rows[i];
    } else if i < k {
      assert r[i] == rows[i] && r[j] == rows[j - 1];
    } else if i == k {
      assert r[j] == rows[j - 1];
    } else {
      assert r[i] == rows[i - 1] && r[j] == rows[j - 1];
    }
  }

  lemma {:induction false} NoneOwned(kept: seq<Entry>, user: UserId)
    requires forall e :: e in kept ==> e.user != user
    ensures OwnedBy(kept, user) == []
  {
    if kept != [] {
      NoneOwned(kept[1..], user);
      assert kept[0] in kept;
    }
  }
}
