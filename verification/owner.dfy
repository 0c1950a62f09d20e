/** The owner store: listing, lookup by id, creation, deletion, and the teas-by-owner view. */
module Owners {
  import opened Models
  import opened Rows
  import opened Tables
  import opened Teas
  import opened Wrappers

  /** The owners a row list holds, in the list's order. */
  function OwnersOf(rows: seq<(int, string)>): (r: seq<Owner>)
    ensures |r| == |rows|
    ensures forall i :: 0 <= i < |r| ==> r[i] == Owner(rows[i].0, rows[i].1)
  {
    seq(|rows|, i requires 0 <= i < |rows| => Owner(rows[i].0, rows[i].1))
  }

  /** `SELECT * FROM owner`: every owner, in ascending id order. */
  function GetAllOwners(s: Store): (r: seq<Owner>)
    ensures forall o :: o in r <==> 1 <= o.id <= s.ownerSeq && o.id in s.owners && s.owners[o.id] == o.name
  {
    var rows := Scan(s.owners, 1, s.ownerSeq);
    var r := OwnersOf(rows);
    assert forall o :: o in r <==> (o.id, o.name) in rows by {
      forall o: Owner | (o.id, o.name) in rows ensures o in r {
        var i :| 0 <= i < |rows| && rows[i] == (o.id, o.name);
        assert r[i] == o;
      }
    }
    r
  }

  /** The owners are listed in ascending id order. */
  lemma OwnersAscending(s: Store)
    ensures var r := GetAllOwners(s);
            forall i, j :: 0 <= i < j < |r| ==> r[i].id < r[j].id
  {
    ScanAscending(s.owners, 1, s.ownerSeq);
  }

  /** `SELECT name FROM owner WHERE id=$1` into the caller's record: the name is filled in when
      the id exists, and the error is "no rows" otherwise. */
  function GetOwner(s: Store, o: Owner): (r: (Outcome, Owner))
    ensures r.0.Pass? <==> o.id in s.owners
    ensures r.0.Pass? ==> r.1 == Owner(o.id, s.owners[o.id])
    ensures r.0.Fail? ==> r == (Fail(NoRows), o)
  {
    if o.id in s.owners then (Pass, o.(name := s.owners[o.id])) else (Fail(NoRows), o)
  }

  /** `INSERT INTO owner (name) VALUES ($1)`, then the id read back by name. */
  function CreateOwner(s: Store, o: Owner): (r: Reply<Owner>)
    ensures r.outcome.Pass? <==> !NameTaken(s.owners, o.name)
    ensures r.outcome.Fail? ==> r == Reply(Fail(UniqueFailed("owner.name")), o, s)
    ensures r.outcome.Pass? ==> r.value == Owner(s.ownerSeq + 1, o.name)
    ensures r.outcome.Pass? ==>
              r.store == s.(owners := s.owners[r.value.id := o.name], ownerSeq := r.value.id)
    ensures Inv(s) ==> Inv(r.store)
  {
    var (res, s1) := InsertOwner(s, o.name);
    if res.Fail? then Reply(res, o, s)
    else
      var rows := Scan(s1.owners, 1, s1.ownerSeq);
      assert (s1.ownerSeq, o.name) in rows;
      match FirstWhere(rows, n => n == o.name)
      case None => Reply(Fail(RowsClosed), o, s1)
      case Some(id) =>
        assert id == s1.ownerSeq;
        Reply(Pass, o.(id := id), s1)
  }

  /** Reads the owner's name into the record, closes the lookup's rows, then
      `DELETE FROM owner WHERE id = $1`. A missing id fails the scan; an owner who still holds a
      tea is kept by the foreign key. */
  function DeleteOwner(s: Store, o: Owner): (r: Reply<Owner>)
    ensures o.id !in s.owners ==> r == Reply(Fail(RowsClosed), o, s)
    ensures o.id in s.owners ==> r.value == Owner(o.id, s.owners[o.id])
    ensures o.id in s.owners ==> (r.outcome.Fail? <==> s.foreignKeys && OwnerInUse(s, o.id))
    ensures r.outcome.Fail? ==> r.store == s
    ensures o.id in s.owners && r.outcome.Fail? ==> r.outcome == Fail(ForeignKeyFailed)
    ensures r.outcome.Pass? ==> r.store == s.(owners := s.owners - {o.id})
    ensures Inv(s) ==> Inv(r.store)
  {
    if o.id !in s.owners then Reply(Fail(RowsClosed), o, s)
    else
      var named := o.(name := s.owners[o.id]);
      var (res, s1) := Tables.DeleteOwner(s, o.id);
      Reply(res, named, s1)
  }

  /** How a call against a bounded connection pool ends: it returns, or it waits for ever for a
      connection that it holds itself. */
  datatype Ending<T> = Returns(reply: T) | Waits

  /** The owner delete with the lookup's rows closed only when the call returns. When the id
      exists the rows still hold their connection while the `DELETE` asks for another, so with
      a pool of `maxOpenConns` connections (0 means no limit) it waits when the pool is full.
      Otherwise the `DELETE` runs on that other connection. Foreign-key enforcement is a
      setting of each connection, so `otherEnforces` says whether that one enforces it; the
      store keeps its own flag afterwards. */
  function DeleteOwnerHoldingRows(s: Store, o: Owner, maxOpenConns: nat, otherEnforces: bool)
    : (r: Ending<Reply<Owner>>)
    ensures r.Waits? <==> o.id in s.owners && maxOpenConns == 1
    ensures o.id !in s.owners ==> r == Returns(Reply(Fail(RowsClosed), o, s))
    ensures r.Returns? && o.id in s.owners ==>
              var d := DeleteOwner(s.(foreignKeys := otherEnforces), o);
              r.reply == Reply(d.outcome, d.value, d.store.(foreignKeys := s.foreignKeys))
  {
    if o.id !in s.owners then
      // reading past the last row closes the rows and frees their connection
      Returns(Reply(Fail(RowsClosed), o, s))
    else
      var held := 1;
      if maxOpenConns != 0 && held + 1 > maxOpenConns then Waits
      else
        var (res, s1) := Tables.DeleteOwner(s.(foreignKeys := otherEnforces), o.id);
        Returns(Reply(res, o.(name := s.owners[o.id]), s1.(foreignKeys := s.foreignKeys)))
  }

  // ---------------------------------------------------------------------------
  // Teas by owner

  /** The teas of `list` that owner `ownerId` holds, in the list's order. */
  function HeldBy(list: seq<Tea>, pairs: set<(int, int)>, ownerId: int): (r: seq<Tea>)
    ensures forall x :: x in r <==> x in list && (x.id, ownerId) in pairs
    decreases |list|
  {
    if |list| == 0 then []
    else
      var n := |list| - 1;
      SnocMembers(list);
      HeldBy(list[..n], pairs, ownerId) + (if (list[n].id, ownerId) in pairs then [list[n]] else [])
  }

  /** Keeping the held teas keeps the order of an ascending list. */
  lemma {:induction false} HeldByAscending(list: seq<Tea>, pairs: set<(int, int)>, ownerId: int)
    requires IdsAscending(list)
    ensures IdsAscending(HeldBy(list, pairs, ownerId))
    decreases |list|
  {
    if |list| > 0 {
      var n := |list| - 1;
      IdsAscendingFront(list);
      HeldByAscending(list[..n], pairs, ownerId);
      if (list[n].id, ownerId) in pairs {
        IdsAscendingSnoc(HeldBy(list[..n], pairs, ownerId), list[n]);
      }
    }
  }

  /** `SELECT tea.id, tea.name, types.id, types.name FROM teaOwners INNER JOIN tea ... INNER JOIN
      types ... WHERE teaOwners.ownerID = $1`: the teas the owner holds, each joined with its
      type, in ascending tea id order. */
  function TeasOfOwner(s: Store, o: Owner): (r: seq<Tea>)
    ensures forall x :: x in r <==>
              1 <= x.id <= s.teaSeq && JoinedTea(s, x.id) == Some(x) && (x.id, o.id) in s.pairs
  {
    HeldBy(GetAllTeas(s), s.pairs, o.id)
  }

  /** The teas of an owner are listed in ascending id order. */
  lemma OwnerTeasAscending(s: Store, o: Owner)
    ensures IdsAscending(TeasOfOwner(s, o))
  {
    TeasAscending(s);
    HeldByAscending(GetAllTeas(s), s.pairs, o.id);
  }

  /** Every owner, each with the teas they hold: one query for the owners, then one per owner. */
  method GetAllOwnersTeas(s: Store) returns (r: seq<OwnerWithTeas>)
    ensures |r| == |GetAllOwners(s)|
    ensures forall i :: 0 <= i < |r| ==> r[i].owner == GetAllOwners(s)[i]
    ensures forall i :: 0 <= i < |r| ==> r[i].teas == TeasOfOwner(s, r[i].owner)
  {
    var owners := GetAllOwners(s);
    r := seq(|owners|, j requires 0 <= j < |owners| => OwnerWithTeas(owners[j], []));
    var joined := GetAllTeas(s);
    var i := 0;
    while i < |r|
      invariant 0 <= i <= |r| == |owners|
      invariant forall j :: 0 <= j < |r| ==> r[j].owner == owners[j]
      invariant forall j :: 0 <= j < i ==> r[j].teas == TeasOfOwner(s, owners[j])
    {
      var teas := CollectHeld(joined, s.pairs, r[i].owner.id);
      r := r[i := r[i].(teas := teas)];
      i := i + 1;
    }
  }

  /** The inner loop of the view: one pass over the joined teas, keeping those the owner holds. */
  method CollectHeld(joined: seq<Tea>, pairs: set<(int, int)>, ownerId: int) returns (teas: seq<Tea>)
    ensures teas == HeldBy(joined, pairs, ownerId)
  {
    teas := [];
    var n := 0;
    while n < |joined|
      invariant 0 <= n <= |joined|
      invariant teas == HeldBy(joined[..n], pairs, ownerId)
    {
      var held := (joined[n].id, ownerId) in pairs;
      assert HeldBy(joined[..n + 1], pairs, ownerId) == teas + (if held then [joined[n]] else []) by {
        HeldByStep(joined, pairs, ownerId, n);
      }
      if held {
        teas := teas + [joined[n]];
      }
      n := n + 1;
    }
    assert joined[..|joined|] == joined;
  }

  /** One more tea of the list extends the kept teas by that tea, if the owner holds it. */
  lemma HeldByStep(list: seq<Tea>, pairs: set<(int, int)>, ownerId: int, n: nat)
    requires n < |list|
    ensures HeldBy(list[..n + 1], pairs, ownerId) ==
              HeldBy(list[..n], pairs, ownerId) + (if (list[n].id, ownerId) in pairs then [list[n]] else [])
  {
    assert list[..n + 1][..n] == list[..n];
  }

  // ---------------------------------------------------------------------------
  // Properties

  /** A created owner can be read back by the id the creation reported. */
  lemma CreateThenGet(s: Store, o: Owner)
    requires !NameTaken(s.owners, o.name)
    ensures var r := CreateOwner(s, o);
            r.outcome.Pass? && GetOwner(r.store, Owner(r.value.id, "")) == (Pass, Owner(r.value.id, o.name))
  {
  }

  /** Creating the same name twice: the second attempt violates UNIQUE and changes nothing. */
  lemma CreateTwiceConflicts(s: Store, o: Owner, o': Owner)
    requires CreateOwner(s, o).outcome.Pass? && o'.name == o.name
    ensures var s1 := CreateOwner(s, o).store;
            CreateOwner(s1, o') == Reply(Fail(UniqueFailed("owner.name")), o', s1)
  {
    var s1 := CreateOwner(s, o).store;
    assert s1.owners[s.ownerSeq + 1] == o.name;
  }

  /** In a consistent store a created owner is listed last, after every owner listed before. */
  lemma CreateThenList(s: Store, o: Owner)
    requires Inv(s) && !NameTaken(s.owners, o.name)
    ensures var r := CreateOwner(s, o);
            GetAllOwners(r.store) == GetAllOwners(s) + [r.value]
  {
    var r := CreateOwner(s, o);
    assert r.store.owners == s.owners[s.ownerSeq + 1 := o.name] && r.store.ownerSeq == s.ownerSeq + 1;
    ScanAppend(s.owners, 1, s.ownerSeq, o.name);
    OwnersOfSnoc(Scan(s.owners, 1, s.ownerSeq), (s.ownerSeq + 1, o.name));
  }

  lemma OwnersOfSnoc(rows: seq<(int, string)>, p: (int, string))
    ensures OwnersOf(rows + [p]) == OwnersOf(rows) + [Owner(p.0, p.1)]
  {
  }

  /** After a successful delete the owner is gone: looking them up reports no rows. */
  lemma DeleteThenGet(s: Store, o: Owner)
    requires DeleteOwner(s, o).outcome.Pass?
    ensures var s1 := DeleteOwner(s, o).store;
            GetOwner(s1, o) == (Fail(NoRows), o) && o.id !in s1.owners
  {
  }

  /** In a consistent store an owner who still holds a tea cannot be deleted, and the store is
      untouched. */
  lemma DeleteHolderRejected(s: Store, o: Owner, k: int)
    requires Inv(s) && (k, o.id) in s.pairs
    ensures DeleteOwner(s, o) == Reply(Fail(ForeignKeyFailed), Owner(o.id, s.owners[o.id]), s)
  {
  }

  /** In a consistent store every tea/owner pair shows up in the teas-by-owner view: the owner
      is listed, and the tea, with its type, is among that owner's teas. */
  lemma OwnersTeasCoverPairs(s: Store, p: (int, int))
    requires Inv(s) && p in s.pairs
    ensures var o := Owner(p.1, s.owners[p.1]);
            o in GetAllOwners(s) && JoinedTea(s, p.0).Some? && JoinedTea(s, p.0).value in TeasOfOwner(s, o)
  {
  }

  /** With one pooled connection, deleting an existing owner while the lookup's rows are still
      open never returns, whether or not the owner holds a tea; closing the rows first, the same
      call removes the owner. */
  lemma DeleteOwnerWaits(s: Store, o: Owner, otherEnforces: bool)
    requires o.id in s.owners && !OwnerInUse(s, o.id)
    ensures DeleteOwnerHoldingRows(s, o, 1, otherEnforces) == Waits
    ensures DeleteOwner(s, o).outcome == Pass && o.id !in DeleteOwner(s, o).store.owners
  {
  }

  /** With a larger pool the `DELETE` gets a second connection. When that connection does not
      enforce foreign keys, an owner who still holds a tea is deleted from a consistent store,
      and the pair is left naming no owner; closing the rows first, the same call is refused. */
  lemma DeleteOwnerDangles(s: Store, o: Owner, k: int, maxOpenConns: nat)
    requires Inv(s) && (k, o.id) in s.pairs && maxOpenConns != 1
    ensures var r := DeleteOwnerHoldingRows(s, o, maxOpenConns, false);
            && r.Returns? && r.reply.outcome == Pass
            && o.id !in r.reply.store.owners && (k, o.id) in r.reply.store.pairs
            && !PairsExist(r.reply.store)
    ensures DeleteOwner(s, o).outcome == Fail(ForeignKeyFailed)
  {
  }

  /** An empty owner table lists nothing. */
  lemma EmptyOwnersList(s: Store)
    requires s.owners == map[]
    ensures GetAllOwners(s) == []
  {
    ScanEmpty(s.owners, 1, s.ownerSeq);
  }
}
