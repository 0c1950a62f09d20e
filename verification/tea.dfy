/** The tea store: the teas joined with their types, lookup, creation and deletion. */
module Teas {
  import opened Models
  import opened Rows
  import opened Tables
  import opened Wrappers

  /** The tea with row id `id` joined with its type, as `tea INNER JOIN types` yields it:
      nothing when there is no such tea or its type row is missing. */
  function JoinedTea(s: Store, id: int): Option<Tea> {
    if id in s.teas && s.teas[id].teaType in s.types then
      Some(Tea(id, s.teas[id].name, TeaType(s.teas[id].teaType, s.types[s.teas[id].teaType])))
    else None
  }

  /** The inner join of tea rows with the types table, in the rows' order. */
  function Joined(s: Store, rows: seq<(int, TeaRow)>): (r: seq<Tea>)
    ensures forall x :: x in r <==>
              (x.id, TeaRow(x.name, x.teaType.id)) in rows && x.teaType.id in s.types
              && s.types[x.teaType.id] == x.teaType.name
    decreases |rows|
  {
    if |rows| == 0 then []
    else
      var n := |rows| - 1;
      SnocMembers(rows);
      var tt := rows[n].1.teaType;
      Joined(s, rows[..n]) + (if tt in s.types then [Tea(rows[n].0, rows[n].1.name, TeaType(tt, s.types[tt]))] else [])
  }

  /** The join keeps the order of ascending rows. */
  lemma {:induction false} JoinedAscending(s: Store, rows: seq<(int, TeaRow)>)
    requires Ascending(rows)
    ensures IdsAscending(Joined(s, rows))
    decreases |rows|
  {
    if |rows| > 0 {
      var n := |rows| - 1;
      AscendingFront(rows);
      JoinedAscending(s, rows[..n]);
      var tt := rows[n].1.teaType;
      if tt in s.types {
        IdsAscendingSnoc(Joined(s, rows[..n]), Tea(rows[n].0, rows[n].1.name, TeaType(tt, s.types[tt])));
      }
    }
  }

  /** `SELECT tea.id, tea.name, types.id, types.name FROM tea INNER JOIN types ...`: every tea
      whose type row exists, with that type, in ascending id order. */
  function GetAllTeas(s: Store): (r: seq<Tea>)
    ensures forall x :: x in r <==> 1 <= x.id <= s.teaSeq && JoinedTea(s, x.id) == Some(x)
  {
    Joined(s, Scan(s.teas, 1, s.teaSeq))
  }

  /** The teas are listed in ascending id order. */
  lemma TeasAscending(s: Store)
    ensures IdsAscending(GetAllTeas(s))
  {
    ScanAscending(s.teas, 1, s.teaSeq);
    JoinedAscending(s, Scan(s.teas, 1, s.teaSeq));
  }

  /** The first tea of `list` whose type id is `typeId`. */
  function FirstOfType(list: seq<Tea>, typeId: int): (r: Option<Tea>)
    ensures r.Some? ==> r.value in list && r.value.teaType.id == typeId
    ensures r.None? ==> forall x :: x in list ==> x.teaType.id != typeId
    decreases |list|
  {
    if |list| == 0 then None
    else if list[0].teaType.id == typeId then Some(list[0])
    else FirstOfType(list[1..], typeId)
  }

  /** The lookup as written: the query filters on `tea.teaType` with the id the caller
      supplied, so it reads the first tea whose TYPE id equals that id, keeps the caller's id,
      and fills name and type from that tea. */
  function GetTea(s: Store, t: Tea): (r: (Outcome, Tea))
    ensures r.1.id == t.id
    ensures r.0.Pass? <==> exists x :: x in GetAllTeas(s) && x.teaType.id == t.id
    ensures r.0.Pass? ==> exists x :: x in GetAllTeas(s) && x.teaType.id == t.id && r.1 == x.(id := t.id)
    ensures r.0.Fail? ==> r == (Fail(NoRows), t)
  {
    match FirstOfType(GetAllTeas(s), t.id)
    case None => (Fail(NoRows), t)
    case Some(x) => (Pass, Tea(t.id, x.name, x.teaType))
  }

  /** The lookup as intended: the tea whose own id is the supplied one, joined with its type. */
  function GetTeaById(s: Store, t: Tea): (r: (Outcome, Tea))
    ensures r.0.Pass? <==> t.id in s.teas && s.teas[t.id].teaType in s.types
    ensures r.0.Pass? ==> r.1.id == t.id && r.1.name == s.teas[t.id].name
                          && r.1.teaType == TeaType(s.teas[t.id].teaType, s.types[s.teas[t.id].teaType])
    ensures r.0.Fail? ==> r == (Fail(NoRows), t)
  {
    match JoinedTea(s, t.id)
    case None => (Fail(NoRows), t)
    case Some(x) => (Pass, x)
  }

  const TypeMissing := "Tea type does not exist or is missing"
  const IdMissing := "Tea ID not found after insert"

  /** Looks the type up by id (filling in its name), inserts the tea, and reads the new id back
      by name. A missing type is reported before anything is written and leaves the record as
      given; a taken name is the insert's UNIQUE error, with the type name already filled in. */
  function CreateTea(s: Store, t: Tea): (r: Reply<Tea>)
    ensures t.teaType.id !in s.types ==> r == Reply(Fail(Message(TypeMissing)), t, s)
    ensures t.teaType.id in s.types ==>
              r.value.name == t.name && r.value.teaType == TeaType(t.teaType.id, s.types[t.teaType.id])
    ensures t.teaType.id in s.types ==> (r.outcome.Pass? <==> !TeaNameTaken(s, t.name))
    ensures t.teaType.id in s.types && TeaNameTaken(s, t.name) ==>
              r.outcome == Fail(UniqueFailed("tea.name")) && r.store == s && r.value.id == t.id
    ensures r.outcome.Pass? ==> r.value.id == s.teaSeq + 1
    ensures r.outcome.Pass? ==>
              r.store == s.(teas := s.teas[r.value.id := TeaRow(t.name, t.teaType.id)], teaSeq := r.value.id)
    ensures Inv(s) ==> Inv(r.store)
  {
    if t.teaType.id !in s.types then Reply(Fail(Message(TypeMissing)), t, s)
    else
      var typed := t.(teaType := t.teaType.(name := s.types[t.teaType.id]));
      var (o, s1) := InsertTea(s, t.name, t.teaType.id);
      if o.Fail? then Reply(o, typed, s)
      else
        var rows := Scan(s1.teas, 1, s1.teaSeq);
        assert (s1.teaSeq, TeaRow(t.name, t.teaType.id)) in rows;
        match FirstWhere(rows, (row: TeaRow) => row.name == t.name)
        case None => Reply(Fail(Message(IdMissing)), typed, s1)
        case Some(id) =>
          assert id == s1.teaSeq;
          Reply(Pass, typed.(id := id), s1)
  }

  /** Reads the tea's name into the record, then `DELETE FROM tea WHERE id = $1`. A missing id
      fails the scan; a tea that an owner still holds is kept by the foreign key. */
  function DeleteTea(s: Store, t: Tea): (r: Reply<Tea>)
    ensures t.id !in s.teas ==> r == Reply(Fail(RowsClosed), t, s)
    ensures t.id in s.teas ==> r.value == t.(name := s.teas[t.id].name)
    ensures t.id in s.teas ==> (r.outcome.Fail? <==> s.foreignKeys && TeaInUse(s, t.id))
    ensures r.outcome.Fail? ==> r.store == s
    ensures t.id in s.teas && r.outcome.Fail? ==> r.outcome == Fail(ForeignKeyFailed)
    ensures r.outcome.Pass? ==> r.store == s.(teas := s.teas - {t.id})
    ensures Inv(s) ==> Inv(r.store)
  {
    if t.id !in s.teas then Reply(Fail(RowsClosed), t, s)
    else
      var named := t.(name := s.teas[t.id].name);
      var (o, s1) := Tables.DeleteTea(s, t.id);
      Reply(o, named, s1)
  }

  // ---------------------------------------------------------------------------
  // Properties

  /** In a consistent store the join drops no tea: every tea is listed with its type. */
  lemma ListedTeas(s: Store, k: int)
    requires Inv(s) && k in s.teas
    ensures JoinedTea(s, k).Some? && JoinedTea(s, k).value in GetAllTeas(s)
  {
  }

  /** A created tea is listed last, after every tea listed before. */
  lemma CreateTeaThenList(s: Store, t: Tea)
    requires CreateTea(s, t).outcome.Pass?
    ensures var r := CreateTea(s, t);
            GetAllTeas(r.store) == GetAllTeas(s) + [r.value]
  {
    var r := CreateTea(s, t);
    ListAfterInsert(s, r.store, TeaRow(t.name, t.teaType.id));
  }

  /** A row added under the next id, with an existing type, is listed last. */
  lemma ListAfterInsert(s: Store, s': Store, row: TeaRow)
    requires row.teaType in s.types && s'.types == s.types
    requires s'.teas == s.teas[s.teaSeq + 1 := row] && s'.teaSeq == s.teaSeq + 1
    ensures GetAllTeas(s') == GetAllTeas(s) + [Tea(s.teaSeq + 1, row.name, TeaType(row.teaType, s.types[row.teaType]))]
  {
    var rows := Scan(s.teas, 1, s.teaSeq);
    assert Scan(s'.teas, 1, s'.teaSeq) == rows + [(s.teaSeq + 1, row)] by {
      ScanAppend(s.teas, 1, s.teaSeq, row);
    }
    JoinedSnoc(s, s', rows, (s.teaSeq + 1, row));
  }

  /** Joining one more row appends its joined tea, when its type exists. */
  lemma JoinedSnoc(s: Store, s': Store, rows: seq<(int, TeaRow)>, p: (int, TeaRow))
    requires s'.types == s.types && p.1.teaType in s.types
    ensures Joined(s', rows + [p]) == Joined(s, rows) + [Tea(p.0, p.1.name, TeaType(p.1.teaType, s.types[p.1.teaType]))]
  {
    assert (rows + [p])[..|rows|] == rows;
    JoinedTypesOnly(s, s', rows);
  }

  /** The join reads only the types table of the store. */
  lemma {:induction false} JoinedTypesOnly(s: Store, s': Store, rows: seq<(int, TeaRow)>)
    requires s'.types == s.types
    ensures Joined(s', rows) == Joined(s, rows)
    decreases |rows|
  {
    if |rows| > 0 {
      JoinedTypesOnly(s, s', rows[..|rows| - 1]);
    }
  }

  /** A created tea is found again by the intended lookup. */
  lemma CreateTeaThenGet(s: Store, t: Tea)
    requires CreateTea(s, t).outcome.Pass?
    ensures var r := CreateTea(s, t);
            GetTeaById(r.store, ZeroTea.(id := r.value.id)) == (Pass, r.value)
  {
  }

  /** After a successful delete the intended lookup reports no rows. */
  lemma DeleteTeaThenGet(s: Store, t: Tea)
    requires DeleteTea(s, t).outcome.Pass?
    ensures GetTeaById(DeleteTea(s, t).store, t) == (Fail(NoRows), t)
  {
  }

  /** In a consistent store a tea that some owner holds cannot be deleted, and nothing changes. */
  lemma DeleteHeldTeaRejected(s: Store, t: Tea, o: int)
    requires Inv(s) && (t.id, o) in s.pairs
    ensures DeleteTea(s, t) == Reply(Fail(ForeignKeyFailed), t.(name := s.teas[t.id].name), s)
  {
  }

  /** A type that does not exist is rejected before the insert, whatever the enforcement
      switch says, so the tea's type always exists afterwards. */
  lemma CreateTeaKeepsTypes(s: Store, t: Tea)
    requires TeaTypesExist(s)
    ensures TeaTypesExist(CreateTea(s, t).store)
  {
  }

  /** The intended lookup agrees with the listing in a consistent store. */
  lemma GetTeaByIdListed(s: Store, t: Tea)
    requires Inv(s)
    ensures GetTeaById(s, t).0.Pass? <==> exists x :: x in GetAllTeas(s) && x.id == t.id
    ensures GetTeaById(s, t).0.Pass? ==> GetTeaById(s, t).1 in GetAllTeas(s)
  {
    if exists x :: x in GetAllTeas(s) && x.id == t.id {
      var x :| x in GetAllTeas(s) && x.id == t.id;
      assert JoinedTea(s, t.id) == Some(x);
    }
  }

  /** Two types and two teas whose ids cross: tea 1 "Snowball" is of type 2 "Green Tea", tea 2
      "Earl Grey" of type 1 "Black Tea". */
  const Crossed := Store(CreationOrder, map[1 := "Black Tea", 2 := "Green Tea"], 2,
                         map[1 := TeaRow("Snowball", 2), 2 := TeaRow("Earl Grey", 1)], 2,
                         map[], 0, {}, map[], true)

  lemma CrossedConsistent()
    ensures Inv(Crossed)
  {
    var s := Crossed;
    assert UniqueTeaNames(s.teas) by {
      forall a, b | a in s.teas && b in s.teas && s.teas[a].name == s.teas[b].name ensures a == b {
        assert s.teas[1].name != s.teas[2].name;
      }
    }
    assert UniqueNames(s.types) by {
      assert s.types[1] != s.types[2];
    }
  }

  /** When exactly one listed tea has type id `t.id`, the lookup as written returns that tea
      under the caller's id. */
  lemma GetTeaSoleOfType(s: Store, t: Tea, x: Tea)
    requires x in GetAllTeas(s) && x.teaType.id == t.id
    requires forall y :: y in GetAllTeas(s) && y.teaType.id == t.id ==> y == x
    ensures GetTea(s, t) == (Pass, x.(id := t.id))
  {
  }

  /** `Crossed` lists "Snowball" first, then "Earl Grey". */
  lemma CrossedListing(s: Store)
    requires s == Crossed
    ensures GetAllTeas(s) == [Tea(1, "Snowball", TeaType(2, "Green Tea")), Tea(2, "Earl Grey", TeaType(1, "Black Tea"))]
  {
    var rows := Scan(s.teas, 1, s.teaSeq);
    assert rows == [(1, TeaRow("Snowball", 2)), (2, TeaRow("Earl Grey", 1))] by {
      assert Scan(s.teas, 1, 0) == [];
      assert Scan(s.teas, 1, 1) == [(1, TeaRow("Snowball", 2))];
    }
    assert rows[..1] == [(1, TeaRow("Snowball", 2))];
    assert rows[..1][..0] == [];
    assert Joined(s, rows[..1]) == [Tea(1, "Snowball", TeaType(2, "Green Tea"))];
    assert Joined(s, rows) == Joined(s, rows[..1]) + [Tea(2, "Earl Grey", TeaType(1, "Black Tea"))];
  }

  /** The lookup as written answers for the wrong tea: asked for tea 1 in `Crossed`, it
      returns "Earl Grey", the tea whose TYPE id is 1, while tea 1 is "Snowball". */
  lemma GetTeaWrongTea(s: Store, t: Tea)
    requires s == Crossed && t == ZeroTea.(id := 1)
    ensures GetTea(s, t) == (Pass, Tea(1, "Earl Grey", TeaType(1, "Black Tea")))
    ensures GetTeaById(s, t) == (Pass, Tea(1, "Snowball", TeaType(2, "Green Tea")))
  {
    var earl := Tea(2, "Earl Grey", TeaType(1, "Black Tea"));
    CrossedListing(s);
    var list := GetAllTeas(s);
    assert list[1..] == [earl];
    assert FirstOfType(list, 1) == Some(earl);
  }
}
