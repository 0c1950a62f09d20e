/** The tea-type store: listing, lookup by id, creation, deletion, and the teas-by-type view. */
module TeaTypes {
  import opened Models
  import opened Rows
  import opened Tables
  import opened Wrappers

  /** The tea types a row list holds, in the list's order. */
  function TypesOf(rows: seq<(int, string)>): (r: seq<TeaType>)
    ensures |r| == |rows|
    ensures forall i :: 0 <= i < |r| ==> r[i] == TeaType(rows[i].0, rows[i].1)
  {
    seq(|rows|, i requires 0 <= i < |rows| => TeaType(rows[i].0, rows[i].1))
  }

  /** `SELECT * FROM types`: every tea type, in ascending id order. */
  function GetAllTeaTypes(s: Store): (r: seq<TeaType>)
    ensures forall t :: t in r <==> 1 <= t.id <= s.typeSeq && t.id in s.types && s.types[t.id] == t.name
  {
    var rows := Scan(s.types, 1, s.typeSeq);
    var r := TypesOf(rows);
    assert forall t :: t in r <==> (t.id, t.name) in rows by {
      forall t: TeaType | (t.id, t.name) in rows ensures t in r {
        var i :| 0 <= i < |rows| && rows[i] == (t.id, t.name);
        assert r[i] == t;
      }
    }
    r
  }

  /** The types are listed in ascending id order. */
  lemma TypesAscending(s: Store)
    ensures var r := GetAllTeaTypes(s);
            forall i, j :: 0 <= i < j < |r| ==> r[i].id < r[j].id
  {
    ScanAscending(s.types, 1, s.typeSeq);
  }

  /** `SELECT name FROM types WHERE id=$1`, scanned into the caller's record: the name is filled
      in when the id exists, and the error is "no rows" otherwise. */
  function GetTeaType(s: Store, t: TeaType): (r: (Outcome, TeaType))
    ensures r.0.Pass? <==> t.id in s.types
    ensures r.0.Pass? ==> r.1 == TeaType(t.id, s.types[t.id])
    ensures r.0.Fail? ==> r == (Fail(NoRows), t)
  {
    if t.id in s.types then (Pass, t.(name := s.types[t.id])) else (Fail(NoRows), t)
  }

  /** `INSERT INTO types (name) VALUES ($1)`, then the id read back by name. The insert fails on
      a taken name; when it succeeds the new row has the next id, and no other row shares its name. */
  function CreateTeaType(s: Store, t: TeaType): (r: Reply<TeaType>)
    ensures r.outcome.Pass? <==> !NameTaken(s.types, t.name)
    ensures r.outcome.Fail? ==> r == Reply(Fail(UniqueFailed("types.name")), t, s)
    ensures r.outcome.Pass? ==> r.value == TeaType(s.typeSeq + 1, t.name)
    ensures r.outcome.Pass? ==>
              r.store == s.(types := s.types[r.value.id := t.name], typeSeq := r.value.id)
    ensures Inv(s) ==> Inv(r.store)
  {
    var (o, s1) := InsertType(s, t.name);
    if o.Fail? then Reply(o, t, s)
    else
      var rows := Scan(s1.types, 1, s1.typeSeq);
      assert (s1.typeSeq, t.name) in rows;
      match FirstWhere(rows, n => n == t.name)
      case None => Reply(Fail(RowsClosed), t, s1)
      case Some(id) =>
        assert id == s1.typeSeq;
        Reply(Pass, t.(id := id), s1)
  }

  /** `SELECT name FROM types WHERE id=$1` into the caller's record, then
      `DELETE FROM types WHERE id = $1`. A missing id fails the scan (the result set is
      already closed); a type that a tea still uses is kept by the foreign key. */
  function DeleteTeaType(s: Store, t: TeaType): (r: Reply<TeaType>)
    ensures t.id !in s.types ==> r == Reply(Fail(RowsClosed), t, s)
    ensures t.id in s.types ==> r.value == TeaType(t.id, s.types[t.id])
    ensures t.id in s.types ==> (r.outcome.Fail? <==> s.foreignKeys && TypeInUse(s, t.id))
    ensures r.outcome.Fail? ==> r.store == s
    ensures t.id in s.types && r.outcome.Fail? ==> r.outcome == Fail(ForeignKeyFailed)
    ensures r.outcome.Pass? ==> r.store == s.(types := s.types - {t.id})
    ensures Inv(s) ==> Inv(r.store)
  {
    if t.id !in s.types then Reply(Fail(RowsClosed), t, s)
    else
      var named := t.(name := s.types[t.id]);
      var (o, s1) := DeleteType(s, t.id);
      Reply(o, named, s1)
  }

  // ---------------------------------------------------------------------------
  // Teas by type

  /** The teas among `rows` whose type is `ty`, each carrying that type, in the rows' order. */
  function Stamped(rows: seq<(int, TeaRow)>, ty: TeaType): (r: seq<Tea>)
    ensures forall x :: x in r <==> x.teaType == ty && (x.id, TeaRow(x.name, ty.id)) in rows
    decreases |rows|
  {
    if |rows| == 0 then []
    else
      var n := |rows| - 1;
      SnocMembers(rows);
      Stamped(rows[..n], ty) + (if rows[n].1.teaType == ty.id then [Tea(rows[n].0, rows[n].1.name, ty)] else [])
  }

  /** Stamping keeps the order of ascending rows. */
  lemma {:induction false} StampedAscending(rows: seq<(int, TeaRow)>, ty: TeaType)
    requires Ascending(rows)
    ensures IdsAscending(Stamped(rows, ty))
    decreases |rows|
  {
    if |rows| > 0 {
      var n := |rows| - 1;
      AscendingFront(rows);
      StampedAscending(rows[..n], ty);
      if rows[n].1.teaType == ty.id {
        IdsAscendingSnoc(Stamped(rows[..n], ty), Tea(rows[n].0, rows[n].1.name, ty));
      }
    }
  }

  /** `SELECT tea.id, tea.name FROM tea WHERE tea.teaType = $1`, each tea given the type
      `ty`: the teas whose type id is `ty.id`, in ascending id order. */
  function TeasOfType(s: Store, ty: TeaType): (r: seq<Tea>)
    ensures forall x :: x in r <==>
              x.teaType == ty && 1 <= x.id <= s.teaSeq && x.id in s.teas && s.teas[x.id] == TeaRow(x.name, ty.id)
  {
    Stamped(Scan(s.teas, 1, s.teaSeq), ty)
  }

  /** The teas of a type are listed in ascending id order. */
  lemma TypeTeasAscending(s: Store, ty: TeaType)
    ensures IdsAscending(TeasOfType(s, ty))
  {
    ScanAscending(s.teas, 1, s.teaSeq);
    StampedAscending(Scan(s.teas, 1, s.teaSeq), ty);
  }

  /** Every tea type, each with the teas of that type: one query for the types, then one per type. */
  method GetAllTypesTeas(s: Store) returns (r: seq<TypeWithTeas>)
    ensures |r| == |GetAllTeaTypes(s)|
    ensures forall i :: 0 <= i < |r| ==> r[i].teaType == GetAllTeaTypes(s)[i]
    ensures forall i :: 0 <= i < |r| ==> r[i].teas == TeasOfType(s, r[i].teaType)
  {
    var types := GetAllTeaTypes(s);
    r := seq(|types|, j requires 0 <= j < |types| => TypeWithTeas(types[j], []));
    var rows := Scan(s.teas, 1, s.teaSeq);
    var i := 0;
    while i < |r|
      invariant 0 <= i <= |r| == |types|
      invariant forall j :: 0 <= j < |r| ==> r[j].teaType == types[j]
      invariant forall j :: 0 <= j < i ==> r[j].teas == TeasOfType(s, types[j])
    {
      var teas := CollectOfType(rows, r[i].teaType);
      r := r[i := r[i].(teas := teas)];
      i := i + 1;
    }
  }

  /** The inner loop of the view: one pass over the tea rows, keeping those of type `ty`. */
  method CollectOfType(rows: seq<(int, TeaRow)>, ty: TeaType) returns (teas: seq<Tea>)
    ensures teas == Stamped(rows, ty)
  {
    teas := [];
    var n := 0;
    while n < |rows|
      invariant 0 <= n <= |rows|
      invariant teas == Stamped(rows[..n], ty)
    {
      StampedStep(rows, ty, n);
      if rows[n].1.teaType == ty.id {
        teas := teas + [Tea(rows[n].0, rows[n].1.name, ty)];
      }
      n := n + 1;
    }
    assert rows[..|rows|] == rows;
  }

  /** One more row extends the kept teas by that row's tea, if it is of type `ty`. */
  lemma StampedStep(rows: seq<(int, TeaRow)>, ty: TeaType, n: nat)
    requires n < |rows|
    ensures Stamped(rows[..n + 1], ty) ==
              Stamped(rows[..n], ty) + (if rows[n].1.teaType == ty.id then [Tea(rows[n].0, rows[n].1.name, ty)] else [])
  {
    assert rows[..n + 1][..n] == rows[..n];
  }

  // ---------------------------------------------------------------------------
  // Properties

  /** A created type can be read back by the id the creation reported. */
  lemma CreateThenGet(s: Store, t: TeaType)
    requires !NameTaken(s.types, t.name)
    ensures var r := CreateTeaType(s, t);
            r.outcome.Pass? && GetTeaType(r.store, TeaType(r.value.id, "")) == (Pass, TeaType(r.value.id, t.name))
  {
  }

  /** Creating the same name twice: the second attempt violates UNIQUE and changes nothing. */
  lemma CreateTwiceConflicts(s: Store, t: TeaType, t': TeaType)
    requires CreateTeaType(s, t).outcome.Pass? && t'.name == t.name
    ensures var s1 := CreateTeaType(s, t).store;
            CreateTeaType(s1, t') == Reply(Fail(UniqueFailed("types.name")), t', s1)
  {
    var s1 := CreateTeaType(s, t).store;
    assert s1.types[s.typeSeq + 1] == t.name;
  }

  /** In a consistent store a created type is listed last, after every type listed before. */
  lemma CreateThenList(s: Store, t: TeaType)
    requires Inv(s) && !NameTaken(s.types, t.name)
    ensures var r := CreateTeaType(s, t);
            GetAllTeaTypes(r.store) == GetAllTeaTypes(s) + [r.value]
  {
    var r := CreateTeaType(s, t);
    assert r.store.types == s.types[s.typeSeq + 1 := t.name] && r.store.typeSeq == s.typeSeq + 1;
    ScanAppend(s.types, 1, s.typeSeq, t.name);
    TypesOfSnoc(Scan(s.types, 1, s.typeSeq), (s.typeSeq + 1, t.name));
  }

  lemma TypesOfSnoc(rows: seq<(int, string)>, p: (int, string))
    ensures TypesOf(rows + [p]) == TypesOf(rows) + [TeaType(p.0, p.1)]
  {
  }

  /** After a successful delete the type is gone: looking it up reports no rows. */
  lemma DeleteThenGet(s: Store, t: TeaType)
    requires DeleteTeaType(s, t).outcome.Pass?
    ensures var s1 := DeleteTeaType(s, t).store;
            GetTeaType(s1, t) == (Fail(NoRows), t) && t.id !in s1.types
  {
  }

  /** In a consistent store a type some tea uses cannot be deleted, and the store is untouched. */
  lemma DeleteInUseRejected(s: Store, t: TeaType, k: int)
    requires Inv(s) && k in s.teas && s.teas[k].teaType == t.id
    ensures DeleteTeaType(s, t) == Reply(Fail(ForeignKeyFailed), TeaType(t.id, s.types[t.id]), s)
  {
  }

  /** In a consistent store every tea is listed under its own type, and that type is listed. */
  lemma TypesTeasCoverTeas(s: Store, k: int)
    requires Inv(s) && k in s.teas
    ensures var ty := TeaType(s.teas[k].teaType, s.types[s.teas[k].teaType]);
            ty in GetAllTeaTypes(s) && Tea(k, s.teas[k].name, ty) in TeasOfType(s, ty)
  {
  }

  /** An empty type table lists nothing. */
  lemma EmptyTypesList(s: Store)
    requires s.types == map[]
    ensures GetAllTeaTypes(s) == []
  {
    ScanEmpty(s.types, 1, s.typeSeq);
  }
}
