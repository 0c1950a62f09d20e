/** Start-up of the data layer: open the store if it exists, otherwise create it, its five
    tables in dependency order, and the configured seed rows. Any failure ends the process. */
module Bootstrap {
  import opened Models
  import opened Rows
  import opened Tables
  import opened Seed
  import opened TeaTypes
  import opened Owners
  import opened Wrappers

  /** The database part of the configuration: the seed names for the types and owner tables. */
  datatype Config = Config(teaTypes: seq<string>, owners: seq<string>)

  /** The process-wide handle: the store and the connection-pool limit. */
  datatype Database = Database(store: Store, maxOpenConns: nat)

  /** How start-up ends: with a usable handle, or with the process exiting and logging
      `message`. Every statement sent before the exit is already committed, so an exit leaves
      the store `left` behind on disk. */
  datatype Boot = Running(db: Database) | Exited(message: string, left: Store)

  /** A fatal error check: the process logs "Error <step>: <error>" and exits, leaving `s`. */
  function Fatal(step: string, e: DbError, s: Store): Boot {
    Exited("Error " + step + ": " + e.Text(), s)
  }

  /** What a fresh start-up has committed once the types table exists and its seed was
      rejected: that table alone, empty. */
  const TypesCreated := Store([Types], map[], 0, map[], 0, map[], 0, {}, map[], true)

  /** Opening a handle: one connection at most, and foreign keys enforced on it. */
  function Open(s: Store): (db: Database)
    ensures db.maxOpenConns == 1 && db.store.foreignKeys
    ensures db.store == s.(foreignKeys := true)
  {
    Database(s.(foreignKeys := true), 1)
  }

  /** Seeds a `(id, name UNIQUE)` table: nothing is sent for an empty list; otherwise the built
      statement inserts whatever rows it reads as, all or none. */
  function SeedTable(q: Quoting, table: TableName, m: map<int, string>, last: nat, names: seq<string>)
    : (r: (Outcome, map<int, string>, nat))
    ensures |names| == 0 ==> r == (Pass, m, last)
    ensures r.0.Fail? ==> r.1 == m && r.2 == last
    ensures r.0.Pass? && |names| > 0 ==>
              var vs := SeedValues(table.SqlName(), SeedStatement(q, table.SqlName(), names));
              vs.Some? && InsertNames(m, last, vs.value) == Some((r.1, r.2))
  {
    if |names| == 0 then (Pass, m, last)
    else
      match SeedValues(table.SqlName(), SeedStatement(q, table.SqlName(), names))
      case None => (Fail(SyntaxError), m, last)
      case Some(vs) =>
        match InsertNames(m, last, vs)
        case None => (Fail(UniqueFailed(table.SqlName() + ".name")), m, last)
        case Some((m', last')) => (Pass, m', last')
  }

  /** A fresh store: the empty store opened, its tables created in dependency order, and the
      types and owner tables seeded right after each is created. */
  function CreateDatabase(q: Quoting, cfg: Config): (r: Boot)
    ensures r.Running? ==> r.db.maxOpenConns == 1 && r.db.store.schema == CreationOrder
  {
    var db := Open(Empty);
    match CreateTable(db.store, Types)
    case (Fail(e), _) => Fatal("creating types table", e, db.store)
    case (Pass, s1) =>
      match SeedTable(q, Types, s1.types, s1.typeSeq, cfg.teaTypes)
      case (Fail(e), _, _) => Fatal("inserting types into the database", e, s1)
      case (Pass, types, typeSeq) =>
        var s2 := s1.(types := types, typeSeq := typeSeq);
        match CreateTable(s2, TeaTable)
        case (Fail(e), _) => Fatal("creating tea table", e, s2)
        case (Pass, s3) =>
          match CreateTable(s3, OwnerTable)
          case (Fail(e), _) => Fatal("creating owner table", e, s3)
          case (Pass, s4) =>
            match SeedTable(q, OwnerTable, s4.owners, s4.ownerSeq, cfg.owners)
            case (Fail(e), _, _) => Fatal("inserting owners into the database", e, s4)
            case (Pass, owners, ownerSeq) =>
              var s5 := s4.(owners := owners, ownerSeq := ownerSeq);
              match CreateTable(s5, TeaOwners)
              case (Fail(e), _) => Fatal("creating owner table", e, s5)
              case (Pass, s6) =>
                match CreateTable(s6, UserTable)
                case (Fail(e), _) => Fatal("creating user table", e, s6)
                case (Pass, s7) =>
                  Running(Database(s7, db.maxOpenConns))
  }

  /** Start-up: an existing store is only opened, with no table created and no row written; a
      missing one is created. Whether the store exists is the `existing` argument. */
  function InitialiseDatabase(q: Quoting, existing: Option<Store>, cfg: Config): (r: Boot)
    ensures existing.Some? ==> r == Running(Database(existing.value.(foreignKeys := true), 1))
    ensures existing.None? ==> r == CreateDatabase(q, cfg)
  {
    match existing
    case Some(s) => Running(Open(s))
    case None => CreateDatabase(q, cfg)
  }

  // ---------------------------------------------------------------------------
  // Properties

  /** An accepted seed keeps ids within the counter and names unique. */
  lemma SeedKeeps(q: Quoting, table: TableName, m: map<int, string>, last: nat, names: seq<string>)
    requires KeysWithin(m, last) && UniqueNames(m)
    ensures var r := SeedTable(q, table, m, last, names);
            r.0.Pass? ==> KeysWithin(r.1, r.2) && UniqueNames(r.1)
  {
    var r := SeedTable(q, table, m, last, names);
    if r.0.Pass? && |names| > 0 {
      var vs := SeedValues(table.SqlName(), SeedStatement(q, table.SqlName(), names)).value;
      InsertNamesKeeps(m, last, vs);
    }
  }

  /** Seeding an empty table with names that read back succeeds exactly when the names are
      distinct, and then the table scans as the names numbered from 1, in order. */
  lemma SeedFresh(q: Quoting, table: TableName, names: seq<string>)
    requires ReadsBack(q, names)
    ensures var r := SeedTable(q, table, map[], 0, names);
            && (r.0.Pass? <==> Distinct(names))
            && (r.0.Pass? ==> r.2 == |names| && Scan(r.1, 1, r.2) == Numbered(names, 0))
  {
    if |names| > 0 {
      SeedStatementRoundTrip(q, table.SqlName(), names);
      SeedFreshRows(map[], names);
    }
  }

  /** Inserting distinct names into an empty table numbers them from 1; repeated names are
      rejected. */
  lemma SeedFreshRows(m: map<int, string>, names: seq<string>)
    requires m == map[]
    ensures InsertNames(m, 0, names).Some? <==> Distinct(names)
    ensures InsertNames(m, 0, names).Some? ==> InsertNames(m, 0, names).value.1 == |names|
    ensures InsertNames(m, 0, names).Some? ==>
              Scan(InsertNames(m, 0, names).value.0, 1, |names|) == Numbered(names, 0)
  {
    assert InsertNames(m, 0, names).Some? <==> Distinct(names) by {
      InsertNamesAccepts(m, 0, names);
    }
    if InsertNames(m, 0, names).Some? {
      assert InsertNames(m, 0, names).value.1 == |names| by {
        InsertNamesKeeps(m, 0, names);
      }
      assert Scan(InsertNames(m, 0, names).value.0, 1, |names|) == Numbered(names, 0) by {
        InsertNamesRows(m, 0, names);
        assert Scan(m, 1, 0) == [];
      }
    }
  }

  /** The configured names as a listing returns them: ids 1, 2, ... in order. */
  function SeededTypes(names: seq<string>): (r: seq<TeaType>)
    ensures |r| == |names|
    ensures forall i :: 0 <= i < |r| ==> r[i] == TeaType(i + 1, names[i])
  {
    seq(|names|, i requires 0 <= i < |names| => TeaType(i + 1, names[i]))
  }

  function SeededOwners(names: seq<string>): (r: seq<Owner>)
    ensures |r| == |names|
    ensures forall i :: 0 <= i < |r| ==> r[i] == Owner(i + 1, names[i])
  {
    seq(|names|, i requires 0 <= i < |names| => Owner(i + 1, names[i]))
  }

  /** When the seed names read back (always, if they are escaped), a fresh start-up runs
      exactly when each seed list is free of repeats, and then the types and owner tables list exactly the seed names, with
      ids 1, 2, ... in configuration order, while the other tables are empty. */
  lemma FreshBootstrap(q: Quoting, cfg: Config)
    requires ReadsBack(q, cfg.teaTypes)
    requires ReadsBack(q, cfg.owners)
    ensures var r := InitialiseDatabase(q, None, cfg);
            && (r.Running? <==> Distinct(cfg.teaTypes) && Distinct(cfg.owners))
            && (r.Running? ==> GetAllTeaTypes(r.db.store) == SeededTypes(cfg.teaTypes))
            && (r.Running? ==> GetAllOwners(r.db.store) == SeededOwners(cfg.owners))
  {
    SeedFresh(q, Types, cfg.teaTypes);
    SeedFresh(q, OwnerTable, cfg.owners);
    FreshShape(q, cfg);
    FreshTypes(q, cfg);
    FreshOwners(q, cfg);
  }

  lemma FreshTypes(q: Quoting, cfg: Config)
    requires ReadsBack(q, cfg.teaTypes)
    ensures var r := CreateDatabase(q, cfg);
            r.Running? ==> GetAllTeaTypes(r.db.store) == SeededTypes(cfg.teaTypes)
  {
    var r := CreateDatabase(q, cfg);
    if r.Running? {
      assert Scan(r.db.store.types, 1, r.db.store.typeSeq) == Numbered(cfg.teaTypes, 0) by {
        SeedFresh(q, Types, cfg.teaTypes);
        FreshShape(q, cfg);
      }
      ListedSeedTypes(r.db.store, cfg.teaTypes);
    }
  }

  lemma FreshOwners(q: Quoting, cfg: Config)
    requires ReadsBack(q, cfg.owners)
    ensures var r := CreateDatabase(q, cfg);
            r.Running? ==> GetAllOwners(r.db.store) == SeededOwners(cfg.owners)
  {
    var r := CreateDatabase(q, cfg);
    if r.Running? {
      assert Scan(r.db.store.owners, 1, r.db.store.ownerSeq) == Numbered(cfg.owners, 0) by {
        SeedFresh(q, OwnerTable, cfg.owners);
        FreshShape(q, cfg);
      }
      ListedSeedOwners(r.db.store, cfg.owners);
    }
  }

  /** A types table that scans as the names numbered from 1 lists as the seeded types. */
  lemma ListedSeedTypes(s: Store, names: seq<string>)
    requires Scan(s.types, 1, s.typeSeq) == Numbered(names, 0)
    ensures GetAllTeaTypes(s) == SeededTypes(names)
  {
    assert TypesOf(Numbered(names, 0)) == SeededTypes(names);
  }

  /** An owner table that scans as the names numbered from 1 lists as the seeded owners. */
  lemma ListedSeedOwners(s: Store, names: seq<string>)
    requires Scan(s.owners, 1, s.ownerSeq) == Numbered(names, 0)
    ensures GetAllOwners(s) == SeededOwners(names)
  {
    assert OwnersOf(Numbered(names, 0)) == SeededOwners(names);
  }

  /** Creating a table never fails on a fresh store, so a fresh start-up is decided by the two
      seeds alone: the first rejected seed ends it, and otherwise the store holds the five
      tables, the two seeded tables as the seeds left them and nothing else. */
  lemma FreshShape(q: Quoting, cfg: Config)
    ensures var t := SeedTable(q, Types, map[], 0, cfg.teaTypes);
            var o := SeedTable(q, OwnerTable, map[], 0, cfg.owners);
            CreateDatabase(q, cfg) ==
              if t.0.Fail? then
                Fatal("inserting types into the database", t.0.error, TypesCreated)
              else if o.0.Fail? then
                Fatal("inserting owners into the database", o.0.error,
                      Store([Types, TeaTable, OwnerTable], t.1, t.2, map[], 0, map[], 0, {}, map[], true))
              else Running(Database(Store(CreationOrder, t.1, t.2, map[], 0, o.1, o.2, {}, map[], true), 1))
  {
    var t := SeedTable(q, Types, map[], 0, cfg.teaTypes);
    var o := SeedTable(q, OwnerTable, map[], 0, cfg.owners);
    if t.0.Fail? {
      FailedTypeSeedExits(q, cfg);
    } else if o.0.Fail? {
      FailedOwnerSeedExits(q, cfg);
    } else {
      SeedsAccepted(q, cfg);
    }
  }

  /** A rejected owner seed, after an accepted type seed, ends start-up with the seed's error and
      leaves the types, tea and owner tables. */
  lemma FailedOwnerSeedExits(q: Quoting, cfg: Config)
    requires SeedTable(q, Types, map[], 0, cfg.teaTypes).0.Pass?
    requires SeedTable(q, OwnerTable, map[], 0, cfg.owners).0.Fail?
    ensures var t := SeedTable(q, Types, map[], 0, cfg.teaTypes);
            CreateDatabase(q, cfg) ==
              Fatal("inserting owners into the database", SeedTable(q, OwnerTable, map[], 0, cfg.owners).0.error,
                    Store([Types, TeaTable, OwnerTable], t.1, t.2, map[], 0, map[], 0, {}, map[], true))
  {
    assert [] + [Types] == [Types];
    assert [Types] + [TeaTable] + [OwnerTable] == [Types, TeaTable, OwnerTable];
  }

  /** With both seeds accepted, start-up runs on the five tables and the two seeded tables. */
  lemma SeedsAccepted(q: Quoting, cfg: Config)
    requires SeedTable(q, Types, map[], 0, cfg.teaTypes).0.Pass?
    requires SeedTable(q, OwnerTable, map[], 0, cfg.owners).0.Pass?
    ensures var t := SeedTable(q, Types, map[], 0, cfg.teaTypes);
            var o := SeedTable(q, OwnerTable, map[], 0, cfg.owners);
            CreateDatabase(q, cfg) ==
              Running(Database(Store(CreationOrder, t.1, t.2, map[], 0, o.1, o.2, {}, map[], true), 1))
  {
    assert [] + [Types] == [Types];
    assert [Types] + [TeaTable] + [OwnerTable] + [TeaOwners] + [UserTable] == [Types, TeaTable, OwnerTable, TeaOwners, UserTable];
  }

  /** A fresh start-up exits only from a seed step: creating a table never fails on a fresh
      store. */
  lemma ExitsOnlyFromSeeds(q: Quoting, cfg: Config)
    ensures var r := CreateDatabase(q, cfg);
            r.Exited? ==>
              exists e: DbError :: r == Fatal("inserting types into the database", e, r.left)
                                || r == Fatal("inserting owners into the database", e, r.left)
  {
    FreshShape(q, cfg);
  }

  /** A completed fresh start-up leaves a consistent store, with no teas, pairs or users. */
  lemma FreshConsistent(q: Quoting, cfg: Config)
    ensures var r := CreateDatabase(q, cfg);
            r.Running? ==> Inv(r.db.store) && r.db.store.teas == map[] && r.db.store.pairs == {}
                           && r.db.store.users == map[]
  {
    FreshShape(q, cfg);
    SeedKeeps(q, Types, map[], 0, cfg.teaTypes);
    SeedKeeps(q, OwnerTable, map[], 0, cfg.owners);
  }

  /** Starting up again on the store a fresh start-up left behind changes nothing. */
  lemma BootstrapTwice(q: Quoting, cfg: Config, cfg': Config)
    requires InitialiseDatabase(q, None, cfg).Running?
    ensures var r := InitialiseDatabase(q, None, cfg);
            InitialiseDatabase(q, Some(r.db.store), cfg') == r
  {
  }

  /** A repeated seed type name breaks the UNIQUE rule, so start-up exits. */
  lemma DuplicateSeedExits(q: Quoting, cfg: Config)
    requires ReadsBack(q, cfg.teaTypes)
    requires !Distinct(cfg.teaTypes)
    ensures InitialiseDatabase(q, None, cfg) ==
              Fatal("inserting types into the database", UniqueFailed("types.name"), TypesCreated)
  {
    SeedFresh(q, Types, cfg.teaTypes);
    SeedStatementRoundTrip(q, Types.SqlName(), cfg.teaTypes);
    assert Types.SqlName() + ".name" == "types.name";
    FailedTypeSeedExits(q, cfg);
  }

  /** A rejected type seed ends start-up with the seed's error. */
  lemma FailedTypeSeedExits(q: Quoting, cfg: Config)
    requires SeedTable(q, Types, map[], 0, cfg.teaTypes).0.Fail?
    ensures CreateDatabase(q, cfg) ==
              Fatal("inserting types into the database", SeedTable(q, Types, map[], 0, cfg.teaTypes).0.error,
                    TypesCreated)
  {
  }

  /** The exit after a rejected type seed leaves a store holding the types table alone. The next
      start-up finds that store and only opens it, so the process runs on a store without the
      tea, owner, pair and user tables, which breaks the integrity invariant. */
  lemma RestartAfterFailedTypeSeed(q: Quoting, cfg: Config, cfg': Config)
    requires SeedTable(q, Types, map[], 0, cfg.teaTypes).0.Fail?
    ensures var r := CreateDatabase(q, cfg);
            && r.Exited?
            && var again := InitialiseDatabase(q, Some(r.left), cfg');
               && again.Running?
               && again.db.store.schema == [Types]
               && again.db.store.types == map[]
               && !Inv(again.db.store)
  {
    FailedTypeSeedExits(q, cfg);
  }

  /** The exit after a rejected owner seed leaves the types, tea and owner tables, with the types
      seeded. Restarting only opens that store, which lacks the pair and user tables. */
  lemma RestartAfterFailedOwnerSeed(q: Quoting, cfg: Config, cfg': Config)
    requires SeedTable(q, Types, map[], 0, cfg.teaTypes).0.Pass?
    requires SeedTable(q, OwnerTable, map[], 0, cfg.owners).0.Fail?
    ensures var r := CreateDatabase(q, cfg);
            && r.Exited?
            && var again := InitialiseDatabase(q, Some(r.left), cfg');
               && again.Running?
               && again.db.store.schema == [Types, TeaTable, OwnerTable]
               && again.db.store.types == SeedTable(q, Types, map[], 0, cfg.teaTypes).1
               && again.db.store.owners == map[]
               && !Inv(again.db.store)
  {
    FreshShape(q, cfg);
  }

  /** As the code writes it, a seed type name with a quote in it makes the seed statement
      malformed, so start-up exits. */
  lemma QuotedSeedExits(cfg: Config)
    requires cfg.teaTypes == ["Earl's"]
    ensures InitialiseDatabase(Spliced, None, cfg) ==
              Fatal("inserting types into the database", SyntaxError, TypesCreated)
  {
    QuotedSeedRejected();
    FailedTypeSeedExits(Spliced, cfg);
  }

  /** As the code writes it, a seed owner name that closes its own literal seeds two owners
      instead of one. */
  lemma InjectedSeedSplits(cfg: Config)
    requires cfg.teaTypes == [] && cfg.owners == ["a'), ('b"]
    ensures InitialiseDatabase(Spliced, None, cfg).Running?
    ensures GetAllOwners(InitialiseDatabase(Spliced, None, cfg).db.store) == [Owner(1, "a"), Owner(2, "b")]
  {
    var names := ["a", "b"];
    var o := SeedTable(Spliced, OwnerTable, map[], 0, cfg.owners);
    InjectedOwnerSeed(cfg.owners);
    FreshShape(Spliced, cfg);
    var s := InitialiseDatabase(Spliced, None, cfg).db.store;
    assert s.owners == o.1 && s.ownerSeq == o.2;
    ListedSeedOwners(s, names);
    assert SeededOwners(names) == [Owner(1, "a"), Owner(2, "b")];
  }

  /** The owner seed `["a'), ('b"]` is accepted and scans as the two rows "a" and "b". */
  lemma InjectedOwnerSeed(owners: seq<string>)
    requires owners == ["a'), ('b"]
    ensures var o := SeedTable(Spliced, OwnerTable, map[], 0, owners);
            o.0.Pass? && Scan(o.1, 1, o.2) == Numbered(["a", "b"], 0)
  {
    var names := ["a", "b"];
    assert SeedValues(OwnerTable.SqlName(), SeedStatement(Spliced, OwnerTable.SqlName(), owners)) == Some(names) by {
      QuotedSeedSplits();
      assert OwnerTable.SqlName() == "owner";
    }
    assert Distinct(names);
    SeedFreshRows(map[], names);
  }

  /** With the names escaped, the same seeds are stored as configured: the type "Earl's" and
      the single owner "a'), ('b". */
  lemma EscapedSeedsKept(cfg: Config)
    requires cfg.teaTypes == ["Earl's"] && cfg.owners == ["a'), ('b"]
    ensures InitialiseDatabase(Escaped, None, cfg).Running?
    ensures GetAllTeaTypes(InitialiseDatabase(Escaped, None, cfg).db.store) == [TeaType(1, "Earl's")]
    ensures GetAllOwners(InitialiseDatabase(Escaped, None, cfg).db.store) == [Owner(1, "a'), ('b")]
  {
    SingleSeeds(Escaped, cfg);
  }

  /** A single seed type and a single seed owner that read back are each stored as the only
      row of their table, with id 1. */
  lemma SingleSeeds(q: Quoting, cfg: Config)
    requires ReadsBack(q, cfg.teaTypes) && ReadsBack(q, cfg.owners)
    requires |cfg.teaTypes| == 1 && |cfg.owners| == 1
    ensures InitialiseDatabase(q, None, cfg).Running?
    ensures GetAllTeaTypes(InitialiseDatabase(q, None, cfg).db.store) == [TeaType(1, cfg.teaTypes[0])]
    ensures GetAllOwners(InitialiseDatabase(q, None, cfg).db.store) == [Owner(1, cfg.owners[0])]
  {
    FreshBootstrap(q, cfg);
    assert SeededTypes(cfg.teaTypes) == [TeaType(1, cfg.teaTypes[0])];
    assert SeededOwners(cfg.owners) == [Owner(1, cfg.owners[0])];
  }

  /** Every table is created after the tables its foreign keys point at. */
  lemma CreationOrderTargetsFirst()
    ensures TargetsFirst(CreationOrder)
  {
    assert CreationOrder[..1] == [Types];
    assert CreationOrder[..3] == [Types, TeaTable, OwnerTable];
  }
}
