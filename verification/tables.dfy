/** The relational store behind the data layer: the five tables, the constraints their
    `CREATE TABLE` statements declare, and the single statements the data layer issues.
    A statement either takes effect completely or fails and leaves the store as it was. */
module Tables {
  import opened Models
  import opened Rows
  import opened Wrappers

  /** The tables of the schema. */
  datatype TableName = Types | TeaTable | OwnerTable | TeaOwners | UserTable {
    function SqlName(): string {
      match this
      case Types => "types"
      case TeaTable => "tea"
      case OwnerTable => "owner"
      case TeaOwners => "teaOwners"
      case UserTable => "user"
    }
  }

  /** The tables a table's foreign keys point at. */
  function References(t: TableName): set<TableName> {
    match t
    case TeaTable => {Types}
    case TeaOwners => {TeaTable, OwnerTable}
    case _ => {}
  }

  /** The order in which a fresh store's tables are created. */
  const CreationOrder: seq<TableName> := [Types, TeaTable, OwnerTable, TeaOwners, UserTable]

  /** Every foreign-key target in `schema` was created before the table that refers to it. */
  predicate TargetsFirst(schema: seq<TableName>) {
    forall i, t :: 0 <= i < |schema| && t in References(schema[i]) ==> t in schema[..i]
  }

  /** The errors a statement or the data layer can report, with the text each one prints. */
  datatype DbError =
    | NoRows                   // a single-row query matched nothing
    | RowsClosed               // a row was scanned after the result set ran out
    | UniqueFailed(columns: string)
    | ForeignKeyFailed
    | TableExists(table: string)
    | SyntaxError
    | Message(text: string)    // an error the data layer builds from a fixed text
  {
    function Text(): string {
      match this
      case NoRows => "sql: no rows in result set"
      case RowsClosed => "sql: Rows are closed"
      case UniqueFailed(c) => "UNIQUE constraint failed: " + c
      case ForeignKeyFailed => "FOREIGN KEY constraint failed"
      case TableExists(t) => "table " + t + " already exists"
      case SyntaxError => "syntax error"
      case Message(t) => t
    }
  }

  /** The `error` result of a Go call: nil, or an error. */
  datatype Outcome = Pass | Fail(error: DbError)

  /** What a data-layer call hands back: its error, the record it filled in through its
      pointer argument (or returned), and the store afterwards. */
  datatype Reply<T> = Reply(outcome: Outcome, value: T, store: Store)

  /** A row of the tea table: its name and the id of its type. */
  datatype TeaRow = TeaRow(name: string, teaType: int)

  /** The contents of the store. Each AUTOINCREMENT table keeps the largest id it has handed
      out (SQLite's `sqlite_sequence`); `foreignKeys` is the connection's enforcement switch. */
  datatype Store = Store(
    schema: seq<TableName>,
    types: map<int, string>, typeSeq: nat,
    teas: map<int, TeaRow>, teaSeq: nat,
    owners: map<int, string>, ownerSeq: nat,
    pairs: set<(int, int)>,
    users: map<string, string>,
    foreignKeys: bool)

  /** A store that has just been created: no tables, no rows, no enforcement. */
  const Empty := Store([], map[], 0, map[], 0, map[], 0, {}, map[], false)

  /** Some row of `m` has this name. */
  predicate NameTaken(m: map<int, string>, name: string) {
    exists k :: k in m && m[k] == name
  }

  /** No two rows of a `name UNIQUE` table share a name. */
  ghost predicate UniqueNames(m: map<int, string>) {
    forall a, b :: a in m && b in m && m[a] == m[b] ==> a == b
  }

  ghost predicate UniqueTeaNames(m: map<int, TeaRow>) {
    forall a, b :: a in m && b in m && m[a].name == m[b].name ==> a == b
  }

  /** Every tea's type exists (tea.teaType references types.id). */
  ghost predicate TeaTypesExist(s: Store) {
    forall k :: k in s.teas ==> s.teas[k].teaType in s.types
  }

  /** Every tea/owner pair names an existing tea and an existing owner. */
  ghost predicate PairsExist(s: Store) {
    forall p :: p in s.pairs ==> p.0 in s.teas && p.1 in s.owners
  }

  /** The integrity the schema promises: the full schema exists with foreign keys enforced,
      ids come from the AUTOINCREMENT counters, names are unique, and every reference resolves. */
  ghost predicate Inv(s: Store) {
    && s.schema == CreationOrder
    && s.foreignKeys
    && KeysWithin(s.types, s.typeSeq)
    && KeysWithin(s.teas, s.teaSeq)
    && KeysWithin(s.owners, s.ownerSeq)
    && UniqueNames(s.types)
    && UniqueNames(s.owners)
    && UniqueTeaNames(s.teas)
    && TeaTypesExist(s)
    && PairsExist(s)
  }

  // ---------------------------------------------------------------------------
  // CREATE TABLE

  /** `CREATE TABLE t (...)`: fails if the table is already there. */
  function CreateTable(s: Store, t: TableName): (r: (Outcome, Store))
    ensures r.0.Pass? <==> t !in s.schema
    ensures r.0.Pass? ==> r.1 == s.(schema := s.schema + [t])
    ensures r.0.Fail? ==> r.1 == s
  {
    if t in s.schema then (Fail(TableExists(t.SqlName())), s)
    else (Pass, s.(schema := s.schema + [t]))
  }

  // ---------------------------------------------------------------------------
  // Tables of (id INTEGER PRIMARY KEY AUTOINCREMENT, name TEXT NOT NULL UNIQUE)

  /** Inserting one name: rejected if the name is taken, otherwise stored under the next id. */
  function InsertName(m: map<int, string>, last: nat, name: string): (r: Option<(map<int, string>, nat)>)
    ensures r.Some? <==> !NameTaken(m, name)
    ensures r.Some? ==> r.value == (m[last + 1 := name], last + 1)
  {
    if NameTaken(m, name) then None else Some((m[last + 1 := name], last + 1))
  }

  /** A multi-row `INSERT ... VALUES (a), (b), ...`: the rows go in one after another, and
      if any of them is rejected the whole statement is. */
  function InsertNames(m: map<int, string>, last: nat, names: seq<string>): (r: Option<(map<int, string>, nat)>)
    decreases |names|
  {
    if |names| == 0 then Some((m, last))
    else match InsertName(m, last, names[0])
      case None => None
      case Some((m1, last1)) => InsertNames(m1, last1, names[1..])
  }

  /** No name occurs twice in `names`. */
  predicate Distinct(names: seq<string>) {
    forall i, j :: 0 <= i < j < |names| ==> names[i] != names[j]
  }

  /** The rows `names` receive when inserted after id `last`: ids `last + 1`, `last + 2`, .... */
  function Numbered(names: seq<string>, last: int): (r: seq<(int, string)>)
    ensures |r| == |names|
    ensures forall i :: 0 <= i < |r| ==> r[i] == (last + 1 + i, names[i])
    decreases |names|
  {
    if |names| == 0 then [] else [(last + 1, names[0])] + Numbered(names[1..], last + 1)
  }

  /** One accepted row keeps ids within the counter and names unique, and adds its name. */
  lemma InsertOne(m: map<int, string>, last: nat, n: string)
    requires KeysWithin(m, last) && UniqueNames(m) && !NameTaken(m, n)
    ensures KeysWithin(m[last + 1 := n], last + 1)
    ensures UniqueNames(m[last + 1 := n])
    ensures forall x :: NameTaken(m[last + 1 := n], x) <==> NameTaken(m, x) || x == n
  {
    var m1 := m[last + 1 := n];
    forall a, b | a in m1 && b in m1 && m1[a] == m1[b]
      ensures a == b
    {
      if a != last + 1 && b != last + 1 {
        assert m[a] == m[b];
      }
    }
    assert m1[last + 1] == n;
    forall x | NameTaken(m, x)
      ensures NameTaken(m1, x)
    {
      var k :| k in m && m[k] == x;
      assert m1[k] == x;
    }
    forall x | NameTaken(m1, x) && x != n
      ensures NameTaken(m, x)
    {
      var k :| k in m1 && m1[k] == x;
      assert m[k] == x;
    }
  }

  /** A multi-row insert into a table with unique names succeeds exactly when the new names
      are distinct and none is taken. */
  lemma {:induction false} InsertNamesAccepts(m: map<int, string>, last: nat, names: seq<string>)
    requires KeysWithin(m, last) && UniqueNames(m)
    ensures InsertNames(m, last, names).Some? <==>
              Distinct(names) && forall i :: 0 <= i < |names| ==> !NameTaken(m, names[i])
    decreases |names|
  {
    if |names| > 0 {
      var n := names[0];
      if !NameTaken(m, n) {
        InsertOne(m, last, n);
        InsertNamesAccepts(m[last + 1 := n], last + 1, names[1..]);
        assert Distinct(names) <==>
                 Distinct(names[1..]) && forall i :: 1 <= i < |names| ==> names[i] != n;
      }
    }
  }

  /** After an accepted multi-row insert the counter has advanced by one per name, and ids and
      names still obey the table's rules. */
  lemma {:induction false} InsertNamesKeeps(m: map<int, string>, last: nat, names: seq<string>)
    requires KeysWithin(m, last) && UniqueNames(m)
    requires InsertNames(m, last, names).Some?
    ensures var (m', last') := InsertNames(m, last, names).value;
            last' == last + |names| && KeysWithin(m', last') && UniqueNames(m')
    decreases |names|
  {
    if |names| > 0 {
      var n := names[0];
      InsertOne(m, last, n);
      assert InsertNames(m, last, names) == InsertNames(m[last + 1 := n], last + 1, names[1..]);
      InsertNamesKeeps(m[last + 1 := n], last + 1, names[1..]);
    }
  }

  /** After an accepted multi-row insert the scan shows the new rows, numbered in order, after
      the old ones. */
  lemma {:induction false} InsertNamesRows(m: map<int, string>, last: nat, names: seq<string>)
    requires InsertNames(m, last, names).Some?
    ensures Scan(InsertNames(m, last, names).value.0, 1, last + |names|)
              == Scan(m, 1, last) + Numbered(names, last)
    decreases |names|
  {
    if |names| > 0 {
      var n, rest := names[0], names[1..];
      var m1 := m[last + 1 := n];
      assert InsertNames(m, last, names) == InsertNames(m1, last + 1, rest) by {
        assert InsertName(m, last, n).Some?;
      }
      var m' := InsertNames(m1, last + 1, rest).value.0;
      assert Scan(m', 1, last + |names|) == Scan(m1, 1, last + 1) + Numbered(rest, last + 1) by {
        InsertNamesRows(m1, last + 1, rest);
        assert last + 1 + |rest| == last + |names|;
      }
      assert Scan(m1, 1, last + 1) == Scan(m, 1, last) + [(last + 1, n)] by {
        ScanAppend(m, 1, last, n);
      }
      assert Numbered(names, last) == [(last + 1, n)] + Numbered(rest, last + 1);
      Regroup(Scan(m', 1, last + |names|), Scan(m1, 1, last + 1), Scan(m, 1, last),
              (last + 1, n), Numbered(rest, last + 1), Numbered(names, last));
    }
  }

  /** `x = (a + [e]) + b` regrouped as `a + ([e] + b)`. */
  lemma Regroup<T>(x: seq<T>, y: seq<T>, a: seq<T>, e: T, b: seq<T>, z: seq<T>)
    requires x == y + b && y == a + [e] && z == [e] + b
    ensures x == a + z
  {
  }

  // ---------------------------------------------------------------------------
  // Statements on the types table

  /** `INSERT INTO types (name) VALUES (n)`. */
  function InsertType(s: Store, name: string): (r: (Outcome, Store))
    ensures r.0.Pass? <==> !NameTaken(s.types, name)
    ensures r.0.Fail? ==> r == (Fail(UniqueFailed("types.name")), s)
    ensures r.0.Pass? ==> r.1 == s.(types := s.types[s.typeSeq + 1 := name], typeSeq := s.typeSeq + 1)
    ensures Inv(s) ==> Inv(r.1)
  {
    match InsertName(s.types, s.typeSeq, name)
    case None => (Fail(UniqueFailed("types.name")), s)
    case Some((m, last)) => (Pass, s.(types := m, typeSeq := last))
  }

  /** Some tea still has type `id`. */
  predicate TypeInUse(s: Store, id: int) {
    exists k :: k in s.teas && s.teas[k].teaType == id
  }

  /** `DELETE FROM types WHERE id = $1`: restricted while a tea refers to the row. */
  function DeleteType(s: Store, id: int): (r: (Outcome, Store))
    ensures r.0.Fail? <==> id in s.types && s.foreignKeys && TypeInUse(s, id)
    ensures r.0.Fail? ==> r == (Fail(ForeignKeyFailed), s)
    ensures r.0.Pass? ==> r.1 == s.(types := s.types - {id})
    ensures Inv(s) ==> Inv(r.1)
  {
    if id in s.types && s.foreignKeys && TypeInUse(s, id) then (Fail(ForeignKeyFailed), s)
    else (Pass, s.(types := s.types - {id}))
  }

  // ---------------------------------------------------------------------------
  // Statements on the owner table

  /** `INSERT INTO owner (name) VALUES (n)`. */
  function InsertOwner(s: Store, name: string): (r: (Outcome, Store))
    ensures r.0.Pass? <==> !NameTaken(s.owners, name)
    ensures r.0.Fail? ==> r == (Fail(UniqueFailed("owner.name")), s)
    ensures r.0.Pass? ==> r.1 == s.(owners := s.owners[s.ownerSeq + 1 := name], ownerSeq := s.ownerSeq + 1)
    ensures Inv(s) ==> Inv(r.1)
  {
    match InsertName(s.owners, s.ownerSeq, name)
    case None => (Fail(UniqueFailed("owner.name")), s)
    case Some((m, last)) => (Pass, s.(owners := m, ownerSeq := last))
  }

  /** Some tea/owner pair still names owner `id`. */
  predicate OwnerInUse(s: Store, id: int) {
    exists p :: p in s.pairs && p.1 == id
  }

  /** `DELETE FROM owner WHERE id = $1`: restricted while a pair refers to the row. */
  function DeleteOwner(s: Store, id: int): (r: (Outcome, Store))
    ensures r.0.Fail? <==> id in s.owners && s.foreignKeys && OwnerInUse(s, id)
    ensures r.0.Fail? ==> r == (Fail(ForeignKeyFailed), s)
    ensures r.0.Pass? ==> r.1 == s.(owners := s.owners - {id})
    ensures Inv(s) ==> Inv(r.1)
  {
    if id in s.owners && s.foreignKeys && OwnerInUse(s, id) then (Fail(ForeignKeyFailed), s)
    else (Pass, s.(owners := s.owners - {id}))
  }

  // ---------------------------------------------------------------------------
  // Statements on the tea table

  /** Some tea already has this name. */
  predicate TeaNameTaken(s: Store, name: string) {
    exists k :: k in s.teas && s.teas[k].name == name
  }

  /** `INSERT INTO tea (name, teaType) VALUES ($1, $2)`: the UNIQUE name is checked as the row
      goes in, the foreign key on `teaType` when the statement ends. */
  function InsertTea(s: Store, name: string, teaType: int): (r: (Outcome, Store))
    ensures r.0.Pass? <==> !TeaNameTaken(s, name) && (s.foreignKeys ==> teaType in s.types)
    ensures TeaNameTaken(s, name) ==> r == (Fail(UniqueFailed("tea.name")), s)
    ensures !TeaNameTaken(s, name) && r.0.Fail? ==> r == (Fail(ForeignKeyFailed), s)
    ensures r.0.Pass? ==>
              r.1 == s.(teas := s.teas[s.teaSeq + 1 := TeaRow(name, teaType)], teaSeq := s.teaSeq + 1)
    ensures Inv(s) ==> Inv(r.1)
  {
    if TeaNameTaken(s, name) then (Fail(UniqueFailed("tea.name")), s)
    else if s.foreignKeys && teaType !in s.types then (Fail(ForeignKeyFailed), s)
    else (Pass, s.(teas := s.teas[s.teaSeq + 1 := TeaRow(name, teaType)], teaSeq := s.teaSeq + 1))
  }

  /** Some tea/owner pair still names tea `id`. */
  predicate TeaInUse(s: Store, id: int) {
    exists p :: p in s.pairs && p.0 == id
  }

  /** `DELETE FROM tea WHERE id = $1`: restricted while a pair refers to the row. */
  function DeleteTea(s: Store, id: int): (r: (Outcome, Store))
    ensures r.0.Fail? <==> id in s.teas && s.foreignKeys && TeaInUse(s, id)
    ensures r.0.Fail? ==> r == (Fail(ForeignKeyFailed), s)
    ensures r.0.Pass? ==> r.1 == s.(teas := s.teas - {id})
    ensures Inv(s) ==> Inv(r.1)
  {
    if id in s.teas && s.foreignKeys && TeaInUse(s, id) then (Fail(ForeignKeyFailed), s)
    else (Pass, s.(teas := s.teas - {id}))
  }

  // ---------------------------------------------------------------------------
  // Statements on the teaOwners table

  /** `INSERT INTO teaOwners VALUES ($1, $2)`: the composite primary key is checked as the row
      goes in, the two foreign keys when the statement ends. */
  function InsertPair(s: Store, teaId: int, ownerId: int): (r: (Outcome, Store))
    ensures r.0.Pass? <==>
              (teaId, ownerId) !in s.pairs && (s.foreignKeys ==> teaId in s.teas && ownerId in s.owners)
    ensures (teaId, ownerId) in s.pairs ==>
              r == (Fail(UniqueFailed("teaOwners.teaID, teaOwners.ownerID")), s)
    ensures (teaId, ownerId) !in s.pairs && r.0.Fail? ==> r == (Fail(ForeignKeyFailed), s)
    ensures r.0.Pass? ==> r.1 == s.(pairs := s.pairs + {(teaId, ownerId)})
    ensures Inv(s) ==> Inv(r.1)
  {
    if (teaId, ownerId) in s.pairs then (Fail(UniqueFailed("teaOwners.teaID, teaOwners.ownerID")), s)
    else if s.foreignKeys && (teaId !in s.teas || ownerId !in s.owners) then (Fail(ForeignKeyFailed), s)
    else (Pass, s.(pairs := s.pairs + {(teaId, ownerId)}))
  }

  /** `DELETE FROM teaOwners WHERE teaID = $1 AND ownerID = $2`: nothing refers to a pair. */
  function DeletePair(s: Store, teaId: int, ownerId: int): (r: Store)
    ensures r.pairs == s.pairs - {(teaId, ownerId)}
    ensures Inv(s) ==> Inv(r)
  {
    s.(pairs := s.pairs - {(teaId, ownerId)})
  }

  // ---------------------------------------------------------------------------
  // Statements on the user table

  /** `INSERT INTO user(username, password) VALUES ($1, $2)`: the username is the primary key. */
  function InsertUser(s: Store, username: string, password: string): (r: (Outcome, Store))
    ensures r.0.Pass? <==> username !in s.users
    ensures r.0.Fail? ==> r == (Fail(UniqueFailed("user.username")), s)
    ensures r.0.Pass? ==> r.1 == s.(users := s.users[username := password])
    ensures Inv(s) ==> Inv(r.1)
  {
    if username in s.users then (Fail(UniqueFailed("user.username")), s)
    else (Pass, s.(users := s.users[username := password]))
  }

  /** `UPDATE user SET password=$1 WHERE username=$2`: touches the matching row, if any. */
  function UpdateUser(s: Store, username: string, password: string): (r: Store)
    ensures username in s.users ==> r == s.(users := s.users[username := password])
    ensures username !in s.users ==> r == s
    ensures Inv(s) ==> Inv(r)
  {
    if username in s.users then s.(users := s.users[username := password]) else s
  }
}
