/** The tea/owner association: who owns a tea, the teas-with-owners view, and adding and
    removing an owner of a tea, with the insert's errors reworded for the caller. */
module Ownership {
  import opened Models
  import opened Tables
  import opened Teas
  import opened Owners
  import opened Rows
  import opened Strings
  import opened Wrappers

  /** The owners of `list` that hold tea `teaId`, in the list's order. */
  function Holding(list: seq<Owner>, pairs: set<(int, int)>, teaId: int): (r: seq<Owner>)
    ensures forall o :: o in r <==> o in list && (teaId, o.id) in pairs
    decreases |list|
  {
    if |list| == 0 then []
    else
      var n := |list| - 1;
      SnocMembers(list);
      Holding(list[..n], pairs, teaId) + (if (teaId, list[n].id) in pairs then [list[n]] else [])
  }

  /** `SELECT owner.id, owner.name FROM teaOwners INNER JOIN owner ... WHERE teaOwners.teaID = $1`:
      the owners paired with the tea, which is empty, and no error, for a tea nobody owns or
      that does not exist. */
  function GetTeaOwners(s: Store, tea: Tea): (r: seq<Owner>)
    ensures forall o :: o in r <==>
              1 <= o.id <= s.ownerSeq && o.id in s.owners && s.owners[o.id] == o.name && (tea.id, o.id) in s.pairs
  {
    Holding(GetAllOwners(s), s.pairs, tea.id)
  }

  /** Every tea with its owners: one query for the joined teas, then one per tea. */
  method GetAllTeaOwners(s: Store) returns (r: seq<TeaWithOwners>)
    ensures |r| == |GetAllTeas(s)|
    ensures forall i :: 0 <= i < |r| ==> r[i].tea == GetAllTeas(s)[i]
    ensures forall i :: 0 <= i < |r| ==> r[i].owners == GetTeaOwners(s, r[i].tea)
  {
    var teas := GetAllTeas(s);
    r := [];
    var i := 0;
    while i < |teas|
      invariant 0 <= i <= |teas|
      invariant |r| == i
      invariant forall j :: 0 <= j < i ==> r[j] == TeaWithOwners(teas[j], GetTeaOwners(s, teas[j]))
    {
      var owners := GetTeaOwners(s, teas[i]);
      r := r + [TeaWithOwners(teas[i], owners)];
      i := i + 1;
    }
  }

  const UniqueText := "UNIQUE constraint failed"
  const ForeignKeyText := "FOREIGN KEY constraint failed"
  const Duplicate := "This relationship already exists"
  const Dangling := "Either the tea or owner ID do not exist in the database"

  /** Rewords an association-insert error by the text it carries: the UNIQUE text first, then
      the FOREIGN KEY text; any other error passes through as it is. */
  function ClassifyPairInsertError(e: DbError): (r: DbError)
    ensures Contains(e.Text(), UniqueText) ==> r == Message(Duplicate)
    ensures !Contains(e.Text(), UniqueText) && Contains(e.Text(), ForeignKeyText) ==> r == Message(Dangling)
    ensures !Contains(e.Text(), UniqueText) && !Contains(e.Text(), ForeignKeyText) ==> r == e
  {
    if Contains(e.Text(), UniqueText) then Message(Duplicate)
    else if Contains(e.Text(), ForeignKeyText) then Message(Dangling)
    else e
  }

  /** `INSERT INTO teaOwners VALUES ($1, $2)`, then the tea read back by id joined with its type.
      Every failure hands back the zero tea. */
  function CreateTeaOwner(s: Store, teaId: int, owner: Owner): (r: Reply<Tea>)
    ensures (teaId, owner.id) in s.pairs ==> r == Reply(Fail(Message(Duplicate)), ZeroTea, s)
    ensures (teaId, owner.id) !in s.pairs && s.foreignKeys && (teaId !in s.teas || owner.id !in s.owners) ==>
              r == Reply(Fail(Message(Dangling)), ZeroTea, s)
    ensures r.outcome.Pass? <==>
              (teaId, owner.id) !in s.pairs && (s.foreignKeys ==> teaId in s.teas && owner.id in s.owners)
              && JoinedTea(s, teaId).Some?
    ensures r.outcome.Pass? ==>
              r.value == JoinedTea(s, teaId).value && r.store == s.(pairs := s.pairs + {(teaId, owner.id)})
    ensures (teaId, owner.id) !in s.pairs && (s.foreignKeys ==> teaId in s.teas && owner.id in s.owners)
            && JoinedTea(s, teaId).None? ==>
              r == Reply(Fail(Message(IdMissing)), ZeroTea, s.(pairs := s.pairs + {(teaId, owner.id)}))
    ensures r.outcome.Fail? ==> r.value == ZeroTea
    ensures Inv(s) ==> Inv(r.store)
  {
    var (o, s1) := InsertPair(s, teaId, owner.id);
    if o.Fail? then
      var reworded := ClassifyPairInsertError(o.error);
      if o.error.UniqueFailed? then
        UniqueClassified(o.error.columns);
        Reply(Fail(reworded), ZeroTea, s)
      else
        ForeignKeyClassified(o.error);
        Reply(Fail(reworded), ZeroTea, s)
    else
      assert JoinedTea(s1, teaId) == JoinedTea(s, teaId);
      match JoinedTea(s1, teaId)
      case None => Reply(Fail(Message(IdMissing)), ZeroTea, s1)
      case Some(x) => Reply(Pass, x, s1)
  }

  /** `DELETE FROM teaOwners WHERE teaID = $1 AND ownerID = $2`. The rows affected are never
      looked at, so removing an absent pair reports success as well. */
  function DeleteTeaOwner(s: Store, tea: Tea, owner: Owner): (r: (Outcome, Store))
    ensures r.0 == Pass
    ensures r.1.pairs == s.pairs - {(tea.id, owner.id)}
    ensures r.1 == s.(pairs := r.1.pairs)
    ensures Inv(s) ==> Inv(r.1)
  {
    (Pass, DeletePair(s, tea.id, owner.id))
  }

  // ---------------------------------------------------------------------------
  // Properties

  /** A UNIQUE violation is reported as an existing relationship. */
  lemma UniqueClassified(columns: string)
    ensures ClassifyPairInsertError(UniqueFailed(columns)) == Message(Duplicate)
  {
    var text := UniqueFailed(columns).Text();
    assert text[..|UniqueText|] == UniqueText;
    ContainsPrefix(text, UniqueText);
  }

  /** A FOREIGN KEY violation is reported as a missing tea or owner: its text does not hold the
      UNIQUE text (it has no 'U' at all), and it does hold the FOREIGN KEY text. */
  lemma ForeignKeyClassified(e: DbError)
    requires e == ForeignKeyFailed
    ensures ClassifyPairInsertError(e) == Message(Dangling)
  {
    ForeignKeyLacksUnique(e.Text());
    ForeignKeyHoldsForeignKey(e.Text());
  }

  lemma ForeignKeyLacksUnique(text: string)
    requires text == ForeignKeyFailed.Text()
    ensures !Contains(text, UniqueText)
  {
    NotContainsMissingChar(text, UniqueText);
  }

  lemma ForeignKeyHoldsForeignKey(text: string)
    requires text == ForeignKeyFailed.Text()
    ensures Contains(text, ForeignKeyText)
  {
    ContainsPrefix(text, ForeignKeyText);
  }

  /** Errors that carry neither text pass through unchanged. */
  lemma OtherErrorsPassThrough(e: DbError)
    requires e.SyntaxError? || e.NoRows? || e.RowsClosed?
    ensures ClassifyPairInsertError(e) == e
  {
    assert !Contains(e.Text(), UniqueText) && !Contains(e.Text(), ForeignKeyText) by {
      if e.SyntaxError? {
        NeitherText("syntax error");
      } else if e.NoRows? {
        NeitherText("sql: no rows in result set");
      } else {
        NeitherText("sql: Rows are closed");
      }
    }
  }

  /** A text with no 'U' and no 'F' holds neither constraint text. */
  lemma NeitherText(text: string)
    requires forall k :: 0 <= k < |text| ==> text[k] != 'U' && text[k] != 'F'
    ensures !Contains(text, UniqueText) && !Contains(text, ForeignKeyText)
  {
    NotContainsMissingChar(text, UniqueText);
    NotContainsMissingChar(text, ForeignKeyText);
  }

  /** Adding the same owner to the same tea twice: the second attempt reports an existing
      relationship and changes nothing. */
  lemma CreateTwiceDuplicate(s: Store, teaId: int, owner: Owner)
    requires CreateTeaOwner(s, teaId, owner).outcome.Pass?
    ensures var s1 := CreateTeaOwner(s, teaId, owner).store;
            CreateTeaOwner(s1, teaId, owner) == Reply(Fail(Message(Duplicate)), ZeroTea, s1)
  {
  }

  /** In a consistent store, pairing an existing tea with an existing owner succeeds, returns
      the tea with its type, and lists the owner among the tea's owners afterwards. */
  lemma CreateThenOwnersOfTea(s: Store, teaId: int, owner: Owner)
    requires Inv(s) && teaId in s.teas && owner.id in s.owners && (teaId, owner.id) !in s.pairs
    ensures var r := CreateTeaOwner(s, teaId, owner);
            && r.outcome.Pass?
            && r.value.id == teaId && r.value.name == s.teas[teaId].name
            && Owner(owner.id, s.owners[owner.id]) in GetTeaOwners(r.store, r.value)
  {
  }

  /** With foreign keys off, pairing a tea that does not exist stores the pair and only then
      fails the read-back: the caller is told the tea was not found, yet the dangling pair stays. */
  lemma DanglingPairKept(s: Store, teaId: int, owner: Owner)
    requires !s.foreignKeys && teaId !in s.teas && (teaId, owner.id) !in s.pairs
    ensures var r := CreateTeaOwner(s, teaId, owner);
            && r.outcome == Fail(Message(IdMissing))
            && (teaId, owner.id) in r.store.pairs
            && !PairsExist(r.store)
  {
  }

  /** After removing an owner from a tea, the owner is no longer among the tea's owners, and
      every other owner of the tea still is. */
  lemma DeleteThenOwnersOfTea(s: Store, tea: Tea, owner: Owner, other: Owner)
    requires other.id != owner.id
    ensures var s1 := DeleteTeaOwner(s, tea, owner).1;
            && (forall o :: o in GetTeaOwners(s1, tea) ==> o.id != owner.id)
            && (other in GetTeaOwners(s, tea) <==> other in GetTeaOwners(s1, tea))
  {
  }

  /** Removing a pair that is not there changes nothing. */
  lemma DeleteAbsentPair(s: Store, tea: Tea, owner: Owner)
    requires (tea.id, owner.id) !in s.pairs
    ensures DeleteTeaOwner(s, tea, owner) == (Pass, s)
  {
    assert s.pairs - {(tea.id, owner.id)} == s.pairs;
  }

  /** Owners nobody pairs with tea `teaId` yield an empty list. */
  lemma {:induction false} NoneHolding(list: seq<Owner>, pairs: set<(int, int)>, teaId: int)
    requires forall o :: o in list ==> (teaId, o.id) !in pairs
    ensures Holding(list, pairs, teaId) == []
    decreases |list|
  {
    if |list| > 0 {
      var n := |list| - 1;
      assert list[n] in list;
      assert forall o :: o in list[..n] ==> o in list;
      NoneHolding(list[..n], pairs, teaId);
    }
  }

  /** In a consistent store an unknown tea has no owners: the lookup gives an empty list. */
  lemma UnknownTeaNoOwners(s: Store, tea: Tea)
    requires Inv(s) && tea.id !in s.teas
    ensures GetTeaOwners(s, tea) == []
  {
    NoneHolding(GetAllOwners(s), s.pairs, tea.id);
  }

  /** In a consistent store every pair shows up in the teas-with-owners view: its tea is
      listed, and its owner is among that tea's owners. */
  lemma PairsListed(s: Store, p: (int, int))
    requires Inv(s) && p in s.pairs
    ensures JoinedTea(s, p.0).Some?
    ensures JoinedTea(s, p.0).value in GetAllTeas(s)
    ensures Owner(p.1, s.owners[p.1]) in GetTeaOwners(s, JoinedTea(s, p.0).value)
  {
  }
}
