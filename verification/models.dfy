/** The records the data layer fills in and hands to its callers. */
module Models {

  /** A category of tea. */
  datatype TeaType = TeaType(id: int, name: string)

  /** A tea together with its type, denormalised with the type's name on read. */
  datatype Tea = Tea(id: int, name: string, teaType: TeaType)

  /** Someone who holds teas. */
  datatype Owner = Owner(id: int, name: string)

  /** One tea and everyone who owns it. */
  datatype TeaWithOwners = TeaWithOwners(tea: Tea, owners: seq<Owner>)

  /** One tea type and every tea of that type. */
  datatype TypeWithTeas = TypeWithTeas(teaType: TeaType, teas: seq<Tea>)

  /** One owner and every tea they own. */
  datatype OwnerWithTeas = OwnerWithTeas(owner: Owner, teas: seq<Tea>)

  /** A username and its (already hashed) password. */
  datatype UserLogin = UserLogin(username: string, password: string)

  /** Tea ids strictly increase along `list`. */
  predicate IdsAscending(list: seq<Tea>) {
    forall i, j :: 0 <= i < j < |list| ==> list[i].id < list[j].id
  }

  /** In an ascending list the front is ascending too, and every id in it is below the last one. */
  lemma IdsAscendingFront(list: seq<Tea>)
    requires |list| > 0 && IdsAscending(list)
    ensures IdsAscending(list[..|list| - 1])
    ensures forall x :: x in list[..|list| - 1] ==> x.id < list[|list| - 1].id
  {
  }

  /** Appending a tea whose id tops every id of an ascending list keeps it ascending. */
  lemma IdsAscendingSnoc(list: seq<Tea>, t: Tea)
    requires IdsAscending(list) && forall x :: x in list ==> x.id < t.id
    ensures IdsAscending(list + [t])
  {
    var r := list + [t];
    forall i, j | 0 <= i < j < |r| ensures r[i].id < r[j].id {
      if j == |list| {
        assert r[i] in list;
      }
    }
  }

  /** The tea a Go caller gets from `new(models.Tea)`: every field at its zero value. */
  const ZeroTea := Tea(0, "", TeaType(0, ""))
}
