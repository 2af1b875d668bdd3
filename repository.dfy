/**
 * The generic repository, instantiated at its one entity, User. The database
 * table is a sequence of rows in insertion order and an identity counter that
 * hands out the next id. The interface's documented promises and the
 * implementation's behaviour are the contracts of the class below.
 */
module Repositories {
  import opened Wrappers
  import opened Entities
  import opened Queries

  /** The lookup condition of FindAsync(id). */
  function HasId(id: int): User -> bool {
    (u: User) => u.id == id
  }

  ghost predicate UniqueIds(s: seq<User>) {
    forall i, j :: 0 <= i < j < |s| ==> s[i].id != s[j].id
  }

  /** SetValues on the row with that id: every value of `e` except the key; the other rows stay. */
  function ReplaceId(s: seq<User>, id: int, e: User): (r: seq<User>)
    ensures |r| == |s|
    ensures forall i :: 0 <= i < |s| ==> r[i] == if s[i].id == id then e.(id := id) else s[i]
  {
    if s == [] then []
    else [if s[0].id == id then e.(id := id) else s[0]] + ReplaceId(s[1..], id, e)
  }

  /** Replacing the values of an id that no row has changes nothing. */
  lemma ReplaceAbsentId(s: seq<User>, id: int, e: User)
    requires forall i :: 0 <= i < |s| ==> s[i].id != id
    ensures ReplaceId(s, id, e) == s
  {
  }

  class Repository {
    /** The stored rows, in insertion order. */
    var users: seq<User>
    /** The value the identity column assigns next. */
    var nextId: int

    /** Ids are unique and were all handed out by the counter, which starts at 1. */
    ghost predicate Valid()
      reads this
    {
      && 1 <= nextId
      && UniqueIds(users)
      && forall i :: 0 <= i < |users| ==> 1 <= users[i].id < nextId
    }

    /** An empty table. */
    constructor ()
      ensures Valid() && users == [] && nextId == 1
    {
      users := [];
      nextId := 1;
    }

    /** GetAllAsync: every stored row, in store order; each listed row is the one GetByIdAsync finds for its id. */
    function GetAll(): (r: seq<User>)
      reads this
      ensures Valid() ==> forall i :: 0 <= i < |r| ==> GetById(r[i].id) == Some(r[i])
      ensures Valid() ==> forall id :: GetById(id).Some? ==> GetById(id).value in r
    {
      users
    }

    /** GetByIdAsync: the row with that id if there is one, otherwise None. */
    function GetById(id: int): (r: Option<User>)
      reads this
      requires Valid()
      ensures r.None? <==> forall i :: 0 <= i < |users| ==> users[i].id != id
      ensures r.Some? ==> r.value in users && r.value.id == id
    {
      FirstWhere(users, HasId(id))
    }

    /** GetByWhereAsync: the rows that satisfy the predicate, in store order. */
    function GetByWhere(condition: User -> bool): (r: seq<User>)
      reads this
      ensures forall i :: 0 <= i < |r| ==> r[i] in users && condition(r[i])
      ensures forall i :: 0 <= i < |users| && condition(users[i]) ==> users[i] in r
    {
      Filter(users, condition)
    }

    /** GetOneByWhereAsync: the first row that satisfies the predicate, or None when none does. */
    function GetOneByWhere(condition: User -> bool): (r: Option<User>)
      reads this
      ensures r.None? <==> forall i :: 0 <= i < |users| ==> !condition(users[i])
      ensures r.Some? ==> r.value in users && condition(r.value)
      ensures r == if GetByWhere(condition) == [] then None else Some(GetByWhere(condition)[0])
    {
      FirstWhereIsHeadOfFilter(users, condition);
      FirstWhere(users, condition)
    }

    /**
     * AddAsync: the entity is stored as a new last row under a fresh id, which
     * is also written back into the entity (returned as `stored`).
     */
    method Add(entity: User) returns (stored: User)
      requires Valid()
      modifies this
      ensures Valid()
      ensures stored == entity.(id := old(nextId))
      ensures users == old(users) + [stored]
      ensures forall i :: 0 <= i < |old(users)| ==> old(users)[i].id != stored.id
      ensures nextId == old(nextId) + 1
    {
      stored := entity.(id := nextId);
      users := users + [stored];
      nextId := nextId + 1;
    }

    /** DeleteAsync: removes the row with that id; does nothing when there is none. */
    method Delete(id: int)
      requires Valid()
      modifies this
      ensures Valid() && nextId == old(nextId)
      ensures old(GetById(id)).None? ==> users == old(users)
      ensures old(GetById(id)).Some? ==>
        exists k :: 0 <= k < |old(users)| && old(users)[k].id == id
                    && users == old(users)[..k] + old(users)[k + 1..]
      ensures GetById(id).None?
    {
      var existing := GetById(id);
      if existing.Some? {
        var k := FirstIndex(users, HasId(id));
        ghost var before := users;
        users := users[..k] + users[k + 1..];
        assert forall i :: 0 <= i < |users| ==> users[i] == if i < k then before[i] else before[i + 1];
      }
    }

    /** UpdateAsync: gives the row with that id the entity's values; does nothing when there is none. */
    method Update(id: int, entity: User)
      requires Valid()
      modifies this
      ensures Valid() && nextId == old(nextId)
      ensures old(GetById(id)).None? ==> users == old(users)
      ensures old(GetById(id)).Some? ==> users == ReplaceId(old(users), id, entity)
    {
      var existing := GetById(id);
      if existing.Some? {
        users := ReplaceId(users, id, entity);
      }
    }
  }
}
