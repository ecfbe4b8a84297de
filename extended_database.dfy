/**
  The ExtendedDatabase record store: a fixed backing array of sixteen Person
  slots and a count of the occupied ones, which Add and Remove update in place.
  Every operation is proved to agree with its specification in DatabaseSpec.
*/
module ExtendedDatabase {
  import opened Wrappers
  import opened DatabaseSpec

  class ExtendedDatabase {
    var persons: array<Person>
    var count: nat

    /** The object invariant: the occupied slots are persons[..count] and hold consistent records. */
    ghost predicate Valid()
      reads this, persons
    {
      persons.Length == CAPACITY && count <= CAPACITY && Consistent(persons[..count])
    }

    /** The records the store holds, in insertion order. */
    ghost function Contents(): seq<Person>
      reads this, persons
      requires Valid()
    {
      persons[..count]
    }

    /** The store created with no seed records. */
    constructor Empty()
      ensures Valid() && fresh(persons)
      ensures Contents() == []
    {
      persons := new Person[CAPACITY];
      count := 0;
    }

    /**
      The seeding constructor: fails when the seed has more records than there
      are slots, and otherwise copies the seed into the slots in order. It does
      not re-check the seed for duplicates; its callers supply distinct records.
    */
    static method Create(seed: seq<Person>) returns (r: Result<ExtendedDatabase, Error>)
      requires UniqueIds(seed) && UniqueUserNames(seed)
      ensures r.Failure? <==> Seeded(seed).Failure?
      ensures r.Failure? ==> r.error == Seeded(seed).error
      ensures r.Success? ==> fresh(r.value) && fresh(r.value.persons) && r.value.Valid()
      ensures r.Success? ==> r.value.Contents() == Seeded(seed).value
    {
      if |seed| > CAPACITY {
        return Failure(CapacityExceeded);
      }
      var db := new ExtendedDatabase.Empty();
      var i := 0;
      while i < |seed|
        invariant i <= |seed|
        invariant fresh(db.persons) && db.persons.Length == CAPACITY && db.count == 0
        invariant db.persons[..i] == seed[..i]
      {
        db.persons[i] := seed[i];
        i := i + 1;
      }
      db.count := |seed|;
      assert db.persons[..|seed|] == seed[..|seed|] == seed;
      r := Success(db);
    }

    /** The number of records held. */
    function Count(): (n: nat)
      reads this, persons
      requires Valid()
      ensures n == |Contents()| && n <= CAPACITY
    {
      count
    }

    /** Scans the occupied slots front to back for the first record matching `key`. */
    method IndexOf(key: Key) returns (k: nat)
      requires Valid()
      ensures k == FirstIndex(Contents(), key)
      ensures k <= Count()
    {
      k := 0;
      while k < count && !Matches(persons[k], key)
        invariant k <= count
        invariant forall j :: 0 <= j < k ==> !Matches(persons[j], key)
      {
        k := k + 1;
      }
      ghost var s := Contents();
      assert forall j :: 0 <= j < k ==> !Matches(s[j], key);
      assert k < count ==> Matches(s[k], key);
    }

    /** Adds `p` in the next free slot, unless the store is full or `p`'s user name or id is taken. */
    method Add(p: Person) returns (outcome: Outcome<Error>)
      requires Valid()
      modifies this, persons
      ensures Valid() && persons == old(persons)
      ensures Added(old(Contents()), p).Success? ==>
        outcome == Pass && Contents() == Added(old(Contents()), p).value
      ensures Added(old(Contents()), p).Failure? ==>
        outcome == Fail(Added(old(Contents()), p).error) && Contents() == old(Contents())
    {
      if count == CAPACITY {
        return Fail(StoreFull);
      }
      var k := IndexOf(ByUserName(p.userName));
      if k < count {
        return Fail(DuplicateUserName);
      }
      k := IndexOf(ById(p.id));
      if k < count {
        return Fail(DuplicateId);
      }
      ghost var s := Contents();
      AddPreservesConsistent(s, p);
      persons[count] := p;
      count := count + 1;
      assert Contents() == s + [p];
      outcome := Pass;
    }

    /** Drops the most recently added record, unless the store is empty. */
    method Remove() returns (outcome: Outcome<Error>)
      requires Valid()
      modifies this
      ensures Valid() && persons == old(persons)
      ensures Removed(old(Contents())).Success? ==>
        outcome == Pass && Contents() == Removed(old(Contents())).value
      ensures Removed(old(Contents())).Failure? ==>
        outcome == Fail(StoreEmpty) && Contents() == old(Contents())
    {
      if count == 0 {
        return Fail(StoreEmpty);
      }
      ghost var s := Contents();
      RemovePreservesConsistent(s);
      count := count - 1;
      assert Contents() == s[..|s| - 1];
      outcome := Pass;
    }

    /** The stored record with id `id`; negative ids are rejected before the scan. */
    method FindById(id: int) returns (r: Result<Person, Error>)
      requires Valid()
      ensures r == LookupById(Contents(), id)
    {
      if id < 0 {
        return Failure(NegativeId);
      }
      var k := IndexOf(ById(id));
      if k < count {
        r := Success(persons[k]);
      } else {
        r := Failure(NotFound);
      }
    }

    /** The stored record with user name `name`; an empty name is rejected before the scan. */
    method FindByUsername(name: string) returns (r: Result<Person, Error>)
      requires Valid()
      ensures r == LookupByUserName(Contents(), name)
    {
      if name == "" {
        return Failure(MissingUserName);
      }
      var k := IndexOf(ByUserName(name));
      if k < count {
        r := Success(persons[k]);
      } else {
        r := Failure(NotFound);
      }
    }
  }
}
