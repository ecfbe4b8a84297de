# ExtendedDatabase, modelled in Dafny

A model of the `ExtendedDatabase` record store: an in-memory store of `Person`
records (an `Id` and a `UserName`) held in insertion order in a fixed backing
array of 16 slots, with a count of the occupied slots. It is created empty or
seeded from an array of records, and offers `Add` (rejecting a full store, a
taken user name and a taken id), `Remove` (which drops the most recently added
record), `FindById` (rejecting negative ids), `FindByUsername` (rejecting a null
or empty name) and `Count`.

The store's own implementation file is not part of this model; its behaviour is
taken from its NUnit test suite, `DatabaseExtended.Tests/ExtendedDatabase.Tests.cs`,
which pins every operation down.

- `wrappers.dfy` — `Result` and `Outcome`, the return values that stand in for
  the exceptions the store throws.
- `database_spec.dfy` (module `DatabaseSpec`) — `Person`, the `Error` kinds
  (each mapped by `Thrown()` to the .NET exception type the tests expect:
  `ArgumentException`, `InvalidOperationException`, `ArgumentNullException`,
  `ArgumentOutOfRangeException`), and the behaviour of each operation as a
  function on the sequence of stored records, with lemmas relating them.
- `extended_database.dfy` (module `ExtendedDatabase`) — the class itself: an
  `array<Person>` of 16 slots and a `count` field, an object invariant `Valid()`
  (count within capacity, ids unique, user names unique among occupied slots),
  methods that update the array and count in place, and linear scans with loop
  invariants. Each method is proved equal to its specification function.
- `extended_database_tests.dfy` (module `ExtendedDatabaseTests`) — each test of
  the suite as a method that drives the class, with the test's assertion as its
  postcondition.

## Model

| member | source | states |
|---|---|---|
| `DatabaseSpec.FirstIndex` | DatabaseExtended.Tests/ExtendedDatabase.Tests.cs:117-148 | a front-to-back scan stops at the first record matching the key, or past the end exactly when no record matches |
| `DatabaseSpec.Seeded` | DatabaseExtended.Tests/ExtendedDatabase.Tests.cs:17-43 | seeding fails with an ArgumentException exactly when the seed has more than 16 records; otherwise the store holds the seed in order |
| `DatabaseSpec.Added` | DatabaseExtended.Tests/ExtendedDatabase.Tests.cs:46-82 | Add succeeds exactly when there is a free slot and neither the user name nor the id is stored; it then appends the record and the count grows by one; every failure is an InvalidOperationException |
| `DatabaseSpec.Removed` | DatabaseExtended.Tests/ExtendedDatabase.Tests.cs:84-101 | Remove fails with an InvalidOperationException exactly on an empty store; otherwise the old contents are the new ones plus the dropped last record |
| `DatabaseSpec.LookupById` | DatabaseExtended.Tests/ExtendedDatabase.Tests.cs:127-148 | a negative id fails with ArgumentOutOfRangeException; a non-negative id succeeds exactly when some stored record has it, returning a stored record with that id, and otherwise fails with InvalidOperationException |
| `DatabaseSpec.LookupByUserName` | DatabaseExtended.Tests/ExtendedDatabase.Tests.cs:103-125 | an empty name fails with ArgumentNullException; a non-empty name succeeds exactly when some stored record has it, returning a stored record with that name, and otherwise fails with InvalidOperationException |
| `DatabaseSpec.LookupByIdFindsStored` | DatabaseExtended.Tests/ExtendedDatabase.Tests.cs:141-148 | with unique ids, FindById of a stored record's non-negative id returns that very record |
| `DatabaseSpec.LookupByUserNameFindsStored` | DatabaseExtended.Tests/ExtendedDatabase.Tests.cs:117-125 | with unique user names, FindByUsername of a stored record's non-empty name returns that very record |
| `DatabaseSpec.AddPreservesConsistent` | DatabaseExtended.Tests/ExtendedDatabase.Tests.cs:57-72 | a successful Add keeps the store within capacity with unique ids and unique user names |
| `DatabaseSpec.RemovePreservesConsistent` | DatabaseExtended.Tests/ExtendedDatabase.Tests.cs:91-101 | a successful Remove keeps the store's invariant |
| `DatabaseSpec.RemoveUndoesAdd` | DatabaseExtended.Tests/ExtendedDatabase.Tests.cs:84-101 | Remove after a successful Add restores the previous contents |
| `DatabaseSpec.AddToFullStoreFails` | DatabaseExtended.Tests/ExtendedDatabase.Tests.cs:46-54 | on a store holding 16 records Add fails with the full-store error, whatever the record |
| `DatabaseSpec.AddRejectsDuplicateUserName` | DatabaseExtended.Tests/ExtendedDatabase.Tests.cs:57-63 | Add of a stored user name fails with the duplicate-name error, whatever the id |
| `DatabaseSpec.AddRejectsDuplicateId` | DatabaseExtended.Tests/ExtendedDatabase.Tests.cs:66-72 | Add of a stored id fails, and with a fresh user name the error is the duplicate-id error |
| `DatabaseSpec.AddThenLookup` | DatabaseExtended.Tests/ExtendedDatabase.Tests.cs:117-148 | after a successful Add, FindById of its id and FindByUsername of its name return the added record |
| `DatabaseSpec.RemoveForgetsLast` | DatabaseExtended.Tests/ExtendedDatabase.Tests.cs:91-101 | after Remove, the dropped record's id and user name are no longer found |
| `DatabaseSpec.AddAllConsistent` | DatabaseExtended.Tests/ExtendedDatabase.Tests.cs:75-82 | adding up to 16 records with distinct ids and names one by one succeeds every time and leaves exactly those records, so the count equals the number added |
| `DatabaseSpec.SeededAgreesWithAdds` | DatabaseExtended.Tests/ExtendedDatabase.Tests.cs:17-31 | seeding with distinct records gives the same store as adding them one by one |
| `DatabaseSpec.SeededLookup` | DatabaseExtended.Tests/ExtendedDatabase.Tests.cs:17-31 | after seeding, the count is the seed's length and FindById of each seeded record's id returns that record |
| `ExtendedDatabase.ExtendedDatabase.Empty` | DatabaseExtended.Tests/ExtendedDatabase.Tests.cs:10-14 | the store created without seed records is valid and empty |
| `ExtendedDatabase.ExtendedDatabase.Create` | DatabaseExtended.Tests/ExtendedDatabase.Tests.cs:17-43 | the seeding constructor fails as Seeded does, and otherwise yields a fresh valid store holding the seed |
| `ExtendedDatabase.ExtendedDatabase.Count` | DatabaseExtended.Tests/ExtendedDatabase.Tests.cs:75-82 | Count is the number of stored records and at most 16 |
| `ExtendedDatabase.ExtendedDatabase.IndexOf` | DatabaseExtended.Tests/ExtendedDatabase.Tests.cs:127-148 | the loop over the occupied slots returns the position FirstIndex gives |
| `ExtendedDatabase.ExtendedDatabase.Add` | DatabaseExtended.Tests/ExtendedDatabase.Tests.cs:46-82 | updates the slots and count in place to the contents Added gives, or leaves them unchanged and returns Added's error; keeps the invariant |
| `ExtendedDatabase.ExtendedDatabase.Remove` | DatabaseExtended.Tests/ExtendedDatabase.Tests.cs:84-101 | lowers the count to the contents Removed gives, or fails on an empty store leaving it unchanged; keeps the invariant |
| `ExtendedDatabase.ExtendedDatabase.FindById` | DatabaseExtended.Tests/ExtendedDatabase.Tests.cs:127-148 | returns what LookupById gives for the current contents |
| `ExtendedDatabase.ExtendedDatabase.FindByUsername` | DatabaseExtended.Tests/ExtendedDatabase.Tests.cs:103-125 | returns what LookupByUserName gives for the current contents |
| `ExtendedDatabaseTests.AddPeople` | DatabaseExtended.Tests/ExtendedDatabase.Tests.cs:48-52 | adding n ≤ 16 numbered records to a new store succeeds each time and leaves exactly those records |
| `ExtendedDatabaseTests.CtorAddsInitialPeople` | DatabaseExtended.Tests/ExtendedDatabase.Tests.cs:17-32 | a store seeded with five records has Count five and FindById returns each seeded record |
| `ExtendedDatabaseTests.CtorRejectsTooManyPeople` | DatabaseExtended.Tests/ExtendedDatabase.Tests.cs:34-43 | seeding with seventeen records fails with an ArgumentException |
| `ExtendedDatabaseTests.AddFailsWhenFull` | DatabaseExtended.Tests/ExtendedDatabase.Tests.cs:45-54 | after sixteen Adds a seventeenth fails with an InvalidOperationException |
| `ExtendedDatabaseTests.AddFailsOnDuplicateUserName` | DatabaseExtended.Tests/ExtendedDatabase.Tests.cs:56-63 | adding a stored user name under a new id fails with an InvalidOperationException |
| `ExtendedDatabaseTests.AddFailsOnDuplicateId` | DatabaseExtended.Tests/ExtendedDatabase.Tests.cs:65-72 | adding a stored id again fails with an InvalidOperationException |
| `ExtendedDatabaseTests.AddIncrementsCount` | DatabaseExtended.Tests/ExtendedDatabase.Tests.cs:74-82 | two valid Adds leave Count at two |
| `ExtendedDatabaseTests.RemoveFailsWhenEmpty` | DatabaseExtended.Tests/ExtendedDatabase.Tests.cs:84-88 | Remove on an empty store fails with an InvalidOperationException |
| `ExtendedDatabaseTests.RemoveDropsLastAdded` | DatabaseExtended.Tests/ExtendedDatabase.Tests.cs:90-101 | after three Adds and a Remove, Count is two and FindById of the last id fails with an InvalidOperationException |
| `ExtendedDatabaseTests.FindByUsernameRejectsEmpty` | DatabaseExtended.Tests/ExtendedDatabase.Tests.cs:103-109 | FindByUsername of the empty name fails with an ArgumentNullException |
| `ExtendedDatabaseTests.FindByUsernameFailsWhenAbsent` | DatabaseExtended.Tests/ExtendedDatabase.Tests.cs:111-115 | FindByUsername of an absent name fails with an InvalidOperationException |
| `ExtendedDatabaseTests.FindByUsernameReturnsStored` | DatabaseExtended.Tests/ExtendedDatabase.Tests.cs:117-125 | FindByUsername returns the record added under that name |
| `ExtendedDatabaseTests.FindByIdFailsWhenAbsent` | DatabaseExtended.Tests/ExtendedDatabase.Tests.cs:127-131 | FindById of an absent id fails with an InvalidOperationException |
| `ExtendedDatabaseTests.FindByIdRejectsNegative` | DatabaseExtended.Tests/ExtendedDatabase.Tests.cs:133-139 | FindById of any negative id fails with an ArgumentOutOfRangeException |
| `ExtendedDatabaseTests.FindByIdReturnsStored` | DatabaseExtended.Tests/ExtendedDatabase.Tests.cs:141-148 | FindById returns the record added under that id |

## Left out

- `ExtendedDatabase.ExtendedDatabase.Create`: requires the seed's ids and user names to be distinct and checks only the seed's length; the tests seed only distinct records and assert only the length check, so no re-check for duplicates at seeding is claimed. (A reimplementation is free to add one; this model does not.)
- `ExtendedDatabase.ExtendedDatabase.Create`: C#'s seeding constructor throws; a Dafny constructor cannot fail, so seeding is a static method returning a `Result`, and the no-argument constructor is `Empty`.
- `ExtendedDatabase.ExtendedDatabase.FindByUsername`: a null user name is folded into the empty string; both give the `ArgumentNullException` error. Reference semantics of null are not modelled.
- `ExtendedDatabase.ExtendedDatabase.Remove`: whether the freed slot is also cleared is not visible from the tests; the model only lowers the count, and the freed slot is never read again.
- `ExtendedDatabase.ExtendedDatabase.Add`: the order of the duplicate checks (user name before id) is not observable in the tests, which see only `InvalidOperationException`; the model checks the name first.
- Exception messages and the .NET exception class hierarchy: errors are a datatype, each mapped to the exception type the tests expect.
- `Person.Id` is an unbounded integer; the C# field's width does not matter because the store does no arithmetic on ids.
- The NUnit plumbing (`[SetUp]`, `[Test]`, `[TestCase]`, `Assert.Throws`) and the string interpolation used to name test records: the test methods use numbered names (`Name00`, `Name01`, …) whose only role is to be distinct.
