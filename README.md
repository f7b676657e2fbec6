# Body store model

This project models the reward-record store of the zombie battle site in Dafny. A
reward record is called a "body" in the source. The store lives in `data/bodies.js`.

- Winning a battle creates a body. It copies the defeated human's name, health,
  attack, defense, speed and special, and belongs to the winning player.
- Bodies are kept in one collection per player (`{userId, bodies}`).
- A collection keeps at most 5 bodies. When it is full, the oldest body is shifted
  out before the new one is pushed.
- A body can be looked up by its identifier, and claiming it deletes it.

The source reads the whole table from `data/bodies.json` in every operation,
changes it in memory and writes it back. The model keeps that table in the field
`collections` of the class `Bodies.BodyStore`:

- reading the file is reading the field;
- writing the file is assigning the field;
- a missing file reads as the empty table (the constructor).

Files:

- `body_table.dfy` (module `BodyTable`): the records as datatypes, plus the pure
  meaning of each operation on a table: the lookups, `Generate` for creation and
  `DeleteFromTable` for deletion.
- `body_table_lemmas.dfy` (module `BodyTableLemmas`): what those operations
  guarantee.
- `body_store.dfy` (module `Bodies`): the store as a class. Its methods follow the
  source's loops and in-place updates, and each is proved equal to the pure
  meaning above.

Two behaviours of the source are kept as written, and they show up in the contracts:

- **Index 0 reads as "no collection".** `generateBody` tests `!collectionIndex`,
  which is true both for `false` and for index 0 (`Falsy`). So an owner whose
  collection is first in the table gets one more empty collection on every
  creation. The body still goes into collection 0, because the second lookup
  returns the first match (`GenerateAtIndexZero`). This creation is also the only
  one that breaks "one collection per owner" (`GenerateOwnersUnique`).
- **Deletion skips a body after each removal.** `deleteBodyById` splices inside a
  forward loop without stepping the index back. The body that slides into the
  freed position is never examined (`SpliceScan`). When a collection starts with
  two bodies that share the identifier, one of them survives
  (`DeleteMissesAdjacentDuplicate`). When at most one body carries the identifier,
  deletion removes exactly that body (`DeleteRemovesExactly`).

Three further facts about the source follow from the code alone:

- `generateBody` cannot tell the index 0 apart from "no collection" (data/bodies.js:22).
  The model keeps this through `Falsy`.
- `deleteBodyById` can leave a body carrying the identifier behind (data/bodies.js:43-46).
  What it always does is keep every body with another identifier, in order
  (`DeleteKeepsOthers`).
- `addEmptyCollectionForUserId` appends without checking for an existing collection
  (data/bodies.js:89-96), and so does `AddEmptyCollectionForUserId`.

## Model

| member | source | states |
|---|---|---|
| `Bodies.BodyStore.constructor` | data/bodies.js:104-111 | a missing backing file loads as the empty table; an existing one loads as the table it holds |
| `BodyTable.FirstCollectionIndex` | data/bodies.js:66-74 | the result is the smallest index whose collection belongs to the owner, or None (the source's `false`) exactly when no collection does |
| `Bodies.BodyStore.GetBodyCollectionIndexByUserId` | data/bodies.js:66-74 | the indexed scan with early return gives the first matching index, or None; the table is not changed |
| `BodyTable.FirstBodyIndex` | data/bodies.js:56-60 | the inner scan over one collection gives the smallest position holding the identifier, or None exactly when no body there has it |
| `BodyTable.FindBody` | data/bodies.js:53-63 | a found body carries the identifier and is in the table; None exactly when no body in the table carries it |
| `BodyTableLemmas.FindBodyIsFirst` | data/bodies.js:53-63 | the nested scan returns the same body as one flat scan over all bodies in table order: the first one carrying the identifier |
| `Bodies.BodyStore.GetBodyById` | data/bodies.js:53-63 | the nested loops with early return compute `FindBody` of the current table and change nothing |
| `Bodies.BodyStore.AddEmptyCollectionForUserId` | data/bodies.js:89-96 | exactly one empty collection for the owner is appended at the end, even when the owner already has one; nothing else changes |
| `Bodies.BodyStore.GetBodyCollectionByUserId` | data/bodies.js:77-86 | an existing owner's first collection is returned and the table is unchanged; otherwise one empty collection is appended and returned, after a single recursive step |
| `BodyTable.AppendEvicting` | data/bodies.js:28-31 | a list of at most 5 stays at most 5; the new body is last; below 5 nothing is dropped, and from 5 on only the oldest body is dropped |
| `BodyTable.EnsureCollection` | data/bodies.js:21-25 | after the falsy test and the append, the owner's collection is always found; the old table is a prefix; it grows by one exactly when the lookup was `false` or 0 |
| `Bodies.BodyStore.GenerateBody` | data/bodies.js:6-34 | the returned body has the given id and date, the zombie's owner, and the human's six attributes; the new table is `Generate` of the old one; a bounded table stays bounded |
| `BodyTableLemmas.GenerateForNewOwner` | data/bodies.js:21-31 | for an owner with no collection, exactly one collection holding just the new body is appended at the end and nothing else changes |
| `BodyTableLemmas.GenerateForExistingOwner` | data/bodies.js:27-31 | for an owner found past index 0, no collection is added and only that owner's list changes, by shift-when-full then push |
| `BodyTableLemmas.GenerateAtIndexZero` | data/bodies.js:22-24 | for an owner whose collection is first, an extra empty collection is appended, while the body goes into collection 0 |
| `BodyTableLemmas.GenerateKeepsCapacity` | data/bodies.js:28-31 | if every collection holds at most 5 bodies before a creation, every collection holds at most 5 after it |
| `BodyTableLemmas.GenerateOwnersUnique` | data/bodies.js:21-25 | starting from one collection per owner, creation keeps that property exactly when the owner's collection is not at index 0 |
| `BodyTableLemmas.GenerateCount` | data/bodies.js:27-31 | for every identifier, creation adds the new body and removes only the evicted oldest body of a full list; every other body is kept |
| `BodyTableLemmas.GenerateThenFind` | data/bodies.js:9-31 | a body created with a fresh identifier is what the lookup by id then returns |
| `BodyTableLemmas.GenerateEvictsOldest` | data/bodies.js:28-29 | with unique identifiers and a fresh new one, the oldest body of a full list can no longer be found after a creation |
| `BodyTableLemmas.GenerateKeepsUniqueIds` | data/bodies.js:7-31 | with a fresh identifier, creation keeps identifiers unique |
| `BodyTable.Generate` | data/bodies.js:21-31 | the table `generateBody` saves: no collection is dropped or changes owner, at most one collection (the owner's) is appended, and the owner's first collection now ends with the new body |
| `BodyTable.SpliceScan` | data/bodies.js:43-47 | the splicing loop over one collection never lengthens it, never adds a body, and leaves the part already passed unchanged |
| `BodyTable.SpliceScanKeepsOthers` | data/bodies.js:43-47 | on every list, duplicates or not, the splicing loop keeps exactly the bodies with other identifiers, in their order: it removes only bodies carrying the identifier |
| `BodyTable.DeleteFromCollection` | data/bodies.js:43-47 | one collection's pass keeps its owner, never grows, and holds no body it did not hold before |
| `BodyTable.Without` | data/bodies.js:40-50 | the reference removal keeps exactly the bodies that do not carry the identifier |
| `BodyTable.DeleteFromTable` | data/bodies.js:40-50 | deletion adds, drops or reorders no collection, keeps every owner in place, and never lengthens a collection |
| `Bodies.BodyStore.DeleteBodyById` | data/bodies.js:40-50 | the nested loops with in-place splicing compute `DeleteFromTable` of the old table; a bounded table stays bounded |
| `BodyTableLemmas.SpliceScanRemovesOne` | data/bodies.js:43-47 | when at most one body from the current position on carries the identifier, the splicing loop removes just that one and keeps the rest in order |
| `BodyTableLemmas.DeleteMissesAdjacentDuplicate` | data/bodies.js:43-46 | when a collection starts with two bodies that share the identifier, the second survives the delete and the lookup still finds a body |
| `BodyTableLemmas.DeleteAbsentIsNoop` | data/bodies.js:40-50 | deleting an identifier that no body carries leaves the table unchanged |
| `BodyTableLemmas.DeleteRemovesExactly` | data/bodies.js:40-50 | when at most one body carries the identifier, all bodies after deletion are the old ones minus that body, in their old order |
| `BodyTableLemmas.DeleteKeepsOthers` | data/bodies.js:40-50 | on every table, duplicates or not, deletion keeps every body with another identifier, in table order |
| `BodyTableLemmas.DeleteThenNotFound` | data/bodies.js:40-50 | when at most one body carries the identifier, it cannot be found after deletion |
| `BodyTableLemmas.DeleteIdempotent` | data/bodies.js:40-50 | when at most one body carries the identifier, a second identical delete changes nothing |
| `BodyTableLemmas.DeleteKeepsCapacity` | data/bodies.js:40-50 | deletion keeps every collection within 5 bodies if it was before |
| `Bodies.BodyStore.Claim` | index.js:212-226 | the claim returns what the lookup by id finds; it deletes by that identifier only when a body was found; with unique identifiers the claimed body is gone afterwards |

## Left out

- Reading and writing `data/bodies.json` (`fs.existsSync`, `readFileSync`, `writeFileSync`, `JSON.parse`/`JSON.stringify`). The table is the field `collections`, and a failed read or write is not modelled.
- `crypto.randomBytes(16)` for the identifier and `new Date()` for the date string, including its zero-based month. Both are parameters of `GenerateBody`. Whether the identifier is fresh is a requirement of the lemmas that need it.
- `async`/`await` and concurrent requests. The model is sequential, so the read-modify-write race between requests is not captured.
- `getAllBodyCollections` and `readJson` are the read of the field, and `saveJson` is its assignment. They have no separate members.
- The Express routes, authentication, sessions and rendering in `index.js`, and `config/keys.js`. Only the lookup-then-delete of the claim route is modelled (`Claim`).
- `userZombies.replaceZombieForUserWithBody`, the battle, and the opponent and account stores are not part of this model. `Claim` returns the found body for the caller to apply.
- The JSON types of the copied attributes are not modelled. Health, attack, defense and speed are integers, and name, special and identifiers are strings.
- BodyTableLemmas.DeleteRemovesExactly: stated only when at most one body carries the identifier, because the source's loop can leave a duplicate behind (see `DeleteMissesAdjacentDuplicate`).
- BodyTableLemmas.DeleteThenNotFound: stated only when at most one body carries the identifier, for the same reason.
- BodyTableLemmas.DeleteIdempotent: stated only when at most one body carries the identifier, for the same reason.
- BodyTableLemmas.SpliceScanRemovesOne: stated only when at most one body from the current position on carries the identifier, for the same reason.
- Bodies.BodyStore.Claim: its "gone afterwards" clause is stated only when at most one body carries the identifier, for the same reason.
