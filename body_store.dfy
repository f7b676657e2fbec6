/** The body store of data/bodies.js. Every exported function there reads the whole
    table from the backing file, changes it in memory and writes it back; here the
    file is the field `collections`, reading it is reading the field and saving is
    assigning it. */
module Bodies {
  import opened BodyTable
  import opened BodyTableLemmas

  class BodyStore {
    /** The table held in the backing file. */
    var collections: Table

    /** The first read of the backing file: a missing file (None) reads as an empty
        table, an existing one as the table it holds. */
    constructor (saved: Option<Table>)
      ensures saved.None? ==> collections == []
      ensures saved.Some? ==> collections == saved.value
    {
      collections := if saved.Some? then saved.value else [];
    }

    /** `getBodyCollectionIndexByUserId`: the position of the owner's first
        collection, or None where the source returns `false`. */
    method GetBodyCollectionIndexByUserId(userId: UserId) returns (index: Option<nat>)
      ensures index == FirstCollectionIndex(collections, userId)
    {
      var i := 0;
      while i < |collections|
        invariant 0 <= i <= |collections|
        invariant forall j :: 0 <= j < i ==> collections[j].userId != userId
      {
        if collections[i].userId == userId {
          return Some(i);
        }
        i := i + 1;
      }
      return None;
    }

    /** `getBodyById`: the first body with identifier `id`, scanning collections in
        order and bodies in order within each; None where the source returns `false`. */
    method GetBodyById(id: BodyId) returns (found: Option<Body>)
      ensures found == FindBody(collections, id)
    {
      var i := 0;
      while i < |collections|
        invariant 0 <= i <= |collections|
        invariant FindBody(collections, id) == FindBody(collections[i..], id)
      {
        var bodies := collections[i].bodies;
        var ii := 0;
        while ii < |bodies|
          invariant 0 <= ii <= |bodies|
          invariant forall k :: 0 <= k < ii ==> bodies[k].id != id
        {
          if bodies[ii].id == id {
            assert collections[i..][0] == collections[i];
            return Some(bodies[ii]);
          }
          ii := ii + 1;
        }
        assert collections[i..][0] == collections[i] && collections[i..][1..] == collections[i + 1..];
        i := i + 1;
      }
      assert collections[i..] == [];
      return None;
    }

    /** `addEmptyCollectionForUserId`: append an empty collection for `userId`,
        whether or not the owner already has one. */
    method AddEmptyCollectionForUserId(userId: UserId)
      modifies this
      ensures collections == old(collections) + [Collection(userId, [])]
    {
      collections := collections + [Collection(userId, [])];
    }

    /** `getBodyCollectionByUserId`: the owner's first collection; when there is none,
        one empty collection is appended and the lookup is repeated, which then
        succeeds, so the recursion stops after one step. */
    method GetBodyCollectionByUserId(userId: UserId) returns (c: Collection)
      modifies this
      ensures c.userId == userId
      ensures old(FirstCollectionIndex(collections, userId)).Some? ==>
        collections == old(collections) && c == collections[old(FirstCollectionIndex(collections, userId)).value]
      ensures old(FirstCollectionIndex(collections, userId)).None? ==>
        collections == old(collections) + [Collection(userId, [])] && c == Collection(userId, [])
      decreases if FirstCollectionIndex(collections, userId).Some? then 0 else 1
    {
      var index := GetBodyCollectionIndexByUserId(userId);
      if index.Some? {
        return collections[index.value];
      }
      ghost var before := collections;
      AddEmptyCollectionForUserId(userId);
      assert collections[|before|].userId == userId;
      c := GetBodyCollectionByUserId(userId);
    }

    /** `generateBody`: a new body copied from `human` for the owner of `zombie`,
        pushed onto the owner's collection after shifting out the oldest body when
        the collection already holds MaxBodies. The identifier and the date string
        are the values the source draws from its random source and its clock. */
    method GenerateBody(zombie: Zombie, human: Human, id: BodyId, since: string) returns (body: Body)
      modifies this
      ensures body.id == id && body.userId == zombie.userId && body.since == since
      ensures body.name == human.name && body.health == human.health && body.attack == human.attack
      ensures body.defense == human.defense && body.speed == human.speed && body.special == human.special
      ensures collections == Generate(old(collections), body)
      ensures Bounded(old(collections)) ==> Bounded(collections)
    {
      body := Body(id, zombie.userId, human.name, human.health, human.attack,
                   human.defense, human.speed, human.special, since);
      var collectionIndex := GetBodyCollectionIndexByUserId(zombie.userId);
      if Falsy(collectionIndex) {
        AddEmptyCollectionForUserId(zombie.userId);
        collectionIndex := GetBodyCollectionIndexByUserId(zombie.userId);
      }
      assert collections == EnsureCollection(old(collections), zombie.userId);
      var k := collectionIndex.value;
      var bodies := collections[k].bodies;
      if |bodies| >= MaxBodies {
        bodies := bodies[1..];
      }
      bodies := bodies + [body];
      collections := collections[k := collections[k].(bodies := bodies)];
      if Bounded(old(collections)) {
        GenerateKeepsCapacity(old(collections), body);
      }
    }

    /** `deleteBodyById`: every collection is scanned once and each matching body is
        spliced out, the scan then moving past the body that took its place. */
    method DeleteBodyById(bodyId: BodyId)
      modifies this
      ensures collections == DeleteFromTable(old(collections), bodyId)
      ensures Bounded(old(collections)) ==> Bounded(collections)
    {
      ghost var t := collections;
      var i := 0;
      while i < |collections|
        invariant 0 <= i <= |collections| == |t|
        invariant forall j :: 0 <= j < i ==> collections[j] == DeleteFromCollection(t[j], bodyId)
        invariant forall j :: i <= j < |t| ==> collections[j] == t[j]
      {
        var ii := 0;
        while ii < |collections[i].bodies|
          invariant |collections| == |t|
          invariant collections[i].userId == t[i].userId
          invariant SpliceScan(collections[i].bodies, ii, bodyId) == SpliceScan(t[i].bodies, 0, bodyId)
          invariant forall j :: 0 <= j < i ==> collections[j] == DeleteFromCollection(t[j], bodyId)
          invariant forall j :: i < j < |t| ==> collections[j] == t[j]
        {
          if collections[i].bodies[ii].id == bodyId {
            var bodies := collections[i].bodies;
            collections := collections[i := collections[i].(bodies := bodies[..ii] + bodies[ii + 1..])];
          }
          ii := ii + 1;
        }
        i := i + 1;
      }
      if Bounded(t) {
        DeleteKeepsCapacity(t, bodyId);
      }
    }

    /** The claim route: look the body up by its identifier and, when it exists,
        delete it by the identifier of the body found. Applying the body to the
        player's zombie happens outside the store. With identifiers unique, the
        claimed body can no longer be found. */
    method Claim(bodyId: BodyId) returns (claimed: Option<Body>)
      modifies this
      ensures claimed == FindBody(old(collections), bodyId)
      ensures claimed.Some? ==> collections == DeleteFromTable(old(collections), bodyId)
      ensures claimed.None? ==> collections == old(collections)
      ensures IdCount(AllBodies(old(collections)), bodyId) <= 1 ==> FindBody(collections, bodyId).None?
    {
      claimed := GetBodyById(bodyId);
      if claimed.Some? {
        DeleteBodyById(claimed.value.id);
      }
      if IdCount(AllBodies(old(collections)), bodyId) <= 1 {
        DeleteThenNotFound(old(collections), bodyId);
      }
    }
  }
}
