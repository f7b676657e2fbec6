/** The reward-record ("body") table of data/bodies.js as values: the records, the
    per-owner collections, and the pure meaning of every lookup and update the
    store performs on the table it loads and saves. */
module BodyTable {

  datatype Option<+T> = None | Some(value: T)

  type UserId = string
  type BodyId = string

  /** A collection holding this many bodies loses its oldest one before the next push. */
  const MaxBodies: nat := 5

  /** The winner of a battle; a body only records its owner. */
  datatype Zombie = Zombie(userId: UserId)

  /** The defeated opponent whose attributes a body copies. */
  datatype Human = Human(name: string, health: int, attack: int, defense: int, speed: int, special: string)

  /** A reward record. `since` is the creation date as the store formats it. */
  datatype Body = Body(
    id: BodyId,
    userId: UserId,
    name: string,
    health: int,
    attack: int,
    defense: int,
    speed: int,
    special: string,
    since: string)

  /** One owner's bodies, oldest first. */
  datatype Collection = Collection(userId: UserId, bodies: seq<Body>)

  /** The whole table, in the order the backing file keeps it. */
  type Table = seq<Collection>

  /** Every collection keeps within the capacity. */
  predicate Bounded(t: Table) {
    forall i :: 0 <= i < |t| ==> |t[i].bodies| <= MaxBodies
  }

  /** No two collections share an owner. */
  predicate OwnersUnique(t: Table) {
    forall i, j :: 0 <= i < j < |t| ==> t[i].userId != t[j].userId
  }

  // ----------------------------------------------------------------------------
  // Lookups
  // ----------------------------------------------------------------------------

  /** Where the scan of `getBodyCollectionIndexByUserId` stops: the first collection
      of `userId`, or None (the source's `false`) when there is none. */
  function FirstCollectionIndex(t: Table, userId: UserId): (r: Option<nat>)
    ensures r.Some? ==> r.value < |t| && t[r.value].userId == userId
    ensures r.Some? ==> forall j :: 0 <= j < r.value ==> t[j].userId != userId
    ensures r.None? <==> forall j :: 0 <= j < |t| ==> t[j].userId != userId
  {
    if t == [] then None
    else if t[0].userId == userId then Some(0)
    else match FirstCollectionIndex(t[1..], userId)
      case None => None
      case Some(i) => Some(i + 1)
  }

  /** The test `!collectionIndex` in `generateBody`: JavaScript reads both `false`
      and the index 0 as "no collection". */
  predicate Falsy(index: Option<nat>) {
    index.None? || index.value == 0
  }

  /** The first position in `s` holding a body with identifier `id`. */
  function FirstBodyIndex(s: seq<Body>, id: BodyId): (r: Option<nat>)
    ensures r.Some? ==> r.value < |s| && s[r.value].id == id
    ensures r.Some? ==> forall j :: 0 <= j < r.value ==> s[j].id != id
    ensures r.None? <==> forall j :: 0 <= j < |s| ==> s[j].id != id
  {
    if s == [] then None
    else if s[0].id == id then Some(0)
    else match FirstBodyIndex(s[1..], id)
      case None => None
      case Some(i) => Some(i + 1)
  }

  /** Every body of the table, collection by collection. */
  function AllBodies(t: Table): seq<Body> {
    if t == [] then [] else t[0].bodies + AllBodies(t[1..])
  }

  /** The nested scan of `getBodyById`: collections in order, bodies in order within
      each, returning the first body with identifier `id`. */
  function FindBody(t: Table, id: BodyId): (r: Option<Body>)
    ensures r.Some? ==> r.value.id == id && r.value in AllBodies(t)
    ensures r.None? <==> forall b :: b in AllBodies(t) ==> b.id != id
  {
    if t == [] then None
    else match FirstBodyIndex(t[0].bodies, id)
      case Some(ii) => Some(t[0].bodies[ii])
      case None => FindBody(t[1..], id)
  }

  /** How many bodies of `s` carry identifier `id`. */
  function IdCount(s: seq<Body>, id: BodyId): nat {
    if s == [] then 0 else (if s[0].id == id then 1 else 0) + IdCount(s[1..], id)
  }

  /** Every identifier in the table belongs to exactly one body. */
  predicate UniqueIds(t: Table) {
    forall b :: b in AllBodies(t) ==> IdCount(AllBodies(t), b.id) == 1
  }

  // ----------------------------------------------------------------------------
  // Creation
  // ----------------------------------------------------------------------------

  /** One owner's list after `generateBody`: shifted once when it already holds
      MaxBodies or more, then the new body pushed at the end. */
  function AppendEvicting(bodies: seq<Body>, b: Body): (r: seq<Body>)
    ensures |bodies| <= MaxBodies ==> |r| <= MaxBodies
    ensures |r| > 0 && r[|r| - 1] == b
    ensures |bodies| < MaxBodies ==> r[..|r| - 1] == bodies
    ensures |bodies| >= MaxBodies ==> r[..|r| - 1] == bodies[1..]
  {
    (if |bodies| >= MaxBodies then bodies[1..] else bodies) + [b]
  }

  /** The get-or-create step of `generateBody`: whenever the lookup is falsy, a
      fresh empty collection for `userId` is appended, so afterwards the owner is
      always found. */
  function EnsureCollection(t: Table, userId: UserId): (r: Table)
    ensures FirstCollectionIndex(r, userId).Some?
    ensures |t| <= |r| && r[..|t|] == t
    ensures |r| == if Falsy(FirstCollectionIndex(t, userId)) then |t| + 1 else |t|
    ensures |r| > |t| ==> r[|t|] == Collection(userId, [])
  {
    if Falsy(FirstCollectionIndex(t, userId)) then
      var r := t + [Collection(userId, [])];
      assert r[|t|].userId == userId;
      r
    else t
  }

  /** The table `generateBody` saves after creating `b`: the owner's collection is
      looked up again after the falsy test and `b` goes into the first match. */
  function Generate(t: Table, b: Body): (r: Table)
    ensures |t| <= |r| <= |t| + 1
    ensures forall i :: 0 <= i < |t| ==> r[i].userId == t[i].userId
    ensures |r| > |t| ==> r[|t|].userId == b.userId
    ensures FirstCollectionIndex(r, b.userId).Some?
    ensures var k := FirstCollectionIndex(r, b.userId).value;
      |r[k].bodies| > 0 && r[k].bodies[|r[k].bodies| - 1] == b
  {
    var t1 := EnsureCollection(t, b.userId);
    var k := FirstCollectionIndex(t1, b.userId).value;
    var r := t1[k := t1[k].(bodies := AppendEvicting(t1[k].bodies, b))];
    assert r[k].userId == b.userId;
    assert FirstCollectionIndex(r, b.userId) == Some(k);
    r
  }

  // ----------------------------------------------------------------------------
  // Deletion
  // ----------------------------------------------------------------------------

  /** The inner loop of `deleteBodyById` over one collection, from position `ii`:
      a matching body is spliced out and `ii` still advances, so the body that
      slides into position `ii` is never examined. */
  function SpliceScan(s: seq<Body>, ii: nat, id: BodyId): (r: seq<Body>)
    ensures |r| <= |s|
    ensures ii <= |s| ==> ii <= |r| && r[..ii] == s[..ii]
    ensures forall x :: x in r ==> x in s
    decreases |s| - ii
  {
    if ii >= |s| then s
    else if s[ii].id == id then
      var s' := s[..ii] + s[ii + 1..];
      assert s'[..ii] == s[..ii];
      assert forall x :: x in s' ==> x in s;
      SpliceScan(s', ii + 1, id)
    else SpliceScan(s, ii + 1, id)
  }

  /** The reference removal: every body with identifier `id` dropped, the others in
      their order. */
  function Without(s: seq<Body>, id: BodyId): (r: seq<Body>)
    ensures forall x :: x in r <==> x in s && x.id != id
  {
    if s == [] then [] else (if s[0].id == id then [] else [s[0]]) + Without(s[1..], id)
  }

  lemma {:induction false} WithoutAppend(a: seq<Body>, b: seq<Body>, id: BodyId)
    ensures Without(a + b, id) == Without(a, id) + Without(b, id)
  {
    if a == [] {
      assert a + b == b;
    } else {
      assert (a + b)[1..] == a[1..] + b;
      WithoutAppend(a[1..], b, id);
    }
  }

  /** Splicing out one body that carries `id` does not change what the reference
      removal keeps. */
  lemma {:induction false} WithoutSplice(s: seq<Body>, ii: nat, id: BodyId)
    requires ii < |s| && s[ii].id == id
    ensures Without(s[..ii] + s[ii + 1..], id) == Without(s, id)
  {
    var m := [s[ii]] + s[ii + 1..];
    assert m[0] == s[ii] && m[1..] == s[ii + 1..];
    assert Without(m, id) == Without(s[ii + 1..], id);
    assert s == s[..ii] + m;
    WithoutAppend(s[..ii], m, id);
    WithoutAppend(s[..ii], s[ii + 1..], id);
  }

  /** The splicing loop, duplicates or not, keeps every body with another
      identifier, in order: it only ever removes bodies carrying `id`. */
  lemma {:induction false} SpliceScanKeepsOthers(s: seq<Body>, ii: nat, id: BodyId)
    ensures Without(SpliceScan(s, ii, id), id) == Without(s, id)
    decreases |s| - ii
  {
    if ii < |s| {
      if s[ii].id == id {
        WithoutSplice(s, ii, id);
        SpliceScanKeepsOthers(s[..ii] + s[ii + 1..], ii + 1, id);
      } else {
        SpliceScanKeepsOthers(s, ii + 1, id);
      }
    }
  }

  /** One collection after `deleteBodyById`: same owner, no longer, and no body
      that was not there before. */
  function DeleteFromCollection(c: Collection, id: BodyId): (r: Collection)
    ensures r.userId == c.userId && |r.bodies| <= |c.bodies|
    ensures forall x :: x in r.bodies ==> x in c.bodies
  {
    c.(bodies := SpliceScan(c.bodies, 0, id))
  }

  /** The table `deleteBodyById` saves: each collection scanned once, in place. */
  function DeleteFromTable(t: Table, id: BodyId): (r: Table)
    ensures |r| == |t|
    ensures forall i :: 0 <= i < |t| ==> r[i].userId == t[i].userId && |r[i].bodies| <= |t[i].bodies|
  {
    seq(|t|, i requires 0 <= i < |t| => DeleteFromCollection(t[i], id))
  }
}
