/** What the table operations of data/bodies.js guarantee: lookups agree with a flat
    scan, creation keeps the capacity and evicts oldest first (with the index-zero
    quirk made explicit), and deletion removes exactly the claimed body when
    identifiers are unique. */
module BodyTableLemmas {
  import opened BodyTable

  // ----------------------------------------------------------------------------
  // Counting and flattening
  // ----------------------------------------------------------------------------

  lemma {:induction false} IdCountAppend(a: seq<Body>, b: seq<Body>, id: BodyId)
    ensures IdCount(a + b, id) == IdCount(a, id) + IdCount(b, id)
  {
    if a == [] {
      assert a + b == b;
    } else {
      assert (a + b)[1..] == a[1..] + b;
      IdCountAppend(a[1..], b, id);
    }
  }

  lemma {:induction false} IdCountZero(s: seq<Body>, id: BodyId)
    ensures IdCount(s, id) == 0 <==> forall x :: x in s ==> x.id != id
  {
    if s != [] {
      IdCountZero(s[1..], id);
      assert forall x :: x in s ==> x == s[0] || x in s[1..];
    }
  }

  /** Two bodies sharing an identifier that occurs once are the same body. */
  lemma {:induction false} IdCountOne(s: seq<Body>, id: BodyId, x: Body, y: Body)
    requires IdCount(s, id) == 1
    requires x in s && x.id == id && y in s && y.id == id
    ensures x == y
  {
    if s[0].id == id {
      IdCountZero(s[1..], id);
      assert x == s[0] && y == s[0];
    } else {
      IdCountOne(s[1..], id, x, y);
    }
  }

  lemma {:induction false} AllBodiesAppend(t1: Table, t2: Table)
    ensures AllBodies(t1 + t2) == AllBodies(t1) + AllBodies(t2)
  {
    if t1 == [] {
      assert t1 + t2 == t2;
    } else {
      assert (t1 + t2)[1..] == t1[1..] + t2;
      AllBodiesAppend(t1[1..], t2);
    }
  }

  /** The bodies of collection `k` sit between those before and after it. */
  lemma {:induction false} AllBodiesAround(t: Table, k: nat)
    requires k < |t|
    ensures AllBodies(t) == AllBodies(t[..k]) + t[k].bodies + AllBodies(t[k + 1..])
  {
    var m := [t[k]] + t[k + 1..];
    assert m[0] == t[k] && m[1..] == t[k + 1..];
    assert AllBodies(m) == t[k].bodies + AllBodies(t[k + 1..]);
    assert t == t[..k] + m;
    AllBodiesAppend(t[..k], m);
  }

  lemma {:induction false} AllBodiesHas(t: Table, k: nat, x: Body)
    requires k < |t| && x in t[k].bodies
    ensures x in AllBodies(t)
  {
    AllBodiesAround(t, k);
  }

  /** Replacing collection `k` trades its bodies for the new ones in every count. */
  lemma {:induction false} AllBodiesUpdateCount(t: Table, k: nat, c: Collection, id: BodyId)
    requires k < |t|
    ensures IdCount(AllBodies(t[k := c]), id) + IdCount(t[k].bodies, id)
         == IdCount(AllBodies(t), id) + IdCount(c.bodies, id)
  {
    var u := t[k := c];
    AllBodiesAround(t, k);
    AllBodiesAround(u, k);
    assert u[..k] == t[..k] && u[k + 1..] == t[k + 1..];
    IdCountAppend(AllBodies(t[..k]) + t[k].bodies, AllBodies(t[k + 1..]), id);
    IdCountAppend(AllBodies(t[..k]), t[k].bodies, id);
    IdCountAppend(AllBodies(t[..k]) + c.bodies, AllBodies(t[k + 1..]), id);
    IdCountAppend(AllBodies(t[..k]), c.bodies, id);
  }

  // ----------------------------------------------------------------------------
  // Lookups
  // ----------------------------------------------------------------------------

  lemma {:induction false} FirstBodyIndexAppend(a: seq<Body>, b: seq<Body>, id: BodyId)
    ensures FirstBodyIndex(a + b, id) ==
      match FirstBodyIndex(a, id)
      case Some(i) => Some(i)
      case None => match FirstBodyIndex(b, id)
        case None => None
        case Some(j) => Some(|a| + j)
  {
    if a == [] {
      assert a + b == b;
    } else {
      assert (a + b)[1..] == a[1..] + b;
      FirstBodyIndexAppend(a[1..], b, id);
    }
  }

  /** The nested scan of `getBodyById` finds the same body as one scan over all
      bodies of the table in order: the first body carrying `id`. */
  lemma {:induction false} FindBodyIsFirst(t: Table, id: BodyId)
    ensures FindBody(t, id) ==
      match FirstBodyIndex(AllBodies(t), id)
      case None => None
      case Some(p) => Some(AllBodies(t)[p])
  {
    if t != [] {
      FirstBodyIndexAppend(t[0].bodies, AllBodies(t[1..]), id);
      FindBodyIsFirst(t[1..], id);
    }
  }

  // ----------------------------------------------------------------------------
  // Creation
  // ----------------------------------------------------------------------------

  /** The get-or-create step adds no body and makes the re-lookup land on the
      appended collection exactly when the owner had none. */
  lemma {:induction false} EnsureCollectionFound(t: Table, userId: UserId)
    ensures AllBodies(EnsureCollection(t, userId)) == AllBodies(t)
    ensures FirstCollectionIndex(EnsureCollection(t, userId), userId) ==
      if FirstCollectionIndex(t, userId).None? then Some(|t|) else FirstCollectionIndex(t, userId)
  {
    var t1 := EnsureCollection(t, userId);
    if Falsy(FirstCollectionIndex(t, userId)) {
      assert t1 == t + [Collection(userId, [])];
      AllBodiesAppend(t, [Collection(userId, [])]);
      assert AllBodies([Collection(userId, [])]) == [];
      var k := FirstCollectionIndex(t1, userId).value;
      assert k < |t| ==> t1[k] == t[k];
    }
  }

  /** A new owner gets one new collection, appended at the end, holding just `b`. */
  lemma {:induction false} GenerateForNewOwner(t: Table, b: Body)
    requires FirstCollectionIndex(t, b.userId).None?
    ensures Generate(t, b) == t + [Collection(b.userId, [b])]
  {
  }

  /** An owner found past index 0 keeps its place; only its own list changes, by
      `AppendEvicting`, and no collection is added. */
  lemma {:induction false} GenerateForExistingOwner(t: Table, b: Body, k: nat)
    requires FirstCollectionIndex(t, b.userId) == Some(k) && k > 0
    ensures |Generate(t, b)| == |t|
    ensures Generate(t, b)[k] == Collection(b.userId, AppendEvicting(t[k].bodies, b))
    ensures forall j :: 0 <= j < |t| && j != k ==> Generate(t, b)[j] == t[j]
  {
  }

  /** The index-zero quirk: an owner whose collection is first is taken for a missing
      one, so an extra empty collection is appended for it, while `b` still goes into
      collection 0, which the re-lookup finds first. */
  lemma {:induction false} GenerateAtIndexZero(t: Table, b: Body)
    requires FirstCollectionIndex(t, b.userId) == Some(0)
    ensures Generate(t, b) ==
      t[0 := Collection(b.userId, AppendEvicting(t[0].bodies, b))] + [Collection(b.userId, [])]
  {
  }

  /** Capacity: creation never takes a bounded table over MaxBodies. */
  lemma {:induction false} GenerateKeepsCapacity(t: Table, b: Body)
    requires Bounded(t)
    ensures Bounded(Generate(t, b))
  {
  }

  /** One collection per owner survives creation exactly when the owner's collection
      is not the first one. */
  lemma {:induction false} GenerateOwnersUnique(t: Table, b: Body)
    requires OwnersUnique(t)
    ensures OwnersUnique(Generate(t, b)) <==> FirstCollectionIndex(t, b.userId) != Some(0)
  {
    var g := Generate(t, b);
    EnsureCollectionFound(t, b.userId);
    if FirstCollectionIndex(t, b.userId) == Some(0) {
      GenerateAtIndexZero(t, b);
      assert g[0].userId == g[|t|].userId;
    } else if FirstCollectionIndex(t, b.userId).None? {
      GenerateForNewOwner(t, b);
    }
  }

  /** Creation adds `b` and, when the owner's list was full, loses its oldest body;
      every other body is kept. */
  lemma {:induction false} GenerateCount(t: Table, b: Body, id: BodyId)
    ensures FirstCollectionIndex(t, b.userId).None? ==>
      IdCount(AllBodies(Generate(t, b)), id) == IdCount(AllBodies(t), id) + (if b.id == id then 1 else 0)
    ensures FirstCollectionIndex(t, b.userId).Some? ==>
      var k := FirstCollectionIndex(t, b.userId).value;
      var evicted := |t[k].bodies| >= MaxBodies && t[k].bodies[0].id == id;
      IdCount(AllBodies(Generate(t, b)), id) + (if evicted then 1 else 0)
        == IdCount(AllBodies(t), id) + (if b.id == id then 1 else 0)
  {
    var t1 := EnsureCollection(t, b.userId);
    EnsureCollectionFound(t, b.userId);
    var k := FirstCollectionIndex(t1, b.userId).value;
    var s := t1[k].bodies;
    AllBodiesUpdateCount(t1, k, t1[k].(bodies := AppendEvicting(s, b)), id);
    if |s| >= MaxBodies {
      assert s == [s[0]] + s[1..];
      IdCountAppend([s[0]], s[1..], id);
      IdCountAppend(s[1..], [b], id);
    } else {
      IdCountAppend(s, [b], id);
    }
    if FirstCollectionIndex(t, b.userId).Some? {
      assert t1[k] == t[k];
    } else {
      assert s == [];
    }
  }

  /** Round trip: a body created with a fresh identifier is what `getBodyById` then
      returns for that identifier. */
  lemma {:induction false} GenerateThenFind(t: Table, b: Body)
    requires IdCount(AllBodies(t), b.id) == 0
    ensures FindBody(Generate(t, b), b.id) == Some(b)
  {
    var g := Generate(t, b);
    var t1 := EnsureCollection(t, b.userId);
    EnsureCollectionFound(t, b.userId);
    var k := FirstCollectionIndex(t1, b.userId).value;
    GenerateCount(t, b, b.id);
    IdCountZero(AllBodies(t), b.id);
    if FirstCollectionIndex(t, b.userId).Some? {
      var k0 := FirstCollectionIndex(t, b.userId).value;
      if |t[k0].bodies| >= MaxBodies {
        AllBodiesHas(t, k0, t[k0].bodies[0]);
      }
    }
    assert b in g[k].bodies;
    AllBodiesHas(g, k, b);
    IdCountOne(AllBodies(g), b.id, FindBody(g, b.id).value, b);
  }

  /** FIFO eviction: when the owner's list was full, its oldest body can no longer be
      found, provided identifiers are unique and `b`'s is fresh. */
  lemma {:induction false} GenerateEvictsOldest(t: Table, b: Body, k: nat)
    requires UniqueIds(t) && IdCount(AllBodies(t), b.id) == 0
    requires FirstCollectionIndex(t, b.userId) == Some(k) && |t[k].bodies| >= MaxBodies
    ensures FindBody(Generate(t, b), t[k].bodies[0].id).None?
  {
    var e := t[k].bodies[0];
    AllBodiesHas(t, k, e);
    IdCountZero(AllBodies(t), b.id);
    GenerateCount(t, b, e.id);
    IdCountZero(AllBodies(Generate(t, b)), e.id);
  }

  /** Unique identifiers stay unique when the created body's identifier is fresh. */
  lemma {:induction false} GenerateKeepsUniqueIds(t: Table, b: Body)
    requires UniqueIds(t) && IdCount(AllBodies(t), b.id) == 0
    ensures UniqueIds(Generate(t, b))
  {
    var g := Generate(t, b);
    forall x | x in AllBodies(g)
      ensures IdCount(AllBodies(g), x.id) == 1
    {
      GenerateCount(t, b, x.id);
      IdCountZero(AllBodies(g), x.id);
      if x.id != b.id {
        IdCountZero(AllBodies(t), x.id);
        var y :| y in AllBodies(t) && y.id == x.id;
      }
    }
  }

  // ----------------------------------------------------------------------------
  // Deletion
  // ----------------------------------------------------------------------------

  lemma {:induction false} WithoutAbsent(s: seq<Body>, id: BodyId)
    requires IdCount(s, id) == 0
    ensures Without(s, id) == s
  {
    if s != [] {
      WithoutAbsent(s[1..], id);
    }
  }

  /** With at most one body carrying `id` from position `ii` on, the splicing loop
      removes exactly that body and keeps the others in order. */
  lemma {:induction false} SpliceScanRemovesOne(s: seq<Body>, ii: nat, id: BodyId)
    requires ii <= |s| && IdCount(s[ii..], id) <= 1
    ensures SpliceScan(s, ii, id) == s[..ii] + Without(s[ii..], id)
    decreases |s| - ii
  {
    if ii < |s| {
      assert s[ii..][1..] == s[ii + 1..];
      if s[ii].id == id {
        var s' := s[..ii] + s[ii + 1..];
        if ii + 1 < |s| {
          assert s[ii + 1..][1..] == s[ii + 2..];
          assert s'[ii + 1..] == s[ii + 2..];
          assert s'[..ii + 1] == s[..ii] + [s[ii + 1]];
          SpliceScanRemovesOne(s', ii + 1, id);
        } else {
          assert s' == s[..ii];
        }
      } else {
        assert s[..ii + 1] == s[..ii] + [s[ii]];
        SpliceScanRemovesOne(s, ii + 1, id);
      }
    }
  }

  /** The skipping quirk: when a collection starts with two bodies carrying `id`, the
      second one survives the delete and is still found. */
  lemma {:induction false} DeleteMissesAdjacentDuplicate(t: Table, i: nat, id: BodyId)
    requires i < |t| && |t[i].bodies| >= 2
    requires t[i].bodies[0].id == id && t[i].bodies[1].id == id
    ensures t[i].bodies[1] in DeleteFromTable(t, id)[i].bodies
    ensures FindBody(DeleteFromTable(t, id), id).Some?
  {
    var s := t[i].bodies;
    var s' := s[..0] + s[1..];
    assert SpliceScan(s, 0, id) == SpliceScan(s', 1, id);
    assert SpliceScan(s', 1, id)[..1] == s'[..1] && s'[0] == s[1];
    assert DeleteFromTable(t, id)[i].bodies == SpliceScan(s, 0, id);
    AllBodiesHas(DeleteFromTable(t, id), i, s[1]);
  }

  /** Deleting an identifier nobody carries leaves the table unchanged. */
  lemma {:induction false} DeleteAbsentIsNoop(t: Table, id: BodyId)
    requires FindBody(t, id).None?
    ensures DeleteFromTable(t, id) == t
  {
    forall i | 0 <= i < |t|
      ensures DeleteFromTable(t, id)[i] == t[i]
    {
      var s := t[i].bodies;
      forall x | x in s ensures x.id != id {
        AllBodiesHas(t, i, x);
      }
      IdCountZero(s, id);
      SpliceScanRemovesOne(s, 0, id);
      assert s[0..] == s;
      WithoutAbsent(s, id);
    }
  }

  /** With at most one body carrying `id`, deletion removes exactly that body and the
      remaining bodies keep their order; no collection is added, dropped or moved. */
  lemma {:induction false} DeleteRemovesExactly(t: Table, id: BodyId)
    requires IdCount(AllBodies(t), id) <= 1
    ensures AllBodies(DeleteFromTable(t, id)) == Without(AllBodies(t), id)
  {
    if t != [] {
      var d := DeleteFromTable(t, id);
      IdCountAppend(t[0].bodies, AllBodies(t[1..]), id);
      assert d[1..] == DeleteFromTable(t[1..], id);
      DeleteRemovesExactly(t[1..], id);
      SpliceScanRemovesOne(t[0].bodies, 0, id);
      assert t[0].bodies[0..] == t[0].bodies;
      WithoutAppend(t[0].bodies, AllBodies(t[1..]), id);
    }
  }

  /** For every table, duplicates or not, deletion keeps every body with another
      identifier, in table order. */
  lemma {:induction false} DeleteKeepsOthers(t: Table, id: BodyId)
    ensures Without(AllBodies(DeleteFromTable(t, id)), id) == Without(AllBodies(t), id)
  {
    if t != [] {
      var d := DeleteFromTable(t, id);
      assert d[1..] == DeleteFromTable(t[1..], id);
      DeleteKeepsOthers(t[1..], id);
      assert d[0].bodies == SpliceScan(t[0].bodies, 0, id);
      SpliceScanKeepsOthers(t[0].bodies, 0, id);
      assert AllBodies(d) == d[0].bodies + AllBodies(d[1..]);
      WithoutAppend(d[0].bodies, AllBodies(d[1..]), id);
      WithoutAppend(t[0].bodies, AllBodies(t[1..]), id);
    }
  }

  /** A claimed body cannot be found again. */
  lemma {:induction false} DeleteThenNotFound(t: Table, id: BodyId)
    requires IdCount(AllBodies(t), id) <= 1
    ensures FindBody(DeleteFromTable(t, id), id).None?
  {
    DeleteRemovesExactly(t, id);
  }

  /** Deleting twice is deleting once. */
  lemma {:induction false} DeleteIdempotent(t: Table, id: BodyId)
    requires IdCount(AllBodies(t), id) <= 1
    ensures DeleteFromTable(DeleteFromTable(t, id), id) == DeleteFromTable(t, id)
  {
    DeleteThenNotFound(t, id);
    DeleteAbsentIsNoop(DeleteFromTable(t, id), id);
  }

  /** Deletion never takes a bounded table over MaxBodies. */
  lemma {:induction false} DeleteKeepsCapacity(t: Table, id: BodyId)
    requires Bounded(t)
    ensures Bounded(DeleteFromTable(t, id))
  {
  }
}
