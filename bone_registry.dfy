/**
 * The bone registry of a Model: the name -> BoneInfo map m_BoneInfoMap and the
 * counter m_BoneCounter, as ExtractBoneWeightForVertices grows them.
 */
module BoneRegistry {
  import opened Transform

  /** BoneInfo: the bone's slot in the pose buffer and its inverse bind-pose matrix. */
  datatype BoneInfo = BoneInfo(id: int, offset: Mat4)

  /** aiVertexWeight: how strongly one vertex follows a bone. */
  datatype VertexWeight = VertexWeight(vertexId: nat, weight: real)

  /** aiBone: a bone of one mesh, with its offset matrix and the vertices it moves. */
  datatype Bone = Bone(name: string, offsetMatrix: Mat4, weights: seq<VertexWeight>)

  /** The registry state of a Model: (m_BoneInfoMap, m_BoneCounter). */
  datatype Registry = Registry(infoMap: map<string, BoneInfo>, counter: int)

  /** The ids handed out so far. */
  function Ids(r: Registry): set<int>
  {
    set n | n in r.infoMap :: r.infoMap[n].id
  }

  /**
   * The registry invariant: the counter equals the number of names, every id
   * lies below the counter and no two names share an id.
   */
  predicate Dense(r: Registry)
  {
    && r.counter == |r.infoMap|
    && (forall n :: n in r.infoMap ==> 0 <= r.infoMap[n].id < r.counter)
    && (forall a, b :: a in r.infoMap && b in r.infoMap && r.infoMap[a].id == r.infoMap[b].id ==> a == b)
  }

  /** The registry of a freshly constructed Model. */
  function EmptyRegistry(): (r: Registry)
    ensures Dense(r) && Ids(r) == {}
  {
    Registry(map[], 0)
  }

  /**
   * One registration, as in the body of the bone loop of
   * ExtractBoneWeightForVertices: returns the new registry and the bone's id.
   * A known name keeps its id and offset and the counter stays; a new name gets
   * the old counter as id, its offset is stored and the counter goes up by one.
   */
  function Register(r: Registry, name: string, offset: Mat4): (res: (Registry, int))
    ensures res.0.infoMap.Keys == r.infoMap.Keys + {name}
    ensures forall n :: n in r.infoMap ==> res.0.infoMap[n] == r.infoMap[n]
    ensures res.0.infoMap[name].id == res.1
    ensures name in r.infoMap ==> res.0 == r
    ensures name !in r.infoMap ==>
              && res.1 == r.counter
              && res.0.counter == r.counter + 1
              && res.0.infoMap[name].offset == offset
    ensures Dense(r) ==> Dense(res.0)
  {
    if name !in r.infoMap then
      (Registry(r.infoMap[name := BoneInfo(r.counter, offset)], r.counter + 1), r.counter)
    else
      (r, r.infoMap[name].id)
  }

  /** The registry after registering `bones` in order. */
  function RegisterAll(r: Registry, bones: seq<Bone>): (res: Registry)
    ensures r.counter <= res.counter <= r.counter + |bones|
    decreases |bones|
  {
    if bones == [] then r
    else
      var last := bones[|bones| - 1];
      Register(RegisterAll(r, bones[..|bones| - 1]), last.name, last.offsetMatrix).0
  }

  /** The names among `bones`. */
  function Names(bones: seq<Bone>): set<string>
  {
    set i | 0 <= i < |bones| :: bones[i].name
  }

  // ---------------------------------------------------------------------------
  // Properties

  /** Registering the same name twice returns the same id and keeps the first offset. */
  lemma RegisterTwice(r: Registry, name: string, first: Mat4, second: Mat4)
    requires name !in r.infoMap
    ensures var (r1, id1) := Register(r, name, first);
            var (r2, id2) := Register(r1, name, second);
            id1 == id2 == r.counter && r2 == r1 && r2.infoMap[name].offset == first
  {
  }

  /** Any sequence of registrations keeps the registry dense. */
  lemma {:induction false} RegisterAllKeepsDense(r: Registry, bones: seq<Bone>)
    requires Dense(r)
    ensures Dense(RegisterAll(r, bones))
    decreases |bones|
  {
    if bones != [] {
      RegisterAllKeepsDense(r, bones[..|bones| - 1]);
    }
  }

  /**
   * After registering `bones`, the names are the old ones plus the bones'
   * names, and every name registered before keeps its id and offset.
   */
  lemma {:induction false} RegisterAllNames(r: Registry, bones: seq<Bone>)
    ensures RegisterAll(r, bones).infoMap.Keys == r.infoMap.Keys + Names(bones)
    ensures forall n :: n in r.infoMap ==> RegisterAll(r, bones).infoMap[n] == r.infoMap[n]
    decreases |bones|
  {
    if bones != [] {
      var prefix := bones[..|bones| - 1];
      RegisterAllNames(r, prefix);
      assert Names(bones) == Names(prefix) + {bones[|bones| - 1].name} by {
        forall n | n in Names(bones) ensures n in Names(prefix) + {bones[|bones| - 1].name} {
          var i :| 0 <= i < |bones| && bones[i].name == n;
          if i < |bones| - 1 { assert prefix[i] == bones[i]; }
        }
        forall n | n in Names(prefix) ensures n in Names(bones) {
          var i :| 0 <= i < |prefix| && prefix[i].name == n;
          assert bones[i] == prefix[i];
        }
      }
    }
  }

  /** The ids 0 .. n - 1. */
  function IdRange(n: nat): (s: set<int>)
    ensures forall i :: i in s <==> 0 <= i < n
    ensures |s| == n
  {
    if n == 0 then {} else IdRange(n - 1) + {n - 1}
  }

  /** Ids are dense: in a dense registry they are exactly 0 .. counter - 1. */
  lemma DenseIdsAreRange(r: Registry)
    requires Dense(r)
    ensures Ids(r) == IdRange(r.counter)
  {
    InjectiveIdsCount(r.infoMap);
    assert Ids(r) <= IdRange(r.counter);
    SubsetOfSameSize(Ids(r), IdRange(r.counter));
  }

  /** Distinct names with distinct ids give as many ids as names. */
  lemma {:induction false} InjectiveIdsCount(m: map<string, BoneInfo>)
    requires forall a, b :: a in m && b in m && m[a].id == m[b].id ==> a == b
    ensures |set n | n in m :: m[n].id| == |m|
    decreases |m|
  {
    if |m| == 0 {
      assert m.Keys == {};
    } else {
      var k :| k in m;
      var rest := m - {k};
      assert rest.Keys == m.Keys - {k};
      InjectiveIdsCount(rest);
      var all := set n | n in m :: m[n].id;
      var others := set n | n in rest :: rest[n].id;
      forall x | x in all ensures x in others + {m[k].id} {
        var n :| n in m && m[n].id == x;
        if n != k { assert n in rest; }
      }
      forall x | x in others + {m[k].id} ensures x in all {
        if x != m[k].id {
          var n :| n in rest && rest[n].id == x;
          assert n in m;
        }
      }
      assert all == others + {m[k].id};
      assert m[k].id !in others;
    }
  }

  lemma SubsetOfSameSize(a: set<int>, b: set<int>)
    requires a <= b && |a| == |b|
    ensures a == b
  {
    DisjointSplit(a, b);
    assert b - a == {};
  }

  /** A subset and the rest of its superset split its size. */
  lemma DisjointSplit(a: set<int>, b: set<int>)
    requires a <= b
    ensures |b| == |a| + |b - a|
  {
    assert b == a + (b - a);
    assert a * (b - a) == {};
  }
}
