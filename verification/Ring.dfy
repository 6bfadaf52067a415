/**
 * The consistent-hash ring that routes keys to shards: a sorted array of node hashes searched by
 * bisection, and a map from hash to node. Its meaning is the node at the least clockwise distance.
 */
module Ring {
  import opened Base

  type Hash = string -> uint32

  datatype RingState = RingState(nodes: seq<uint32>, nodeMap: map<uint32, string>)

  // ---------- Meaning: clockwise distance ----------

  /** How far clockwise, on a circle of 2^32 positions, `n` lies from `h`. */
  function Distance(h: uint32, n: uint32): (d: uint32)
    ensures d == (n - h) % TWO32
  {
    if n >= h then n - h else n - h + TWO32
  }

  /** `n` is the nearest position of `points` clockwise from `h`. */
  ghost predicate Nearest(points: set<uint32>, h: uint32, n: uint32)
  {
    n in points && forall x :: x in points ==> Distance(h, n) <= Distance(h, x)
  }

  lemma NearestIsUnique(points: set<uint32>, h: uint32, n1: uint32, n2: uint32)
    requires Nearest(points, h, n1) && Nearest(points, h, n2)
    ensures n1 == n2
  {
  }

  lemma {:induction false} NearestExists(points: set<uint32>, h: uint32)
    requires points != {}
    ensures exists n :: Nearest(points, h, n)
  {
    var x :| x in points;
    var rest := points - {x};
    if rest == {} {
      assert points == {x};
      assert Nearest(points, h, x);
    } else {
      NearestExists(rest, h);
      var n :| Nearest(rest, h, n);
      var best := if Distance(h, x) < Distance(h, n) then x else n;
      assert forall y :: y in points ==> y == x || y in rest;
      assert Nearest(points, h, best);
    }
  }

  /** The clockwise successor of `h`; no node at all gives the empty name. */
  ghost function Owner(nodeMap: map<uint32, string>, h: uint32): string
  {
    if nodeMap == map[] then ""
    else
      assert exists k :: k in nodeMap;
      assert nodeMap.Keys != {};
      NearestExists(nodeMap.Keys, h);
      var n :| Nearest(nodeMap.Keys, h, n);
      nodeMap[n]
  }

  lemma OwnerIs(nodeMap: map<uint32, string>, h: uint32, n: uint32)
    requires Nearest(nodeMap.Keys, h, n)
    ensures Owner(nodeMap, h) == nodeMap[n]
  {
    assert n in nodeMap;
    forall n2 | Nearest(nodeMap.Keys, h, n2) ensures n2 == n {
      NearestIsUnique(nodeMap.Keys, h, n, n2);
    }
  }

  // ---------- The stored form ----------

  ghost predicate Ascending(s: seq<uint32>)
  {
    forall i, j :: 0 <= i < j < |s| ==> s[i] <= s[j]
  }

  ghost predicate StrictlyAscending(s: seq<uint32>)
  {
    forall i, j :: 0 <= i < j < |s| ==> s[i] < s[j]
  }

  function Insert(x: uint32, s: seq<uint32>): seq<uint32>
  {
    if s == [] || x <= s[0] then [x] + s else [s[0]] + Insert(x, s[1..])
  }

  /** The library sort. */
  function Sort(s: seq<uint32>): seq<uint32>
  {
    if s == [] then [] else Insert(s[0], Sort(s[1..]))
  }

  lemma AscendingCons(y: uint32, t: seq<uint32>)
    requires Ascending(t) && forall z :: z in t ==> y <= z
    ensures Ascending([y] + t)
  {
    var s := [y] + t;
    forall i, j | 0 <= i < j < |s| ensures s[i] <= s[j] {
      assert s[j] == t[j - 1] && t[j - 1] in t;
    }
  }

  lemma {:induction false} InsertAddsOne(x: uint32, s: seq<uint32>)
    ensures multiset(Insert(x, s)) == multiset(s) + multiset{x}
    decreases |s|
  {
    if s == [] || x <= s[0] {
      assert multiset([x] + s) == multiset{x} + multiset(s);
    } else {
      InsertAddsOne(x, s[1..]);
      assert s == [s[0]] + s[1..];
    }
  }

  lemma {:induction false} InsertIsSorted(x: uint32, s: seq<uint32>)
    requires Ascending(s)
    ensures Ascending(Insert(x, s))
    decreases |s|
  {
    if s == [] || x <= s[0] {
      AscendingCons(x, s);
    } else {
      InsertIsSorted(x, s[1..]);
      InsertAddsOne(x, s[1..]);
      SameElements(Insert(x, s[1..]), s[1..] + [x]);
      assert forall y :: y in s[1..] ==> s[0] <= y;
      AscendingCons(s[0], Insert(x, s[1..]));
    }
  }

  lemma SameElements(a: seq<uint32>, b: seq<uint32>)
    requires multiset(a) == multiset(b)
    ensures forall y :: y in a <==> y in b
  {
    forall y ensures y in a <==> y in b {
      assert y in a <==> y in multiset(a);
      assert y in b <==> y in multiset(b);
    }
  }

  lemma {:induction false} SortIsSorted(s: seq<uint32>)
    ensures Ascending(Sort(s)) && multiset(Sort(s)) == multiset(s)
  {
    if s != [] {
      SortIsSorted(s[1..]);
      InsertIsSorted(s[0], Sort(s[1..]));
      InsertAddsOne(s[0], Sort(s[1..]));
      assert s == [s[0]] + s[1..];
    }
  }

  function RemoveFirst(s: seq<uint32>, x: uint32): seq<uint32>
  {
    if s == [] then [] else if s[0] == x then s[1..] else [s[0]] + RemoveFirst(s[1..], x)
  }

  lemma {:induction false} RemoveFirstAt(s: seq<uint32>, x: uint32, i: nat)
    requires i < |s| && s[i] == x && x !in s[..i]
    ensures RemoveFirst(s, x) == s[..i] + s[i + 1..]
    decreases i
  {
    if i > 0 {
      assert s[0] == s[..i][0] && s[1..][..i - 1] == s[..i][1..];
      RemoveFirstAt(s[1..], x, i - 1);
    }
  }

  lemma {:induction false} RemoveFirstAbsent(s: seq<uint32>, x: uint32)
    requires x !in s
    ensures RemoveFirst(s, x) == s
  {
    if s != [] { RemoveFirstAbsent(s[1..], x); }
  }

  function AddStep(r: RingState, hash: Hash, id: string): RingState
  {
    RingState(Sort(r.nodes + [hash(id)]), r.nodeMap[hash(id) := id])
  }

  function RemoveStep(r: RingState, hash: Hash, id: string): RingState
  {
    RingState(RemoveFirst(r.nodes, hash(id)), r.nodeMap - {hash(id)})
  }

  const EMPTY_RING := RingState([], map[])

  /** Array and map hold the same hashes. */
  ghost predicate SameHashes(r: RingState)
  {
    forall x :: x in r.nodes <==> x in r.nodeMap
  }

  /** The array is the strictly sorted list of the map's hashes. */
  ghost predicate WellFormed(r: RingState)
  {
    StrictlyAscending(r.nodes) && SameHashes(r)
  }

  /** Additions alone, legal or not, keep the same hashes in both. */
  lemma AddKeepsSameHashes(r: RingState, hash: Hash, id: string)
    requires SameHashes(r)
    ensures SameHashes(AddStep(r, hash, id)) && Ascending(AddStep(r, hash, id).nodes)
  {
    var s := r.nodes + [hash(id)];
    SortIsSorted(s);
    SameElements(Sort(s), s);
    assert forall x :: x in s <==> x in r.nodes || x == hash(id);
  }

  /** A well-formed ring over exactly these nodes, no two of which share a hash. */
  ghost predicate Represents(r: RingState, hash: Hash, ids: set<string>)
  {
    && WellFormed(r)
    && (forall id :: id in ids ==> hash(id) in r.nodeMap && r.nodeMap[hash(id)] == id)
    && (forall x :: x in r.nodeMap ==> r.nodeMap[x] in ids && hash(r.nodeMap[x]) == x)
  }

  // ---------- Every sequence of additions and removals ----------

  datatype Op = Add(id: string) | Drop(id: string)

  function Apply(r: RingState, hash: Hash, op: Op): RingState
  {
    match op
    case Add(id) => AddStep(r, hash, id)
    case Drop(id) => RemoveStep(r, hash, id)
  }

  function Run(r: RingState, hash: Hash, ops: seq<Op>): RingState
    decreases |ops|
  {
    if ops == [] then r else Run(Apply(r, hash, ops[0]), hash, ops[1..])
  }

  function Members1(ids: set<string>, op: Op): set<string>
  {
    match op
    case Add(id) => ids + {id}
    case Drop(id) => ids - {id}
  }

  function Members(ids: set<string>, ops: seq<Op>): set<string>
    decreases |ops|
  {
    if ops == [] then ids else Members(Members1(ids, ops[0]), ops[1..])
  }

  /** The node added is not a member and shares no member's hash; the hash removed is no other member's. */
  ghost predicate Legal1(hash: Hash, ids: set<string>, op: Op)
  {
    match op
    case Add(id) => forall m :: m in ids ==> hash(m) != hash(id)
    case Drop(id) => forall m :: m in ids && hash(m) == hash(id) ==> m == id
  }

  ghost predicate Legal(hash: Hash, ids: set<string>, ops: seq<Op>)
    decreases |ops|
  {
    ops == [] || (Legal1(hash, ids, ops[0]) && Legal(hash, Members1(ids, ops[0]), ops[1..]))
  }

  lemma StrictFromDistinct(s: seq<uint32>)
    requires Ascending(s) && forall x :: x in s ==> multiset(s)[x] == 1
    ensures StrictlyAscending(s)
  {
    forall i, j | 0 <= i < j < |s| ensures s[i] < s[j] {
      assert s == s[..j] + s[j..] && s[i] in s && s[i] in s[..j] && s[j] in s[j..];
      assert multiset(s) == multiset(s[..j]) + multiset(s[j..]);
    }
  }

  lemma {:induction false} StrictIsDistinct(s: seq<uint32>)
    requires StrictlyAscending(s)
    ensures forall x :: multiset(s)[x] <= 1
  {
    if s != [] {
      var rest := s[1..];
      assert s == [s[0]] + rest;
      assert s[0] !in rest;
      assert s[0] !in multiset(rest);
      StrictIsDistinct(rest);
      assert multiset(s) == multiset{s[0]} + multiset(rest);
    }
  }

  lemma AddKeepsWellFormed(r: RingState, hash: Hash, id: string)
    requires WellFormed(r) && hash(id) !in r.nodeMap
    ensures WellFormed(AddStep(r, hash, id))
  {
    var s := r.nodes + [hash(id)];
    var t := Sort(s);
    SortIsSorted(s);
    StrictIsDistinct(r.nodes);
    assert multiset(t) == multiset(r.nodes) + multiset{hash(id)};
    assert hash(id) !in r.nodes && hash(id) !in multiset(r.nodes);
    forall x ensures x in t <==> x in r.nodes || x == hash(id) {
      assert x in t <==> x in multiset(t);
      assert x in r.nodes <==> x in multiset(r.nodes);
    }
    forall x | x in t ensures multiset(t)[x] == 1 { }
    StrictFromDistinct(t);
  }

  lemma {:induction false} RemoveFirstKeepsAscending(s: seq<uint32>, x: uint32)
    requires Ascending(s)
    ensures Ascending(RemoveFirst(s, x))
    ensures forall y :: y in RemoveFirst(s, x) ==> y in s
  {
    if s != [] {
      assert s == [s[0]] + s[1..];
      assert forall y :: y in s[1..] ==> s[0] <= y;
      if s[0] != x {
        RemoveFirstKeepsAscending(s[1..], x);
        AscendingCons(s[0], RemoveFirst(s[1..], x));
      }
    }
  }

  /** Whatever is added or removed, the array stays sorted: bisection is always sound. */
  lemma {:induction false} RunKeepsAscending(r: RingState, hash: Hash, ops: seq<Op>)
    requires Ascending(r.nodes)
    ensures Ascending(Run(r, hash, ops).nodes)
    decreases |ops|
  {
    if ops != [] {
      match ops[0] {
        case Add(id) => SortIsSorted(r.nodes + [hash(id)]);
        case Drop(id) => RemoveFirstKeepsAscending(r.nodes, hash(id));
      }
      RunKeepsAscending(Apply(r, hash, ops[0]), hash, ops[1..]);
    }
  }

  lemma StrictCons(y: uint32, t: seq<uint32>)
    requires StrictlyAscending(t) && forall z :: z in t ==> y < z
    ensures StrictlyAscending([y] + t)
  {
    var s := [y] + t;
    forall i, j | 0 <= i < j < |s| ensures s[i] < s[j] {
      assert s[j] == t[j - 1] && t[j - 1] in t;
    }
  }

  lemma {:induction false} RemoveFirstKeepsOrder(s: seq<uint32>, x: uint32)
    requires StrictlyAscending(s)
    ensures StrictlyAscending(RemoveFirst(s, x))
    ensures forall y :: y in RemoveFirst(s, x) <==> y in s && y != x
  {
    if s != [] {
      assert s == [s[0]] + s[1..];
      assert forall y :: y in s[1..] ==> s[0] < y;
      if s[0] != x {
        RemoveFirstKeepsOrder(s[1..], x);
        StrictCons(s[0], RemoveFirst(s[1..], x));
      }
    }
  }

  lemma AddRepresents(r: RingState, hash: Hash, ids: set<string>, id: string)
    requires Represents(r, hash, ids) && forall m :: m in ids ==> hash(m) != hash(id)
    ensures Represents(AddStep(r, hash, id), hash, ids + {id})
  {
    assert hash(id) !in r.nodeMap;
    AddKeepsWellFormed(r, hash, id);
  }

  lemma DropRepresents(r: RingState, hash: Hash, ids: set<string>, id: string)
    requires Represents(r, hash, ids) && forall m :: m in ids && hash(m) == hash(id) ==> m == id
    ensures Represents(RemoveStep(r, hash, id), hash, ids - {id})
  {
    RemoveFirstKeepsOrder(r.nodes, hash(id));
  }

  /** One legal operation keeps the ring a faithful picture of the membership. */
  lemma ApplyRepresents(r: RingState, hash: Hash, ids: set<string>, op: Op)
    requires Represents(r, hash, ids) && Legal1(hash, ids, op)
    ensures Represents(Apply(r, hash, op), hash, Members1(ids, op))
  {
    match op {
      case Add(id) => AddRepresents(r, hash, ids, id);
      case Drop(id) => DropRepresents(r, hash, ids, id);
    }
  }

  /** A node added while its hash is taken - by another node or by itself - leaves that hash twice in the array. */
  lemma TakenHashIsDoubled(r: RingState, hash: Hash, id: string)
    requires WellFormed(r) && hash(id) in r.nodeMap
    ensures !WellFormed(AddStep(r, hash, id))
  {
    var s, t := r.nodes + [hash(id)], Sort(r.nodes + [hash(id)]);
    SortIsSorted(s);
    SameElements(t, s);
    assert |multiset(t)| == |multiset(s)| == |r.nodes| + 1;
    if StrictlyAscending(t) {
      SortedListIsUnique(t, r.nodes);
    }
  }

  /** An operation keeps the ring a faithful picture of the membership if and only if it is legal. */
  lemma ApplyRepresentsIff(r: RingState, hash: Hash, ids: set<string>, op: Op)
    requires Represents(r, hash, ids)
    ensures Represents(Apply(r, hash, op), hash, Members1(ids, op)) <==> Legal1(hash, ids, op)
  {
    if Legal1(hash, ids, op) {
      ApplyRepresents(r, hash, ids, op);
    } else {
      match op {
        case Add(id) => TakenHashIsDoubled(r, hash, id);
        case Drop(id) =>
          var m :| m in ids && hash(m) == hash(id) && m != id;
          assert m in Members1(ids, op) && hash(m) !in Apply(r, hash, op).nodeMap;
      }
    }
  }

  /** At every moment of the history the ring is well formed over exactly the current members. */
  ghost predicate RepresentsThroughout(r: RingState, hash: Hash, ids: set<string>, ops: seq<Op>)
    decreases |ops|
  {
    && Represents(r, hash, ids)
    && (ops == [] || RepresentsThroughout(Apply(r, hash, ops[0]), hash, Members1(ids, ops[0]), ops[1..]))
  }

  /**
   * The ring is a faithful picture of its members at every moment of a history if and only if the history is
   * legal: no node is added whose hash is taken, and no node is removed whose hash is another member's.
   */
  lemma {:induction false} RepresentsIffLegal(r: RingState, hash: Hash, ids: set<string>, ops: seq<Op>)
    requires Represents(r, hash, ids)
    ensures RepresentsThroughout(r, hash, ids, ops) <==> Legal(hash, ids, ops)
    decreases |ops|
  {
    if ops != [] {
      ApplyRepresentsIff(r, hash, ids, ops[0]);
      if Legal1(hash, ids, ops[0]) {
        RepresentsIffLegal(Apply(r, hash, ops[0]), hash, Members1(ids, ops[0]), ops[1..]);
      }
    }
  }

  /** After a legal history the ring is well formed over exactly the final members. */
  lemma {:induction false} RunRepresents(r: RingState, hash: Hash, ids: set<string>, ops: seq<Op>)
    requires Represents(r, hash, ids) && Legal(hash, ids, ops)
    ensures Represents(Run(r, hash, ops), hash, Members(ids, ops))
    decreases |ops|
  {
    if ops != [] {
      ApplyRepresents(r, hash, ids, ops[0]);
      RunRepresents(Apply(r, hash, ops[0]), hash, Members1(ids, ops[0]), ops[1..]);
    }
  }

  lemma {:induction false} SortedListIsUnique(a: seq<uint32>, b: seq<uint32>)
    requires StrictlyAscending(a) && StrictlyAscending(b) && forall x :: x in a <==> x in b
    ensures a == b
  {
    if a == [] {
      NonEmptyHasElement(b);
    } else {
      assert a[0] in b && b[0] in a;
      assert a[0] == b[0];
      forall x ensures x in a[1..] <==> x in b[1..] {
        assert x in a[1..] <==> x in a && x != a[0];
        assert x in b[1..] <==> x in b && x != b[0];
      }
      SortedListIsUnique(a[1..], b[1..]);
    }
  }

  /** The ring depends only on the set of members, not on the history that produced it. */
  lemma RingDependsOnMembersOnly(r1: RingState, r2: RingState, hash: Hash, ids: set<string>)
    requires Represents(r1, hash, ids) && Represents(r2, hash, ids)
    ensures r1 == r2
  {
    forall x ensures x in r1.nodeMap <==> x in r2.nodeMap { }
    assert r1.nodeMap == r2.nodeMap;
    SortedListIsUnique(r1.nodes, r2.nodes);
  }

  /** Two legal histories that end with the same members end with the same ring, whatever came between. */
  lemma HistoriesAgree(hash: Hash, a: seq<Op>, b: seq<Op>)
    requires Legal(hash, {}, a) && Legal(hash, {}, b) && Members({}, a) == Members({}, b)
    ensures Run(EMPTY_RING, hash, a) == Run(EMPTY_RING, hash, b)
  {
    RunRepresents(EMPTY_RING, hash, {}, a);
    RunRepresents(EMPTY_RING, hash, {}, b);
    RingDependsOnMembersOnly(Run(EMPTY_RING, hash, a), Run(EMPTY_RING, hash, b), hash, Members({}, a));
  }

  // ---------- Minimal disruption ----------

  /** Adding a node takes over exactly the keys it is nearest to, and moves no other key. */
  lemma AddMovesOnlyToNew(nodeMap: map<uint32, string>, n: uint32, id: string, h: uint32)
    requires n !in nodeMap
    ensures Owner(nodeMap[n := id], h) == if Nearest(nodeMap.Keys + {n}, h, n) then id else Owner(nodeMap, h)
  {
    var more := nodeMap[n := id];
    assert more.Keys == nodeMap.Keys + {n};
    NearestExists(more.Keys, h);
    var best :| Nearest(more.Keys, h, best);
    OwnerIs(more, h, best);
    if best == n {
    } else {
      if Nearest(nodeMap.Keys + {n}, h, n) { NearestIsUnique(more.Keys, h, best, n); }
      assert Nearest(nodeMap.Keys, h, best);
      OwnerIs(nodeMap, h, best);
    }
  }

  /** Removing a node moves only the keys it owned. */
  lemma RemoveMovesOnlyItsOwn(nodeMap: map<uint32, string>, n: uint32, h: uint32)
    requires !Nearest(nodeMap.Keys, h, n)
    ensures Owner(nodeMap - {n}, h) == Owner(nodeMap, h)
  {
    var less := nodeMap - {n};
    if nodeMap != map[] {
      assert nodeMap.Keys != {} by { assert exists k :: k in nodeMap; }
      NearestExists(nodeMap.Keys, h);
      var best :| Nearest(nodeMap.Keys, h, best);
      OwnerIs(nodeMap, h, best);
      assert best in less.Keys && Nearest(less.Keys, h, best);
      OwnerIs(less, h, best);
    } else {
      assert less == map[];
    }
  }

  lemma RemovalUndoes(nodes: seq<uint32>, more: seq<uint32>, n: uint32)
    requires StrictlyAscending(nodes) && StrictlyAscending(more)
    requires n !in nodes && forall x :: x in more <==> x in nodes || x == n
    ensures RemoveFirst(more, n) == nodes
  {
    RemoveFirstKeepsOrder(more, n);
    SortedListIsUnique(nodes, RemoveFirst(more, n));
  }

  /** Adding a fresh node and removing it again restores the whole ring, hence every owner. */
  lemma AddThenRemoveRestores(r: RingState, hash: Hash, id: string)
    requires WellFormed(r) && hash(id) !in r.nodeMap
    ensures RemoveStep(AddStep(r, hash, id), hash, id) == r
  {
    var r1 := AddStep(r, hash, id);
    AddKeepsWellFormed(r, hash, id);
    assert forall x :: x in r1.nodes <==> x in r1.nodeMap;
    RemovalUndoes(r.nodes, r1.nodes, hash(id));
    assert r1.nodeMap - {hash(id)} == r.nodeMap;
  }

  /** The shortest such harm: a node added twice and removed once leaves a hash with no node, and lookups no owner. */
  lemma DoubleAddLeavesAStaleHash(hash: Hash, id: string)
    ensures Run(EMPTY_RING, hash, [Add(id), Add(id), Drop(id)]) == RingState([hash(id)], map[])
    ensures !WellFormed(RingState([hash(id)], map[]))
  {
    var h := hash(id);
    assert Sort([] + [h]) == [h];
    var s := [h] + [h];
    assert s[1..] == [h];
    assert Sort(s) == Insert(h, Sort([h])) == [h, h];
    assert [h, h][1..] == [h];
    var m: map<uint32, string> := map[h := id];
    assert m[h := id] - {h} == map[];
    var r1 := AddStep(EMPTY_RING, hash, id);
    var r2 := AddStep(r1, hash, id);
    assert Run(r2, hash, [Drop(id)]) == RemoveStep(r2, hash, id);
    assert [Add(id), Add(id), Drop(id)][1..] == [Add(id), Drop(id)];
    assert [Add(id), Drop(id)][1..] == [Drop(id)];
    assert h in [h];
  }

  // ---------- The ring object ----------

  class ConsistentHash {
    const hash: Hash
    var nodes: seq<uint32>
    var nodeMap: map<uint32, string>

    constructor (hash: Hash)
      ensures this.hash == hash && State() == EMPTY_RING
    {
      this.hash := hash;
      nodes, nodeMap := [], map[];
    }

    function State(): RingState
      reads this
    {
      RingState(nodes, nodeMap)
    }

    method AddNode(nodeID: string)
      modifies this
      ensures State() == AddStep(old(State()), hash, nodeID)
    {
      var h := hash(nodeID);
      nodes := nodes + [h];
      nodeMap := nodeMap[h := nodeID];
      nodes := Sort(nodes);
    }

    method RemoveNode(nodeID: string)
      modifies this
      ensures State() == RemoveStep(old(State()), hash, nodeID)
    {
      var h := hash(nodeID);
      nodeMap := nodeMap - {h};
      for i := 0 to |nodes|
        invariant nodes == old(nodes)
        invariant h !in nodes[..i]
      {
        if nodes[i] == h {
          RemoveFirstAt(nodes, h, i);
          nodes := nodes[..i] + nodes[i + 1..];
          return;
        }
      }
      assert nodes[..|nodes|] == nodes;
      RemoveFirstAbsent(nodes, h);
    }

    /** The library bisection: the first index whose hash is at least `h`. */
    method Search(h: uint32) returns (idx: nat)
      requires Ascending(nodes)
      ensures idx <= |nodes|
      ensures forall k :: 0 <= k < idx ==> nodes[k] < h
      ensures forall k :: idx <= k < |nodes| ==> nodes[k] >= h
    {
      var i, j := 0, |nodes|;
      while i < j
        invariant 0 <= i <= j <= |nodes|
        invariant forall k :: 0 <= k < i ==> nodes[k] < h
        invariant forall k :: j <= k < |nodes| ==> nodes[k] >= h
      {
        var mid := (i + j) / 2;
        if !(nodes[mid] >= h) { i := mid + 1; } else { j := mid; }
      }
      idx := i;
    }

    /**
     * The clockwise successor of the key's hash, whenever array and map hold the same hashes (an array with
     * repetitions does no harm). After an illegal removal the nearest hash may have lost its node; the answer is
     * then the empty name.
     */
    method GetNode(key: string) returns (node: string)
      requires Ascending(nodes)
      ensures nodes == [] ==> node == ""
      ensures nodes != [] ==>
                exists n :: Nearest((set x | x in nodes), hash(key), n)
                            && node == if n in nodeMap then nodeMap[n] else ""
      ensures SameHashes(State()) ==> node == Owner(nodeMap, hash(key))
    {
      if |nodes| == 0 {
        assert SameHashes(State()) ==> nodeMap == map[];
        return "";
      }
      var h := hash(key);
      var idx := Search(h);
      if idx == |nodes| {
        idx := 0;
      }
      var n := nodes[idx];
      node := if n in nodeMap then nodeMap[n] else "";
      ghost var points := set x | x in nodes;
      assert Nearest(points, h, n);
      if SameHashes(State()) {
        assert points == nodeMap.Keys;
        OwnerIs(nodeMap, h, n);
      }
    }
  }
}
