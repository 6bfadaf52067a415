/**
 * Documents as the program holds them: nested mutable maps, changed in place while walking down a path.
 * Every node carries the document it stands for as a ghost value, and a set of nodes is a Forest when all
 * their real fields agree with those values. The walks are proved against the functions of JsonPath and JsonRef.
 */
module JsonHeap {
  import opened Base
  import opened Json
  import opened JsonPath
  import opened JsonRef

  /** A field holds a nested map or any other JSON value. */
  datatype Val = Leaf(json: Json) | Ref(node: Node)

  class Node {
    var fields: map<string, Val>
    ghost var tree: Json
    ghost var parent: Node?
    ghost var slot: string

    constructor ()
      ensures fields == map[] && tree == EMPTY && parent == null
    {
      fields, tree, parent := map[], EMPTY, null;
    }
  }

  ghost function TreeOf(v: Val): Json
    reads if v.Ref? then {v.node} else {}
  {
    if v.Ref? then v.node.tree else v.json
  }

  /** Field `k` of `n` holds what the document `j` has there; a nested map knows the one slot it hangs in. */
  ghost predicate Holds(n: Node, k: string, j: Json, S: set<Node>)
    requires k in n.fields && j.Obj? && k in j.fields
    reads n, S
  {
    match n.fields[k]
    case Leaf(x) => !x.Obj? && j.fields[k] == x
    case Ref(m) => m in S && m.parent == n && m.slot == k && j.fields[k] == m.tree
  }

  /** The real fields of `n` spell out the document `j`. */
  ghost predicate Spells(n: Node, j: Json, S: set<Node>)
    reads n, S
  {
    j.Obj? && j.fields.Keys == n.fields.Keys && forall k :: k in n.fields ==> Holds(n, k, j, S)
  }

  ghost predicate Forest(S: set<Node>)
    reads S
  {
    forall n :: n in S ==> Spells(n, n.tree, S)
  }

  /** A value that can be attached: not an object, or the unattached root of a forest. */
  ghost predicate Attachable(v: Val, T: set<Node>)
    reads T, if v.Ref? then {v.node} else {}
  {
    && Forest(T)
    && (v.Leaf? ==> !v.json.Obj?)
    && (v.Ref? ==> v.node in T && v.node.parent == null)
  }

  /** A nil map reads as the empty object. */
  ghost function DocOf(obj: Node?): Json
    reads if obj == null then {} else {obj}
  {
    if obj == null then EMPTY else obj.tree
  }

  ghost predicate Root(obj: Node?, S: set<Node>)
    reads S, if obj == null then {} else {obj}
  {
    Forest(S) && (obj != null ==> obj in S && obj.parent == null)
  }

  // ---------- Single steps of a walk ----------

  /**
   * A walk that stands at `cur`: the node still spells `was` but already carries the document it
   * is going to stand for; every other node spells the document it carries.
   */
  ghost predicate Walking(S: set<Node>, cur: Node, was: Json)
    reads S, cur
  {
    && cur in S && cur.parent != cur && Spells(cur, was, S)
    && forall n :: n in S && n != cur ==> Spells(n, n.tree, S)
  }

  /** Moves the walk to an existing child, which is going to stand for `t`. */
  ghost method Enter(S: set<Node>, cur: Node, was: Json, key: string, next: Node, t: Json)
    requires Walking(S, cur, was) && key in cur.fields && cur.fields[key] == Ref(next)
    requires cur.tree == Obj(was.fields[key := t])
    modifies next`tree
    ensures next.tree == t && Walking(S, next, old(next.tree))
  {
    assert Holds(cur, key, was, S);
    next.tree := t;
    forall n | n in S ensures Spells(n, if n == next then old(next.tree) else n.tree, S) {
      var j := if n == next then old(next.tree) else n.tree;
      forall k | k in n.fields ensures Holds(n, k, j, S) {
        assert old(Holds(n, k, if n == cur then was else n.tree, S));
      }
    }
  }

  /** The nested map under a key, or null if there is no such key or another value. */
  method NextMap(ghost S: set<Node>, cur: Node, ghost was: Json, key: string) returns (next: Node?)
    requires Walking(S, cur, was)
    ensures key in cur.fields <==> key in was.fields
    ensures next == null <==> key !in was.fields || !was.fields[key].Obj?
    ensures next != null ==> key in cur.fields && cur.fields[key] == Ref(next) && next in S && next.parent == cur
                             && next.tree == was.fields[key]
  {
    if key !in cur.fields {
      return null;
    }
    assert Holds(cur, key, was, S);
    var val := cur.fields[key];
    if val.Ref? {
      var m := val.node;
      assert m != cur ==> Spells(m, m.tree, S);
      next := m;
    } else {
      next := null;
    }
  }

  /** Hangs a fresh empty map at a free key and moves the walk to it. */
  method NewChild(ghost S: set<Node>, cur: Node, ghost was: Json, key: string, ghost t: Json) returns (next: Node)
    requires Walking(S, cur, was) && key !in cur.fields
    requires cur.tree == Obj(was.fields[key := t])
    modifies cur`fields
    ensures fresh(next) && next.tree == t && next.parent == cur && Walking(S + {next}, next, EMPTY)
  {
    next := new Node();
    next.tree, next.parent, next.slot := t, cur, key;
    cur.fields := cur.fields[key := Ref(next)];
    forall n | n in S ensures Spells(n, n.tree, S + {next}) {
      forall k | k in n.fields ensures Holds(n, k, n.tree, S + {next}) {
        assert n != cur || k != key ==> old(Holds(n, k, if n == cur then was else n.tree, S));
      }
    }
  }

  /** Stores a value in the node where the walk ends. */
  method SetField(ghost S: set<Node>, ghost T: set<Node>, cur: Node, ghost was: Json, key: string, value: Val)
    requires Walking(S, cur, was) && Attachable(value, T) && S !! T
    requires cur.tree == Obj(was.fields[key := TreeOf(value)])
    modifies cur`fields, (set n | n in T && value == Ref(n))`parent, (set n | n in T && value == Ref(n))`slot
    ensures Forest(S + T)
  {
    cur.fields := cur.fields[key := value];
    if value.Ref? {
      ghost var v := value.node;
      v.parent, v.slot := cur, key;
    }
    forall n | n in S + T ensures Spells(n, n.tree, S + T) {
      forall k | k in n.fields ensures Holds(n, k, n.tree, S + T) {
        if n in S {
          assert n != cur || k != key ==> old(Holds(n, k, if n == cur then was else n.tree, S));
        } else {
          assert old(Holds(n, k, n.tree, T));
        }
      }
    }
  }

  /** Deletes a key of the node where the walk ends. */
  method DeleteField(ghost S: set<Node>, cur: Node, ghost was: Json, key: string)
    requires Walking(S, cur, was) && cur.tree == Obj(was.fields - {key})
    modifies cur`fields
    ensures Forest(S)
  {
    cur.fields := cur.fields - {key};
    forall n | n in S ensures Spells(n, n.tree, S) {
      forall k | k in n.fields ensures Holds(n, k, n.tree, S) {
        assert old(Holds(n, k, if n == cur then was else n.tree, S));
      }
    }
  }

  /** The body of the insertion loop: enters the child at `keys[i]`, creating it if missing; null on an invalid path. */
  method EnterOrCreate(ghost S: set<Node>, cur: Node, ghost was: Json, keys: Path, i: nat, ghost vt: Json)
    returns (next: Node?, ghost below: Json, ghost S1: set<Node>)
    requires Walking(S, cur, was) && i + 1 < |keys| && cur.tree == Put(was, keys[i..], vt)
    modifies S
    ensures next == null ==> Add(was, keys[i..], vt).None? && Walking(S, cur, was)
    ensures next != null ==>
              && Walking(S1, next, below) && next.parent == cur && next.tree == Put(below, keys[i + 1..], vt)
              && (Add(was, keys[i..], vt).Some? <==> Add(below, keys[i + 1..], vt).Some?)
    ensures Add(was, keys[i..], vt).None? ==> S1 == S
    ensures Add(was, keys[i..], vt).None? ==> forall n :: n in S ==> n.fields == old(n.fields) && n.tree == old(n.tree)
    ensures S <= S1 && fresh(S1 - S)
    ensures forall n :: n in S ==> n.parent == old(n.parent) && (n != next ==> n.tree == old(n.tree))
  {
    PutStepAt(was, keys, i, vt);
    S1, below := S, was;
    var key := keys[i];
    if key !in cur.fields {
      AddToEmptyWorks(keys[i + 1..], vt);
      next := NewChild(S, cur, was, key, Put(EMPTY, keys[i + 1..], vt));
      S1, below := S + {next}, EMPTY;
    } else {
      assert Holds(cur, key, was, S);
      if cur.fields[key].Leaf? {
        return null, was, S;
      }
      next := cur.fields[key].node;
      below := next.tree;
      Enter(S, cur, was, key, next, Put(below, keys[i + 1..], vt));
    }
  }

  // ---------- The walks ----------

  /**
   * JSON.ADD: sets the last key of the path, creating missing objects. Returns the (possibly new) root;
   * an invalid path is reported and leaves every node as it was.
   */
  method AddNestedKey(obj: Node?, path: string, value: Val, ghost S: set<Node>, ghost T: set<Node>)
    returns (root: Node?, ok: bool, ghost S1: set<Node>)
    requires Root(obj, S) && Attachable(value, T) && S !! T
    modifies S, T
    ensures ok <==> Add(old(DocOf(obj)), Split(path), old(TreeOf(value))).Some?
    ensures ok ==> root != null && Root(root, S1) && (obj != null ==> root == obj)
    ensures ok ==> Some(root.tree) == Add(old(DocOf(obj)), Split(path), old(TreeOf(value)))
    ensures !ok ==> root == null && S1 == S && Root(obj, S)
    ensures !ok ==> forall n :: n in S ==> n.fields == old(n.fields) && n.tree == old(n.tree)
    ensures obj != null ==> S <= S1
    ensures fresh(S1 - S - T)
  {
    var keys := Split(path);
    if obj == null {
      var fresh_ := new Node();
      AddToEmptyWorks(keys, TreeOf(value));
      ok, S1 := SetAlong(fresh_, keys, value, {fresh_}, T);
      root := fresh_;
    } else {
      ok, S1 := SetAlong(obj, keys, value, S, T);
      root := if ok then obj else null;
    }
  }

  method SetAlong(root: Node, keys: Path, value: Val, ghost S: set<Node>, ghost T: set<Node>)
    returns (ok: bool, ghost S1: set<Node>)
    requires Root(root, S) && Attachable(value, T) && S !! T
    modifies S, T
    ensures ok <==> Add(old(root.tree), keys, old(TreeOf(value))).Some?
    ensures ok ==> Root(root, S1) && Some(root.tree) == Add(old(root.tree), keys, old(TreeOf(value)))
    ensures !ok ==> S1 == S && Root(root, S)
    ensures !ok ==> forall n :: n in S ==> n.fields == old(n.fields) && n.tree == old(n.tree)
    ensures S <= S1 && fresh(S1 - S - T)
  {
    ghost var vt := TreeOf(value);
    ghost var before := root.tree;
    var current: Node := root;
    ghost var was := before;
    S1 := S;
    root.tree := Put(before, keys, vt);
    assert keys[0..] == keys;
    var i := 0;
    while i < |keys| - 1
      invariant 0 <= i < |keys|
      invariant S <= S1 && S1 !! T && fresh(S1 - S)
      invariant root in S1 && root.parent == null && root.tree == Put(before, keys, vt)
      invariant Walking(S1, current, was) && current.tree == Put(was, keys[i..], vt)
      invariant Add(before, keys, vt).Some? <==> Add(was, keys[i..], vt).Some?
      invariant Add(before, keys, vt).None? ==> S1 == S
      invariant Add(before, keys, vt).None? ==>
                  forall n :: n in S ==> n.fields == old(n.fields) && n.tree == old(n.tree)
      invariant Attachable(value, T) && TreeOf(value) == vt
    {
      var next;
      ghost var below, S2;
      next, below, S2 := EnterOrCreate(S1, current, was, keys, i, vt);
      if next == null {
        assert current.tree == was;
        return false, S;
      }
      current, was, S1, i := next, below, S2, i + 1;
    }
    assert keys[i..] == [keys[i]];
    SetField(S1, T, current, was, keys[i], value);
    S1 := S1 + T;
    ok := true;
  }

  /** The body of the removal loop: enters the nested map at `keys[i]`; null, and no change, if there is none. */
  method EnterToRemove(ghost S: set<Node>, cur: Node, ghost was: Json, keys: Path, i: nat)
    returns (next: Node?, ghost below: Json)
    requires Walking(S, cur, was) && i + 1 < |keys| && cur.tree == Drop(was, keys[i..])
    modifies S`tree
    ensures next == null ==> Walking(S, cur, was) && cur.tree == was
    ensures next == null ==> (Remove(was, keys[i..]).Some? <==> keys[i] !in cur.fields)
    ensures next != null ==>
              && keys[i] in cur.fields && Walking(S, next, below) && next.parent == cur
              && next.tree == Drop(below, keys[i + 1..])
              && (Remove(was, keys[i..]).Some? <==> Remove(below, keys[i + 1..]).Some?)
    ensures Remove(was, keys[i..]).None? ==> forall n :: n in S ==> n.tree == old(n.tree)
    ensures forall n :: n in S && n != next ==> n.tree == old(n.tree)
  {
    DropStepAt(was, keys, i);
    next := NextMap(S, cur, was, keys[i]);
    below := was;
    if next != null {
      below := next.tree;
      Enter(S, cur, was, keys[i], next, Drop(below, keys[i + 1..]));
    }
  }

  /** JSON.REMOVE: deletes the last key of the path; a missing path is no error, a blocked one changes nothing. */
  method RemoveNestedKey(obj: Node?, path: string, ghost S: set<Node>) returns (root: Node?, ok: bool)
    requires Root(obj, S)
    modifies S
    ensures ok <==> Remove(old(DocOf(obj)), Split(path)).Some?
    ensures ok ==> root == obj && Root(obj, S) && Some(DocOf(obj)) == Remove(old(DocOf(obj)), Split(path))
    ensures !ok ==> root == null && Root(obj, S)
    ensures !ok ==> forall n :: n in S ==> n.fields == old(n.fields) && n.tree == old(n.tree)
  {
    if obj == null {
      return obj, true;
    }
    ok := RemoveAlong(obj, Split(path), S);
    root := if ok then obj else null;
  }

  method RemoveAlong(root: Node, keys: Path, ghost S: set<Node>) returns (ok: bool)
    requires Root(root, S)
    modifies S
    ensures ok <==> Remove(old(root.tree), keys).Some?
    ensures Root(root, S) && (ok ==> Some(root.tree) == Remove(old(root.tree), keys))
    ensures !ok ==> forall n :: n in S ==> n.fields == old(n.fields) && n.tree == old(n.tree)
  {
    var current: Node := root;
    ghost var before := root.tree;
    ghost var was := before;
    root.tree := Drop(before, keys);
    assert keys[0..] == keys;
    var i := 0;
    while i < |keys| - 1
      invariant 0 <= i < |keys|
      invariant root.parent == null && root.tree == Drop(before, keys)
      invariant Walking(S, current, was) && current.tree == Drop(was, keys[i..])
      invariant Remove(before, keys).Some? <==> Remove(was, keys[i..]).Some?
      invariant Remove(before, keys).None? ==>
                  forall n :: n in S ==> n.fields == old(n.fields) && n.tree == old(n.tree)
    {
      var next;
      ghost var below;
      next, below := EnterToRemove(S, current, was, keys, i);
      if keys[i] !in current.fields {
        return true;
      }
      if next == null {
        return false;
      }
      current, was, i := next, below, i + 1;
    }
    assert keys[i..] == [keys[i]];
    DeleteField(S, current, was, keys[i]);
    ok := true;
  }

  /** Looks up a dotted path; the empty path names the whole document. */
  method ReadNestedKey(obj: Node?, path: string, ghost S: set<Node>) returns (r: Option<Val>)
    requires Root(obj, S)
    ensures obj != null ==>
              match r
              case Some(v) => (v.Ref? ==> v.node in S)
                              && Read(obj.tree, if path == "" then [] else Split(path)) == Some(TreeOf(v))
              case None => Read(obj.tree, if path == "" then [] else Split(path)).None?
    ensures obj == null ==> r == if path == "" then Some(Leaf(Null)) else None
  {
    if path == "" {
      return Some(if obj == null then Leaf(Null) else Ref(obj));
    }
    if obj == null {
      return None;
    }
    var keys := Split(path);
    var current: Node := obj;
    assert keys[0..] == keys;
    for i := 0 to |keys|
      invariant current in S && i < |keys|
      invariant Read(obj.tree, keys) == Read(current.tree, keys[i..])
    {
      var key := keys[i];
      assert Spells(current, current.tree, S);
      assert keys[i..][1..] == keys[i + 1..];
      if key !in current.fields {
        return None;
      }
      var val := current.fields[key];
      assert Holds(current, key, current.tree, S);
      if i == |keys| - 1 {
        return Some(val);
      }
      if val.Leaf? {
        return None;
      }
      current := val.node;
    }
    return None;
  }

  /** All fields of the document `j` but those still to do. */
  ghost predicate Filled(tree: Json, j: Json, todo: set<string>)
  {
    && tree.Obj? && j.Obj? && tree.fields.Keys == j.fields.Keys - todo
    && forall k :: k in tree.fields ==> tree.fields[k] == j.fields[k]
  }

  lemma FillNext(tree: Json, j: Json, todo: set<string>, k: string)
    requires Filled(tree, j, todo) && k in todo && todo <= j.fields.Keys
    ensures Filled(Obj(tree.fields[k := j.fields[k]]), j, todo - {k})
  {
  }

  lemma FilledIsWhole(tree: Json, j: Json)
    requires Filled(tree, j, {})
    ensures tree == j
  {
    assert tree.fields == j.fields;
  }

  /** Builds the nested maps of a parsed document. */
  method Unmarshal(j: Json) returns (v: Val, ghost T: set<Node>)
    ensures Attachable(v, T) && fresh(T) && TreeOf(v) == j
    decreases j, 1
  {
    if !j.Obj? {
      return Leaf(j), {};
    }
    var n;
    n, T := UnmarshalFields(j);
    v := Ref(n);
  }

  method UnmarshalFields(j: Json) returns (n: Node, ghost T: set<Node>)
    requires j.Obj?
    ensures Root(n, T) && fresh(T) && n.tree == j
    decreases j, 0
  {
    n := new Node();
    T := {n};
    var todo := j.fields.Keys;
    while todo != {}
      invariant todo <= j.fields.Keys && fresh(T) && Root(n, T) && Filled(n.tree, j, todo)
      decreases |todo|
    {
      var k :| k in todo;
      FillNext(n.tree, j, todo, k);
      T := UnmarshalField(n, k, j.fields[k], T);
      todo := todo - {k};
    }
    FilledIsWhole(n.tree, j);
  }

  method UnmarshalField(n: Node, k: string, j: Json, ghost S: set<Node>) returns (ghost T: set<Node>)
    requires Root(n, S)
    modifies n
    ensures Root(n, T) && S <= T && fresh(T - S)
    ensures n.tree == Obj(old(n.tree).fields[k := j])
    decreases j, 2
  {
    var child;
    ghost var U;
    child, U := Unmarshal(j);
    ghost var was := n.tree;
    n.tree := Obj(was.fields[k := j]);
    SetField(S, U, n, was, k, child);
    T := S + U;
  }

  /** JSON.GET with one reference field: stores the referenced document beside the reference. */
  method ResolveReference(obj: Node, path: string, lookup: string -> Lookup, ghost S: set<Node>)
    returns (ok: bool, ghost S1: set<Node>)
    requires Root(obj, S)
    modifies S
    ensures Root(obj, S1) && S <= S1 && fresh(S1 - S)
    ensures Resolved(obj.tree, ok) == Resolve(old(obj.tree), Split(path), lookup)
  {
    var keys := Split(path);
    var current;
    ghost var was;
    current, was := FindReference(obj, keys, lookup, S);
    if current == null {
      return false, S;
    }
    ok, S1 := AttachReferenced(S, current, was, keys[|keys| - 1], lookup);
  }

  /** The body of that walk: enters the nested map at `keys[i]`; null if there is none, and then nothing changes. */
  method EnterToResolve(ghost S: set<Node>, cur: Node, ghost was: Json, keys: Path, i: nat, lookup: string -> Lookup)
    returns (next: Node?, ghost below: Json)
    requires Walking(S, cur, was) && i + 1 < |keys| && cur.tree == Resolve(was, keys[i..], lookup).doc
    modifies S`tree
    ensures next == null ==> Forest(S) && !Resolve(was, keys[i..], lookup).ok
    ensures next != null ==>
              && Walking(S, next, below) && next.parent == cur
              && Resolve(below, keys[i + 1..], lookup) == Resolved(next.tree, Resolve(was, keys[i..], lookup).ok)
    ensures forall n :: n in S && n != next ==> n.tree == old(n.tree)
  {
    ResolveStepAt(was, keys, i, lookup);
    next := NextMap(S, cur, was, keys[i]);
    below := was;
    if next != null {
      below := next.tree;
      Enter(S, cur, was, keys[i], next, Resolve(below, keys[i + 1..], lookup).doc);
    }
  }

  /** The walk down to the map that should hold the reference; null if there is no such map. */
  method FindReference(obj: Node, keys: Path, lookup: string -> Lookup, ghost S: set<Node>)
    returns (current: Node?, ghost was: Json)
    requires Root(obj, S)
    modifies S
    ensures obj.parent == null && obj.tree == Resolve(old(obj.tree), keys, lookup).doc
    ensures current == null ==> Forest(S) && !Resolve(old(obj.tree), keys, lookup).ok
    ensures current != null ==>
              && Walking(S, current, was)
              && Resolve(was, [keys[|keys| - 1]], lookup)
              == Resolved(current.tree, Resolve(old(obj.tree), keys, lookup).ok)
  {
    var cur: Node := obj;
    was := obj.tree;
    ghost var goal := Resolve(was, keys, lookup);
    obj.tree := goal.doc;
    assert keys[0..] == keys;
    var i := 0;
    while i < |keys| - 1
      invariant 0 <= i < |keys|
      invariant obj in S && obj.parent == null && obj.tree == goal.doc
      invariant Walking(S, cur, was)
      invariant Resolve(was, keys[i..], lookup) == Resolved(cur.tree, goal.ok)
    {
      var next;
      ghost var below;
      next, below := EnterToResolve(S, cur, was, keys, i, lookup);
      if next == null {
        return null, was;
      }
      cur, was, i := next, below, i + 1;
    }
    assert keys[i..] == [keys[i]];
    current := cur;
  }

  /** The end of the walk: looks the reference up and attaches what it refers to. */
  method AttachReferenced(ghost S: set<Node>, cur: Node, ghost was: Json, key: string, lookup: string -> Lookup)
    returns (ok: bool, ghost S1: set<Node>)
    requires Walking(S, cur, was) && cur.tree == Resolve(was, [key], lookup).doc
    modifies cur`fields
    ensures Forest(S1) && S <= S1 && fresh(S1 - S) && ok == Resolve(was, [key], lookup).ok
  {
    if key !in cur.fields {
      return false, S;
    }
    assert Holds(cur, key, was, S);
    if cur.fields[key].Ref? || !cur.fields[key].json.Str? || !(REF_TAG <= cur.fields[key].json.s) {
      return true, S;
    }
    match lookup(cur.fields[key].json.s[|REF_TAG|..]) {
      case Document(j) =>
        var refData;
        ghost var T;
        refData, T := Unmarshal(j);
        SetField(S, T, cur, was, "_" + key, refData);
        return true, S + T;
      case _ =>
        return false, S;
    }
  }

  /** The list of reference fields, each looked up anew: stops at the first error. */
  method ReadRefs(obj: Node, paths: seq<string>, lookups: seq<string -> Lookup>, ghost S: set<Node>)
    returns (ok: bool, ghost S1: set<Node>)
    requires Root(obj, S) && |lookups| == |paths|
    modifies S
    ensures Root(obj, S1) && S <= S1 && fresh(S1 - S)
    ensures Resolved(obj.tree, ok) == RefRead(old(obj.tree), paths, lookups)
  {
    S1 := S;
    assert paths[0..] == paths && lookups[0..] == lookups;
    for i := 0 to |paths|
      invariant Root(obj, S1) && S <= S1 && fresh(S1 - S)
      invariant RefRead(old(obj.tree), paths, lookups) == RefRead(obj.tree, paths[i..], lookups[i..])
    {
      assert paths[i..][1..] == paths[i + 1..] && lookups[i..][1..] == lookups[i + 1..];
      ok, S1 := ResolveReference(obj, paths[i], lookups[i], S1);
      if !ok {
        return;
      }
    }
    ok := true;
  }

  /** One reference of SETREF, its error ignored; a nil map stays nil (what the walk builds for it is thrown away). */
  method PutRef(M: Node?, k: string, target: string, ghost S: set<Node>) returns (ghost S1: set<Node>)
    requires Root(M, S)
    modifies S
    ensures Root(M, S1) && S <= S1 && fresh(S1 - S)
    ensures M != null ==> M.tree == Put(old(M.tree), Split(k), RefText(target))
  {
    S1 := S;
    if M != null {
      var root, ok;
      root, ok, S1 := AddNestedKey(M, k, Leaf(RefText(target)), S, {});
    }
  }

  /** The store had what the references visited so far refer to, each when it was put. */
  ghost predicate WerePresent(visited: seq<string>, refs: map<string, string>, present: nat -> string -> bool)
  {
    forall i :: 0 <= i < |visited| ==> visited[i] in refs && present(i)(refs[visited[i]])
  }

  lemma OneMorePresent(visited: seq<string>, refs: map<string, string>, present: nat -> string -> bool, k: string)
    requires WerePresent(visited, refs, present) && k in refs && present(|visited|)(refs[k])
    ensures WerePresent(visited + [k], refs, present)
  {
  }

  /**
   * JSON.SETREF: puts one reference string per entry of the map, in whatever order the map is visited,
   * ignoring invalid paths. In strict mode a reference to a missing key stops it; `present` says which keys the
   * store has when the reference at a position of the order is put.
   */
  method SetRefs(M: Node?, refs: map<string, string>, strict: bool, present: nat -> string -> bool, ghost S: set<Node>)
    returns (ok: bool, ghost visited: seq<string>, ghost S1: set<Node>)
    requires Root(M, S)
    modifies S
    ensures Root(M, S1)
    ensures Distinct(visited) && forall k :: k in visited ==> k in refs
    ensures strict ==> WerePresent(visited, refs, present)
    ensures ok ==> Enumerates(visited, refs)
    ensures !ok ==> strict && exists k :: k in refs && k !in visited && !present(|visited|)(refs[k])
    ensures ok && M != null ==>
              forall order :: Enumerates(order, refs) ==> M.tree == PutRefs(old(M.tree), order, refs)
  {
    S1 := S;
    var todo, n := refs.Keys, 0;
    visited := [];
    ghost var before := DocOf(M);
    while todo != {}
      invariant Visited(visited, todo, refs.Keys)
      invariant Root(M, S1) && S <= S1 && fresh(S1 - S)
      invariant n == |visited| && (strict ==> WerePresent(visited, refs, present))
      invariant M != null ==> M.tree == PutRefs(before, visited, refs)
      decreases |todo|
    {
      var k :| k in todo;
      if strict && !present(n)(refs[k]) {
        return false, visited, S1;
      }
      S1 := PutRef(M, k, refs[k], S1);
      PutNextRef(before, visited, todo, refs, k);
      if strict {
        OneMorePresent(visited, refs, present, k);
      }
      visited, todo, n := visited + [k], todo - {k}, n + 1;
    }
    forall order | M != null && Enumerates(order, refs) ensures M.tree == PutRefs(before, order, refs) {
      SetRefOrderIrrelevant(before, visited, order, refs);
    }
    ok := true;
  }
}
