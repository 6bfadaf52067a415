/**
 * The meaning of the path commands on documents: insertion, removal and lookup by key list.
 * Failure ("invalid path") is None. The mutating walks of module JsonHeap refine these functions.
 */
module JsonPath {
  import opened Base
  import opened Json

  /** Looks up a key list; the empty list names the whole document. */
  function Read(d: Json, q: seq<string>): Option<Json>
  {
    if q == [] then Some(d)
    else if !d.Obj? || q[0] !in d.fields then None
    else Read(d.fields[q[0]], q[1..])
  }

  /** What a walk finds at `k` when it creates missing objects. */
  function ChildOrNew(d: Json, k: string): Json
    requires d.Obj?
  {
    if k in d.fields then d.fields[k] else EMPTY
  }

  function Add(d: Json, p: Path, v: Json): (r: Option<Json>)
    requires d.Obj?
    ensures r.Some? ==> r.value.Obj?
    decreases |p|
  {
    if |p| == 1 then Some(Obj(d.fields[p[0] := v]))
    else
      var child := ChildOrNew(d, p[0]);
      if !child.Obj? then None
      else
        match Add(child, p[1..], v)
        case None => None
        case Some(c) => Some(Obj(d.fields[p[0] := c]))
  }

  function Remove(d: Json, p: Path): (r: Option<Json>)
    requires d.Obj?
    ensures r.Some? ==> r.value.Obj?
    decreases |p|
  {
    if |p| == 1 then Some(Obj(d.fields - {p[0]}))
    else if p[0] !in d.fields then Some(d)
    else if !d.fields[p[0]].Obj? then None
    else
      match Remove(d.fields[p[0]], p[1..])
      case None => None
      case Some(c) => Some(Obj(d.fields[p[0] := c]))
  }

  /** Some proper, non-empty prefix of `p` names a value that is not an object. */
  ghost predicate Blocked(d: Json, p: Path)
  {
    exists n :: 0 < n < |p| && NonObjectAt(d, p, n)
  }

  predicate NonObjectAt(d: Json, p: Path, n: nat)
    requires n <= |p|
  {
    var r := Read(d, p[..n]);
    r.Some? && !r.value.Obj?
  }

  /** Neither key list is a prefix of the other. */
  predicate Unrelated(p: seq<string>, q: seq<string>)
  {
    !(p <= q) && !(q <= p)
  }

  // ---------- When insertion and removal fail ----------

  lemma {:induction false} BlockedStep(d: Json, p: Path)
    requires d.Obj? && |p| > 1
    ensures Blocked(d, p) <==>
            p[0] in d.fields && (!d.fields[p[0]].Obj? || Blocked(d.fields[p[0]], p[1..]))
  {
    forall n | 0 < n < |p| ensures NonObjectAt(d, p, n) <==>
        p[0] in d.fields && NonObjectAt(d.fields[p[0]], p[1..], n - 1)
    {
      assert p[..n][1..] == p[1..][..n - 1];
    }
    if p[0] in d.fields {
      var c := d.fields[p[0]];
      assert NonObjectAt(d, p, 1) <==> !c.Obj? by { assert p[1..][..0] == []; }
      if c.Obj? && Blocked(c, p[1..]) {
        var m :| 0 < m < |p| - 1 && NonObjectAt(c, p[1..], m);
        var n := m + 1;
        assert NonObjectAt(d, p, n);
      }
    }
  }

  lemma {:induction false} EmptyIsNeverBlocked(p: Path)
    ensures !Blocked(EMPTY, p)
  {
    forall n | 0 < n < |p| ensures !NonObjectAt(EMPTY, p, n) {
      assert p[..n] != [];
    }
  }

  /** Insertion and removal fail on exactly the same documents: those where the walk is blocked. */
  lemma {:induction false} FailsIffBlocked(d: Json, p: Path, v: Json)
    requires d.Obj?
    ensures Add(d, p, v).None? <==> Blocked(d, p)
    ensures Remove(d, p).None? <==> Blocked(d, p)
    decreases |p|
  {
    if |p| > 1 {
      BlockedStep(d, p);
      if p[0] !in d.fields {
        EmptyIsNeverBlocked(p[1..]);
        FailsIffBlocked(EMPTY, p[1..], v);
      } else if d.fields[p[0]].Obj? {
        FailsIffBlocked(d.fields[p[0]], p[1..], v);
      }
    }
  }

  // ---------- Lens laws ----------

  lemma {:induction false} ReadBelowAdd(d: Json, p: Path, v: Json, r: seq<string>)
    requires d.Obj? && Add(d, p, v).Some?
    ensures Read(Add(d, p, v).value, p + r) == Read(v, r)
    decreases |p|
  {
    assert (p + r)[1..] == p[1..] + r;
    if |p| == 1 {
      assert p[1..] + r == r;
    } else {
      ReadBelowAdd(ChildOrNew(d, p[0]), p[1..], v, r);
    }
  }

  lemma {:induction false} ReadAboveAdd(d: Json, q: seq<string>, r: Path, v: Json)
    requires d.Obj? && Add(d, q + r, v).Some?
    ensures Read(d, q).GetOr(EMPTY).Obj?
    ensures Read(Add(d, q + r, v).value, q) == Add(Read(d, q).GetOr(EMPTY), r, v)
    decreases |q|
  {
    if q == [] {
      assert q + r == r;
    } else {
      assert (q + r)[1..] == q[1..] + r;
      var child := ChildOrNew(d, q[0]);
      ReadAboveAdd(child, q[1..], r, v);
      if q[0] !in d.fields {
        ReadEmpty(q[1..]);
      }
    }
  }

  lemma ReadEmpty(q: seq<string>)
    ensures Read(EMPTY, q).GetOr(EMPTY) == EMPTY
  {
  }

  lemma {:induction false} ReadBesideAdd(d: Json, p: Path, v: Json, q: seq<string>)
    requires d.Obj? && Add(d, p, v).Some? && Unrelated(p, q)
    ensures Read(Add(d, p, v).value, q) == Read(d, q)
    decreases |p|
  {
    if q[0] == p[0] {
      UnrelatedTails(p, q);
      ReadBesideAdd(ChildOrNew(d, p[0]), p[1..], v, q[1..]);
    }
  }

  lemma UnrelatedTails(p: seq<string>, q: seq<string>)
    requires Unrelated(p, q) && p[0] == q[0]
    ensures |p| > 1 && |q| > 1 && Unrelated(p[1..], q[1..])
  {
    assert p == [p[0]] + p[1..] && q == [q[0]] + q[1..];
  }

  /**
   * After a successful insertion, what any key list reads: at or below `p` the new value, above `p`
   * the object found there (or a new one) with the rest of the path inserted, elsewhere no change.
   */
  lemma ReadAfterAdd(d: Json, p: Path, v: Json, q: seq<string>)
    requires d.Obj? && Add(d, p, v).Some?
    ensures p <= q ==> Read(Add(d, p, v).value, q) == Read(v, q[|p|..])
    ensures q < p ==>
              var above := Read(d, q).GetOr(EMPTY);
              above.Obj? && Read(Add(d, p, v).value, q) == Add(above, p[|q|..], v)
    ensures Unrelated(p, q) ==> Read(Add(d, p, v).value, q) == Read(d, q)
  {
    if p <= q {
      assert q == p + q[|p|..];
      ReadBelowAdd(d, p, v, q[|p|..]);
    } else if q < p {
      assert p == q + p[|q|..];
      ReadAboveAdd(d, q, p[|q|..], v);
    } else {
      ReadBesideAdd(d, p, v, q);
    }
  }

  lemma {:induction false} ReadBelowRemove(d: Json, p: Path, r: seq<string>)
    requires d.Obj? && Remove(d, p).Some?
    ensures Read(Remove(d, p).value, p + r).None?
    decreases |p|
  {
    assert (p + r)[1..] == p[1..] + r;
    if |p| > 1 && p[0] in d.fields {
      ReadBelowRemove(d.fields[p[0]], p[1..], r);
    }
  }

  lemma {:induction false} ReadAboveRemove(d: Json, q: seq<string>, r: Path)
    requires d.Obj? && Remove(d, q + r).Some?
    ensures Read(d, q).Some? ==> Read(d, q).value.Obj?
    ensures Read(Remove(d, q + r).value, q)
         == if Read(d, q).Some? then Remove(Read(d, q).value, r) else None
    decreases |q|
  {
    if q == [] {
      assert q + r == r;
    } else if q[0] in d.fields {
      assert (q + r)[1..] == q[1..] + r;
      ReadAboveRemove(d.fields[q[0]], q[1..], r);
    }
  }

  lemma {:induction false} ReadBesideRemove(d: Json, p: Path, q: seq<string>)
    requires d.Obj? && Remove(d, p).Some? && Unrelated(p, q)
    ensures Read(Remove(d, p).value, q) == Read(d, q)
    decreases |p|
  {
    if q[0] == p[0] {
      UnrelatedTails(p, q);
      if p[0] in d.fields {
        ReadBesideRemove(d.fields[p[0]], p[1..], q[1..]);
      }
    }
  }

  /**
   * After a successful removal the path and everything below it is absent, every object above it is
   * still there with the rest of the path removed, and reads elsewhere are unchanged.
   */
  lemma ReadAfterRemove(d: Json, p: Path, q: seq<string>)
    requires d.Obj? && Remove(d, p).Some?
    ensures p <= q ==> Read(Remove(d, p).value, q).None?
    ensures q < p ==>
              Read(Remove(d, p).value, q)
              == if Read(d, q).Some? && Read(d, q).value.Obj? then Remove(Read(d, q).value, p[|q|..]) else None
    ensures Unrelated(p, q) ==> Read(Remove(d, p).value, q) == Read(d, q)
  {
    if p <= q {
      assert q == p + q[|p|..];
      ReadBelowRemove(d, p, q[|p|..]);
    } else if q < p {
      assert p == q + p[|q|..];
      ReadAboveRemove(d, q, p[|q|..]);
    } else {
      ReadBesideRemove(d, p, q);
    }
  }

  lemma {:induction false} RemoveIsIdempotent(d: Json, p: Path)
    requires d.Obj? && Remove(d, p).Some?
    ensures Remove(Remove(d, p).value, p) == Remove(d, p)
    decreases |p|
  {
    if |p| == 1 {
      assert d.fields - {p[0]} - {p[0]} == d.fields - {p[0]};
    } else if p[0] in d.fields {
      RemoveIsIdempotent(d.fields[p[0]], p[1..]);
      var c := Remove(d.fields[p[0]], p[1..]).value;
      assert d.fields[p[0] := c][p[0] := c] == d.fields[p[0] := c];
    }
  }

  /** A later insertion at the same path hides the earlier one. */
  lemma {:induction false} LastAddWins(d: Json, p: Path, v: Json, w: Json)
    requires d.Obj? && Add(d, p, v).Some?
    ensures Add(Add(d, p, v).value, p, w) == Add(d, p, w)
    decreases |p|
  {
    if |p| > 1 {
      LastAddWins(ChildOrNew(d, p[0]), p[1..], v, w);
      var d1 := Add(d, p, v).value;
      var c1 := Add(ChildOrNew(d, p[0]), p[1..], w);
      if c1.Some? {
        assert d1.fields[p[0] := c1.value] == d.fields[p[0] := c1.value];
      }
    } else {
      assert d.fields[p[0] := v][p[0] := w] == d.fields[p[0] := w];
    }
  }

  /**
   * Removing what was just inserted restores the document exactly when the path was absent
   * and its parent object was already there (removal leaves created parents behind).
   */
  lemma {:induction false} RemoveUndoesAdd(d: Json, p: Path, v: Json)
    requires d.Obj? && Add(d, p, v).Some?
    ensures Remove(Add(d, p, v).value, p) == Some(d)
            <==> Read(d, p).None? && Read(d, p[..|p| - 1]).Some?
    decreases |p|
  {
    var d1 := Add(d, p, v).value;
    if |p| == 1 {
      assert p[..0] == [] && p[1..] == [];
      if p[0] !in d.fields {
        assert d1.fields - {p[0]} == d.fields;
      }
    } else {
      assert p[..|p| - 1][1..] == p[1..][..|p[1..]| - 1];
      var c := ChildOrNew(d, p[0]);
      RemoveUndoesAdd(c, p[1..], v);
      FailsIffBlocked(d1.fields[p[0]], p[1..], v);
      ReadAfterAdd(d, p, v, p[..1]);
      var r := Remove(d1, p);
      if p[0] in d.fields {
        if r.Some? && Remove(d1.fields[p[0]], p[1..]) == Some(c) {
          assert d1.fields[p[0] := c] == d.fields;
        }
      } else {
        assert Remove(d1, p) != Some(d);
      }
    }
  }

  // ---------- Commutation and SETREF ----------

  /** Insertion with its error ignored. */
  function Put(d: Json, p: Path, v: Json): (r: Json)
    requires d.Obj?
    ensures r.Obj?
  {
    match Add(d, p, v)
    case None => d
    case Some(x) => x
  }

  lemma {:induction false} PutStep(d: Json, p: Path, v: Json)
    requires d.Obj? && |p| > 1
    ensures var c := ChildOrNew(d, p[0]);
            Put(d, p, v) == if c.Obj? then Obj(d.fields[p[0] := Put(c, p[1..], v)]) else d
  {
    var c := ChildOrNew(d, p[0]);
    if c.Obj? && Add(c, p[1..], v).None? {
      FailsIffBlocked(c, p[1..], v);
      EmptyIsNeverBlocked(p[1..]);
      assert d.fields[p[0] := c] == d.fields;
    }
  }

  /** The same step seen from position `i` of a longer key list. */
  lemma PutStepAt(d: Json, keys: Path, i: nat, v: Json)
    requires d.Obj? && i + 1 < |keys|
    ensures var c := ChildOrNew(d, keys[i]);
            && Put(d, keys[i..], v) == (if c.Obj? then Obj(d.fields[keys[i] := Put(c, keys[i + 1..], v)]) else d)
            && (Add(d, keys[i..], v).Some? <==> c.Obj? && Add(c, keys[i + 1..], v).Some?)
  {
    assert keys[i..][1..] == keys[i + 1..];
    PutStep(d, keys[i..], v);
  }

  /** Removal with its error ignored. */
  function Drop(d: Json, p: Path): (r: Json)
    requires d.Obj?
    ensures r.Obj?
  {
    match Remove(d, p)
    case None => d
    case Some(x) => x
  }

  lemma DropStepAt(d: Json, keys: Path, i: nat)
    requires d.Obj? && i + 1 < |keys|
    ensures var c := ChildOrNew(d, keys[i]);
            && Drop(d, keys[i..]) == (if keys[i] in d.fields && c.Obj?
                                      then Obj(d.fields[keys[i] := Drop(c, keys[i + 1..])]) else d)
            && (Remove(d, keys[i..]).Some? <==>
                keys[i] in d.fields ==> c.Obj? && Remove(c, keys[i + 1..]).Some?)
  {
    assert keys[i..][1..] == keys[i + 1..];
    if keys[i] in d.fields {
      assert d.fields[keys[i] := d.fields[keys[i]]] == d.fields;
    }
  }

  lemma AddToEmptyWorks(p: Path, v: Json)
    ensures Add(EMPTY, p, v).Some?
  {
    FailsIffBlocked(EMPTY, p, v);
    EmptyIsNeverBlocked(p);
  }

  /** What an error-ignoring insertion stores under the first key of its path, if anything. */
  function PutChild(d: Json, p: Path, v: Json): Option<Json>
    requires d.Obj?
  {
    var c := ChildOrNew(d, p[0]);
    if |p| == 1 then Some(v) else if c.Obj? then Some(Put(c, p[1..], v)) else None
  }

  lemma PutIsLocal(d: Json, p: Path, v: Json)
    requires d.Obj?
    ensures Put(d, p, v) == match PutChild(d, p, v) case None => d case Some(c) => Obj(d.fields[p[0] := c])
  {
    if |p| > 1 { PutStep(d, p, v); }
  }

  lemma PutsApart(d: Json, p: Path, v: Json, q: Path, w: Json)
    requires d.Obj? && p[0] != q[0]
    ensures Put(Put(d, p, v), q, w) == Put(Put(d, q, w), p, v)
  {
    var dp, dq := Put(d, p, v), Put(d, q, w);
    PutIsLocal(d, p, v); PutIsLocal(d, q, w); PutIsLocal(dp, q, w); PutIsLocal(dq, p, v);
    assert PutChild(dp, q, w) == PutChild(d, q, w);
    assert PutChild(dq, p, v) == PutChild(d, p, v);
    assert Put(dp, q, w).fields == Put(dq, p, v).fields;
  }

  lemma ShorterWins(d: Json, p: Path, v: Json, q: Path, w: Json)
    requires d.Obj? && |p| == 1 && |q| > 1 && p[0] == q[0] && !v.Obj?
    ensures Put(Put(d, p, v), q, w) == Put(d, p, v) == Put(Put(d, q, w), p, v)
  {
    var dp, dq := Put(d, p, v), Put(d, q, w);
    PutIsLocal(d, p, v); PutIsLocal(d, q, w); PutIsLocal(dp, q, w); PutIsLocal(dq, p, v);
    assert Put(dq, p, v).fields == dp.fields;
  }

  /**
   * Insertions of non-object values at distinct paths commute, whether the paths are unrelated or one
   * extends the other (the shorter then wins), and whether or not either insertion fails.
   */
  lemma {:induction false} PutsCommute(d: Json, p: Path, v: Json, q: Path, w: Json)
    requires d.Obj? && p != q && !v.Obj? && !w.Obj?
    ensures Put(Put(d, p, v), q, w) == Put(Put(d, q, w), p, v)
    decreases |p|
  {
    var dp, dq := Put(d, p, v), Put(d, q, w);
    if p[0] != q[0] {
      PutsApart(d, p, v, q, w);
    } else if |p| == 1 {
      assert |q| == 1 ==> p == q;
      ShorterWins(d, p, v, q, w);
    } else if |q| == 1 {
      ShorterWins(d, q, w, p, v);
    } else {
      PutStep(d, p, v); PutStep(dq, p, v); PutStep(d, q, w); PutStep(dp, q, w);
      assert p == [p[0]] + p[1..] && q == [q[0]] + q[1..];
      var c := ChildOrNew(d, p[0]);
      if c.Obj? {
        PutsCommute(c, p[1..], v, q[1..], w);
        assert Put(dp, q, w).fields == Put(dq, p, v).fields;
      }
    }
  }

  /** With an object as value the law is false: the longer path may land inside it, or be wiped out. */
  lemma ObjectValuesNeedNotCommute()
    ensures Put(Put(EMPTY, ["a"], EMPTY), ["a", "b"], Null) != Put(Put(EMPTY, ["a", "b"], Null), ["a"], EMPTY)
  {
    PutStep(EMPTY, ["a", "b"], Null);
    PutStep(Put(EMPTY, ["a"], EMPTY), ["a", "b"], Null);
    var left := Put(Put(EMPTY, ["a"], EMPTY), ["a", "b"], Null);
    assert ["a", "b"][1..] == ["b"];
    assert left.fields["a"] == Put(EMPTY, ["b"], Null);
    assert "b" in left.fields["a"].fields;
  }

  function RefText(target: string): Json
  {
    Str("$ref:" + target)
  }

  /** The loop of JSON.SETREF for one iteration order of the reference map. */
  function PutRefs(d: Json, order: seq<string>, refs: map<string, string>): (r: Json)
    requires d.Obj? && forall k :: k in order ==> k in refs
    ensures r.Obj?
    decreases |order|
  {
    if order == [] then d
    else PutRefs(Put(d, Split(order[0]), RefText(refs[order[0]])), order[1..], refs)
  }

  /** An order in which a loop over the map may visit its keys. */
  ghost predicate Enumerates(order: seq<string>, refs: map<string, string>)
  {
    Distinct(order) && forall k :: k in order <==> k in refs
  }

  lemma {:induction false} PutPastRefs(d: Json, k: string, order: seq<string>, refs: map<string, string>)
    requires d.Obj? && k in refs && k !in order && forall x :: x in order ==> x in refs
    ensures PutRefs(Put(d, Split(k), RefText(refs[k])), order, refs)
         == Put(PutRefs(d, order, refs), Split(k), RefText(refs[k]))
    decreases |order|
  {
    if order != [] {
      var x := order[0];
      JoinOfSplit(k); JoinOfSplit(x);
      PutsCommute(d, Split(k), RefText(refs[k]), Split(x), RefText(refs[x]));
      PutPastRefs(Put(d, Split(x), RefText(refs[x])), k, order[1..], refs);
    }
  }

  lemma {:induction false} PutRefsAppend(d: Json, a: seq<string>, b: seq<string>, refs: map<string, string>)
    requires d.Obj? && forall x :: x in a + b ==> x in refs
    requires forall x :: x in a ==> x in a + b
    requires forall x :: x in b ==> x in a + b
    ensures PutRefs(d, a + b, refs) == PutRefs(PutRefs(d, a, refs), b, refs)
    decreases |a|
  {
    if a == [] {
      assert a + b == b;
    } else {
      assert (a + b)[1..] == a[1..] + b;
      PutRefsAppend(Put(d, Split(a[0]), RefText(refs[a[0]])), a[1..], b, refs);
    }
  }

  lemma PutNextRef(d: Json, order: seq<string>, todo: set<string>, refs: map<string, string>, k: string)
    requires d.Obj? && Visited(order, todo, refs.Keys) && k in todo
    ensures Visited(order + [k], todo - {k}, refs.Keys)
    ensures PutRefs(d, order + [k], refs) == Put(PutRefs(d, order, refs), Split(k), RefText(refs[k]))
  {
    VisitNext(order, todo, refs.Keys, k);
    PutRefsAppend(d, order, [k], refs);
  }

  /** Visiting `k` first is the same as visiting it in its place. */
  lemma VisitEarly(d: Json, a: seq<string>, k: string, b: seq<string>, refs: map<string, string>)
    requires d.Obj? && k in refs && k !in a
    requires forall x :: x in a ==> x in refs
    requires forall x :: x in b ==> x in refs
    ensures forall x :: x in a + ([k] + b) ==> x in refs
    ensures forall x :: x in a + b ==> x in refs
    ensures PutRefs(d, a + ([k] + b), refs) == PutRefs(Put(d, Split(k), RefText(refs[k])), a + b, refs)
  {
    var d1 := Put(d, Split(k), RefText(refs[k]));
    PutRefsAppend(d, a, [k] + b, refs);
    PutRefsAppend(d1, a, b, refs);
    PutPastRefs(d, k, a, refs);
    assert ([k] + b)[1..] == b;
  }

  lemma DistinctWithout(a: seq<string>, k: string, b: seq<string>)
    requires Distinct(a + ([k] + b))
    ensures Distinct(a + b)
    ensures forall x :: x in a + b <==> x in a + ([k] + b) && x != k
  {
    var o, r := a + ([k] + b), a + b;
    forall i | 0 <= i < |r| ensures r[i] == o[if i < |a| then i else i + 1] && r[i] != k { assert o[|a|] == k; }
    assert forall i :: 0 <= i < |o| && i != |a| ==> o[i] == r[if i < |a| then i else i - 1];
  }

  /** JSON.SETREF is deterministic: any two iteration orders of the reference map build the same document. */
  lemma {:induction false} SetRefOrderIrrelevant(d: Json, o1: seq<string>, o2: seq<string>, refs: map<string, string>)
    requires d.Obj? && Distinct(o1) && Distinct(o2)
    requires forall k :: k in o1 ==> k in refs
    requires forall k :: k in o1 <==> k in o2
    ensures PutRefs(d, o1, refs) == PutRefs(d, o2, refs)
    decreases |o1|
  {
    if o1 == [] {
      NonEmptyHasElement(o2);
    } else {
      var k := o1[0];
      assert k in o2;
      var i :| 0 <= i < |o2| && o2[i] == k;
      var a, b := o2[..i], o2[i + 1..];
      assert o2 == a + ([k] + b);
      DistinctWithout(a, k, b);
      assert o1 == [] + ([k] + o1[1..]) && [] + o1[1..] == o1[1..];
      DistinctWithout([], k, o1[1..]);
      VisitEarly(d, a, k, b, refs);
      SetRefOrderIrrelevant(Put(d, Split(k), RefText(refs[k])), o1[1..], a + b, refs);
    }
  }

  // ---------- What SETREF leaves behind ----------

  /** A non-object put at `q` stands in the way of just the longer paths. */
  lemma {:induction false} BlockedAfterPut(d: Json, q: Path, w: Json, p: Path)
    requires d.Obj? && !w.Obj?
    ensures Blocked(Put(d, q, w), p) <==> Blocked(d, p) || q < p
    decreases |q|
  {
    var d1 := Put(d, q, w);
    PutIsLocal(d, q, w);
    if |p| > 1 {
      BlockedStep(d, p);
      BlockedStep(d1, p);
      assert p == [p[0]] + p[1..] && q == [q[0]] + q[1..];
      if q[0] == p[0] && |q| > 1 {
        PutStep(d, q, w);
        var c := ChildOrNew(d, p[0]);
        if c.Obj? {
          BlockedAfterPut(c, q[1..], w, p[1..]);
          EmptyIsNeverBlocked(p[1..]);
        }
      }
    }
  }

  ghost predicate Shadowed(order: seq<string>, p: Path)
  {
    exists x :: x in order && Split(x) < p
  }

  lemma {:induction false} BlockedAfterPutRefs(d: Json, order: seq<string>, refs: map<string, string>, p: Path)
    requires d.Obj? && forall k :: k in order ==> k in refs
    ensures Blocked(PutRefs(d, order, refs), p) <==> Blocked(d, p) || Shadowed(order, p)
    decreases |order|
  {
    if order != [] {
      var x, rest := order[0], order[1..];
      assert order == [x] + rest;
      BlockedAfterPut(d, Split(x), RefText(refs[x]), p);
      BlockedAfterPutRefs(Put(d, Split(x), RefText(refs[x])), rest, refs, p);
      assert Shadowed(order, p) <==> Split(x) < p || Shadowed(rest, p);
    }
  }

  lemma {:induction false} BlockedReadsNothing(d: Json, p: Path)
    requires d.Obj? && Blocked(d, p)
    ensures Read(d, p).None?
    decreases |p|
  {
    if |p| > 1 {
      BlockedStep(d, p);
      if d.fields[p[0]].Obj? {
        BlockedReadsNothing(d.fields[p[0]], p[1..]);
      }
    }
  }

  /** Any key may be put last. */
  lemma VisitLate(d: Json, order: seq<string>, refs: map<string, string>, k: string) returns (rest: seq<string>)
    requires d.Obj? && Distinct(order) && k in order && forall x :: x in order ==> x in refs
    ensures forall x :: x in rest <==> x in order && x != k
    ensures PutRefs(d, order, refs) == Put(PutRefs(d, rest, refs), Split(k), RefText(refs[k]))
  {
    var i :| 0 <= i < |order| && order[i] == k;
    var a, b := order[..i], order[i + 1..];
    rest := a + b;
    assert order == a + ([k] + b);
    DistinctWithout(a, k, b);
    VisitEarly(d, a, k, b, refs);
    PutPastRefs(d, k, rest, refs);
  }

  /**
   * JSON.SETREF leaves a reference to its target at a path of the map if and only if the document has no other value
   * in the way and the map no shorter path on the way; otherwise nothing is left there.
   */
  lemma ReadAfterSetRefs(d: Json, order: seq<string>, refs: map<string, string>, k: string)
    requires d.Obj? && Distinct(order) && k in order && forall x :: x in order ==> x in refs
    ensures Read(PutRefs(d, order, refs), Split(k)) ==
            if Blocked(d, Split(k)) || Shadowed(order, Split(k)) then None else Some(Str("$ref:" + refs[k]))
  {
    var p := Split(k);
    var rest := VisitLate(d, order, refs, k);
    var d1, v := PutRefs(d, rest, refs), RefText(refs[k]);
    BlockedAfterPutRefs(d, rest, refs, p);
    assert Shadowed(order, p) <==> Shadowed(rest, p);
    FailsIffBlocked(d1, p, v);
    if Add(d1, p, v).Some? {
      ReadAfterAdd(d1, p, v, p);
    } else {
      BlockedReadsNothing(d1, p);
    }
  }

  /** Beside the paths of the map nothing changes. */
  lemma {:induction false} SetRefsLeaveOthers(d: Json, order: seq<string>, refs: map<string, string>, q: seq<string>)
    requires d.Obj? && forall x :: x in order ==> x in refs && Unrelated(Split(x), q)
    ensures Read(PutRefs(d, order, refs), q) == Read(d, q)
    decreases |order|
  {
    if order != [] {
      var p, v := Split(order[0]), RefText(refs[order[0]]);
      SetRefsLeaveOthers(Put(d, p, v), order[1..], refs, q);
      if Add(d, p, v).Some? {
        ReadAfterAdd(d, p, v, q);
      }
    }
  }
}
