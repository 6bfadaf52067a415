/** JSON.MERGE: the recursive deep merge of two objects, and its algebra. */
module JsonMerge {
  import opened Base
  import opened Json
  import opened JsonPath

  /** The field-by-field meaning of a merge: objects merge, anything else is overwritten (null too). */
  function Merge(a: Json, b: Json): (r: Json)
    requires a.Obj? && b.Obj?
    ensures r.Obj? && r.fields.Keys == a.fields.Keys + b.fields.Keys
    decreases b
  {
    Obj(map k | k in a.fields.Keys + b.fields.Keys ::
      if k !in b.fields then a.fields[k]
      else if k in a.fields && a.fields[k].Obj? && b.fields[k].Obj? then Merge(a.fields[k], b.fields[k])
      else b.fields[k])
  }

  function MergeAt(a: Json, b: Json, k: string): (r: Json)
    requires a.Obj? && b.Obj? && (k in a.fields || k in b.fields)
    ensures r == Merge(a, b).fields[k]
  {
    if k !in b.fields then a.fields[k]
    else if k in a.fields && a.fields[k].Obj? && b.fields[k].Obj? then Merge(a.fields[k], b.fields[k])
    else b.fields[k]
  }

  /** Loop state of the merge: the keys of the second operand still to be folded in are `todo`. */
  ghost predicate MergedUpTo(a: Json, b: Json, todo: set<string>, result: map<string, Json>)
    requires a.Obj? && b.Obj? && todo <= b.fields.Keys
  {
    && result.Keys == a.fields.Keys + (b.fields.Keys - todo)
    && forall k :: k in result ==>
         result[k] == if k in todo || k !in b.fields then a.fields[k] else Merge(a, b).fields[k]
  }

  lemma MergedOneMore(a: Json, b: Json, todo: set<string>, result: map<string, Json>, k: string)
    requires a.Obj? && b.Obj? && todo <= b.fields.Keys && k in todo && MergedUpTo(a, b, todo, result)
    ensures MergedUpTo(a, b, todo - {k}, result[k := MergeAt(a, b, k)])
  {
  }

  lemma MergedAll(a: Json, b: Json, result: map<string, Json>)
    requires a.Obj? && b.Obj? && MergedUpTo(a, b, {}, result)
    ensures Obj(result) == Merge(a, b)
  {
    forall k | k in result ensures result[k] == Merge(a, b).fields[k] {
      assert result[k] == MergeAt(a, b, k);
    }
    assert result == Merge(a, b).fields;
  }

  /** The first loop of the merge. */
  method CopyFields(existing: Json) returns (result: map<string, Json>)
    requires existing.Obj?
    ensures result == existing.fields
  {
    result := map[];
    var todo := existing.fields.Keys;
    while todo != {}
      invariant todo <= existing.fields.Keys
      invariant result.Keys == existing.fields.Keys - todo
      invariant forall k :: k in result ==> result[k] == existing.fields[k]
      decreases |todo|
    {
      var k :| k in todo;
      result := result[k := existing.fields[k]];
      todo := todo - {k};
    }
  }

  /** The merge itself: copy the existing fields, then fold the new ones in, in any order. */
  method MergeObjects(existing: Json, new_: Json) returns (result: map<string, Json>)
    requires existing.Obj? && new_.Obj?
    ensures Obj(result) == Merge(existing, new_)
    decreases new_
  {
    result := CopyFields(existing);
    var todo := new_.fields.Keys;
    while todo != {}
      invariant todo <= new_.fields.Keys
      invariant MergedUpTo(existing, new_, todo, result)
      decreases |todo|
    {
      var k :| k in todo;
      MergedOneMore(existing, new_, todo, result, k);
      var v := new_.fields[k];
      if k in result && result[k].Obj? && v.Obj? {
        var m := MergeObjects(result[k], v);
        result := result[k := Obj(m)];
      } else {
        result := result[k := v];
      }
      todo := todo - {k};
    }
    MergedAll(existing, new_, result);
  }

  // ---------- What a reader of the merged document sees ----------

  /**
   * At every path, the merged document has: the merge of the two objects found there; else what the new
   * document has there; else, unless a non-object of the new document is in the way, what the old one has.
   */
  lemma {:induction false} ReadAfterMerge(a: Json, b: Json, q: Path)
    requires a.Obj? && b.Obj?
    ensures Read(Merge(a, b), q) ==
            match (Read(a, q), Read(b, q)) {
              case (Some(x), Some(y)) => if x.Obj? && y.Obj? then Some(Merge(x, y)) else Some(y)
              case (None, Some(y)) => Some(y)
              case (x, None) => if Blocked(b, q) then None else x
            }
    decreases |q|
  {
    var k, rest := q[0], q[1..];
    if k in a.fields || k in b.fields {
      assert Merge(a, b).fields[k] == MergeAt(a, b, k);
    }
    if |q| == 1 {
      assert rest == [];
      assert !Blocked(b, q);
    } else {
      BlockedStep(b, q);
      if k in a.fields && k in b.fields && a.fields[k].Obj? && b.fields[k].Obj? {
        ReadAfterMerge(a.fields[k], b.fields[k], rest);
      }
    }
  }

  // ---------- Covering: when a merge changes nothing ----------

  /** Every field of `a` is in `c`, and so on inside the fields that are objects on both sides. */
  ghost predicate Covers(c: Json, a: Json)
    requires a.Obj? && c.Obj?
    decreases c
  {
    forall k :: k in a.fields ==>
      k in c.fields && (a.fields[k].Obj? && c.fields[k].Obj? ==> Covers(c.fields[k], a.fields[k]))
  }

  /** The second operand swallows the first exactly when it covers it. */
  lemma {:induction false} MergeKeepsSecond(a: Json, c: Json)
    requires a.Obj? && c.Obj?
    ensures Merge(a, c) == c <==> Covers(c, a)
    decreases c
  {
    forall k | k in a.fields && k in c.fields && a.fields[k].Obj? && c.fields[k].Obj?
      ensures Merge(a.fields[k], c.fields[k]) == c.fields[k] <==> Covers(c.fields[k], a.fields[k])
    {
      MergeKeepsSecond(a.fields[k], c.fields[k]);
    }
    if Covers(c, a) {
      assert Merge(a, c).fields == c.fields;
    } else {
      var k :| k in a.fields && !(k in c.fields
        && (a.fields[k].Obj? && c.fields[k].Obj? ==> Covers(c.fields[k], a.fields[k])));
      assert k in c.fields ==> MergeAt(a, c, k) == Merge(a, c).fields[k];
      assert Merge(a, c).fields.Keys == a.fields.Keys + c.fields.Keys;
      assert k in Merge(a, c).fields.Keys;
    }
  }

  lemma {:induction false} CoversItself(a: Json)
    requires a.Obj?
    ensures Covers(a, a)
  {
    forall k | k in a.fields && a.fields[k].Obj? ensures Covers(a.fields[k], a.fields[k]) {
      CoversItself(a.fields[k]);
    }
  }

  /** A merge covers what was merged in. */
  lemma {:induction false} MergeCoversSecond(a: Json, b: Json)
    requires a.Obj? && b.Obj?
    ensures Covers(Merge(a, b), b)
    decreases b
  {
    var m := Merge(a, b);
    forall k | k in b.fields && b.fields[k].Obj? && m.fields[k].Obj?
      ensures Covers(m.fields[k], b.fields[k])
    {
      assert m.fields[k] == MergeAt(a, b, k);
      if k in a.fields && a.fields[k].Obj? {
        MergeCoversSecond(a.fields[k], b.fields[k]);
      } else {
        CoversItself(b.fields[k]);
      }
    }
  }

  // ---------- The algebra ----------

  lemma {:induction false} MergeIsIdempotent(a: Json)
    requires a.Obj?
    ensures Merge(a, a) == a
  {
    CoversItself(a);
    MergeKeepsSecond(a, a);
  }

  lemma MergeUnit(a: Json)
    requires a.Obj?
    ensures Merge(a, EMPTY) == a
    ensures Merge(EMPTY, a) == a
  {
    assert Merge(a, EMPTY).fields == a.fields;
    MergeKeepsSecond(EMPTY, a);
  }

  /** Merging the merged document back into the update gives it again: it has everything the update has. */
  lemma MergeBackChangesNothing(a: Json, b: Json)
    requires a.Obj? && b.Obj?
    ensures Merge(b, Merge(a, b)) == Merge(a, b)
  {
    MergeCoversSecond(a, b);
    MergeKeepsSecond(b, Merge(a, b));
  }

  /** Sending the same update twice is the same as sending it once. */
  lemma {:induction false} MergeAbsorbsRepetition(a: Json, b: Json)
    requires a.Obj? && b.Obj?
    ensures Merge(Merge(a, b), b) == Merge(a, b)
    decreases b
  {
    var m := Merge(a, b);
    forall k | k in m.fields ensures MergeAt(m, b, k) == m.fields[k] {
      assert m.fields[k] == MergeAt(a, b, k);
      if k in b.fields && b.fields[k].Obj? {
        if k in a.fields && a.fields[k].Obj? {
          MergeAbsorbsRepetition(a.fields[k], b.fields[k]);
        } else {
          MergeIsIdempotent(b.fields[k]);
        }
      }
    }
    assert Merge(m, b).fields == m.fields;
  }

  /**
   * At every path that is an object in `a` and in `c` but present and not an object in `b`,
   * `c` covers what `a` has there. (In particular: there is no such path.)
   */
  ghost predicate Regroupable(a: Json, b: Json, c: Json)
    requires a.Obj? && b.Obj? && c.Obj?
    decreases c
  {
    forall k :: k in a.fields && k in b.fields && k in c.fields && a.fields[k].Obj? && c.fields[k].Obj? ==>
      if b.fields[k].Obj? then Regroupable(a.fields[k], b.fields[k], c.fields[k])
      else Covers(c.fields[k], a.fields[k])
  }

  /** Merging is associative on exactly the regroupable triples. */
  lemma {:induction false} MergeIsAssociativeIff(a: Json, b: Json, c: Json)
    requires a.Obj? && b.Obj? && c.Obj?
    ensures Merge(Merge(a, b), c) == Merge(a, Merge(b, c)) <==> Regroupable(a, b, c)
    decreases c
  {
    var l, r := Merge(Merge(a, b), c), Merge(a, Merge(b, c));
    forall k | k in l.fields
      ensures l.fields[k] == r.fields[k] <==> RegroupableAt(a, b, c, k)
    {
      var ab, bc := Merge(a, b), Merge(b, c);
      assert l.fields[k] == MergeAt(ab, c, k) && r.fields[k] == MergeAt(a, bc, k);
      assert k in ab.fields ==> ab.fields[k] == MergeAt(a, b, k);
      assert k in bc.fields ==> bc.fields[k] == MergeAt(b, c, k);
      if k in c.fields && c.fields[k].Obj? && k in a.fields && a.fields[k].Obj? && k in b.fields {
        if b.fields[k].Obj? {
          MergeIsAssociativeIff(a.fields[k], b.fields[k], c.fields[k]);
        } else {
          MergeKeepsSecond(a.fields[k], c.fields[k]);
        }
      }
    }
    assert l.fields.Keys == r.fields.Keys;
    if Regroupable(a, b, c) {
      forall k | k in l.fields ensures RegroupableAt(a, b, c, k) { }
      assert l.fields == r.fields;
    }
    if l == r {
      forall k | k in a.fields && k in b.fields && k in c.fields ensures RegroupableAt(a, b, c, k) {
        assert k in l.fields;
      }
    }
  }

  ghost predicate RegroupableAt(a: Json, b: Json, c: Json, k: string)
    requires a.Obj? && b.Obj? && c.Obj?
  {
    k in a.fields && k in b.fields && k in c.fields && a.fields[k].Obj? && c.fields[k].Obj? ==>
      if b.fields[k].Obj? then Regroupable(a.fields[k], b.fields[k], c.fields[k])
      else Covers(c.fields[k], a.fields[k])
  }

  /** A field that is an object, then a null, then an object again: the grouping shows. */
  lemma MergeIsNotAlwaysAssociative()
    ensures var a, b, c := Obj(map["x" := Obj(map["old" := Null])]), Obj(map["x" := Null]), Obj(map["x" := EMPTY]);
            Merge(Merge(a, b), c) != Merge(a, Merge(b, c))
  {
    var a, b, c := Obj(map["x" := Obj(map["old" := Null])]), Obj(map["x" := Null]), Obj(map["x" := EMPTY]);
    assert "old" in a.fields["x"].fields && "old" !in c.fields["x"].fields;
    assert !Covers(c.fields["x"], a.fields["x"]);
    assert "x" in a.fields && "x" in b.fields && "x" in c.fields;
    MergeIsAssociativeIff(a, b, c);
  }
}
