/** JSON.GET with reference fields: "$ref:key" values are looked up and stored beside themselves. */
module JsonRef {
  import opened Base
  import opened Json
  import opened JsonPath

  /** What the store answers for a referenced key: a document is an object or null. */
  datatype Lookup = Missing | Unparsable | Document(doc: Json)

  const REF_TAG := "$ref:"

  datatype Resolved = Resolved(doc: Json, ok: bool)

  /** One reference path: walk to the field, then add the document it refers to under "_" + name. */
  function Resolve(d: Json, p: Path, lookup: string -> Lookup): (r: Resolved)
    requires d.Obj?
    ensures r.doc.Obj?
    decreases |p|
  {
    var k := p[0];
    if k !in d.fields then Resolved(d, false)
    else if |p| == 1 then
      match d.fields[k]
      case Str(s) =>
        if !(REF_TAG <= s) then Resolved(d, true)
        else (
          match lookup(s[|REF_TAG|..])
          case Document(j) => Resolved(Obj(d.fields["_" + k := j]), true)
          case _ => Resolved(d, false))
      case _ => Resolved(d, true)
    else if !d.fields[k].Obj? then Resolved(d, false)
    else
      var r := Resolve(d.fields[k], p[1..], lookup);
      Resolved(Obj(d.fields[k := r.doc]), r.ok)
  }

  /**
   * The command's list of reference paths: the first error stops the list, earlier expansions stay. Every lookup
   * asks the store anew, which may have changed meanwhile: `lookups` has the store's answers for each path.
   */
  function RefRead(d: Json, paths: seq<string>, lookups: seq<string -> Lookup>): (r: Resolved)
    requires d.Obj? && |lookups| == |paths|
    ensures r.doc.Obj?
    decreases |paths|
  {
    if paths == [] then Resolved(d, true)
    else
      var r := Resolve(d, Split(paths[0]), lookups[0]);
      if r.ok then RefRead(r.doc, paths[1..], lookups[1..]) else r
  }

  /** Drops, at every depth, the fields whose name starts with an underscore. */
  function Erase(j: Json): Json
  {
    match j
    case Obj(fields) => Obj(map k | k in fields && !("_" <= k) :: Erase(fields[k]))
    case Arr(elems) => Arr(seq(|elems|, i requires 0 <= i < |elems| => Erase(elems[i])))
    case _ => j
  }

  /** The key list of the derived field for a reference path. */
  function DerivedPath(p: Path): (r: Path)
    ensures |r| == |p| && r[..|p| - 1] == p[..|p| - 1] && r[|p| - 1] == "_" + p[|p| - 1]
  {
    p[..|p| - 1] + ["_" + p[|p| - 1]]
  }

  /**
   * Expanding a reference is a read followed by an insertion: it succeeds exactly when the path reads a
   * value that is not a reference (nothing changes) or a reference to a stored document (which is inserted
   * at the derived path, an insertion that cannot fail). A failing expansion changes nothing.
   */
  lemma {:induction false} ResolveIsReadThenAdd(d: Json, p: Path, lookup: string -> Lookup)
    requires d.Obj?
    ensures match Read(d, p)
            case None => Resolve(d, p, lookup) == Resolved(d, false)
            case Some(Str(s)) =>
              if !(REF_TAG <= s) then Resolve(d, p, lookup) == Resolved(d, true)
              else (
                match lookup(s[|REF_TAG|..])
                case Document(j) => Add(d, DerivedPath(p), j) == Some(Resolve(d, p, lookup).doc)
                                    && Resolve(d, p, lookup).ok
                case _ => Resolve(d, p, lookup) == Resolved(d, false))
            case Some(_) => Resolve(d, p, lookup) == Resolved(d, true)
    decreases |p|
  {
    var k := p[0];
    if |p| == 1 {
      assert p[1..] == [];
      assert k in d.fields ==> Read(d, p) == Some(d.fields[k]);
      assert DerivedPath(p) == ["_" + k];
    } else if k in d.fields && d.fields[k].Obj? {
      ResolveIsReadThenAdd(d.fields[k], p[1..], lookup);
      assert DerivedPath(p)[1..] == DerivedPath(p[1..]);
      assert d.fields[k := d.fields[k]] == d.fields;
    }
  }

  /** The path reads a reference, and to which key. */
  function Target(d: Json, p: Path): Option<string>
  {
    match Read(d, p)
    case Some(Str(s)) => if "$ref:" <= s then Some(s[5..]) else None
    case _ => None
  }

  /** Nothing there, or a reference to a key under which the store has no document: an error. */
  predicate Dangling(d: Json, p: Path, lookup: string -> Lookup)
  {
    var t := Target(d, p);
    Read(d, p).None? || (t.Some? && !lookup(t.value).Document?)
  }

  /** A value that is no reference stays alone; a reference puts its document at the derived path. */
  ghost predicate Expanded(d: Json, p: Path, lookup: string -> Lookup, d1: Json)
  {
    && d.Obj? && !Dangling(d, p, lookup)
    && var t := Target(d, p);
       if t.None? then d1 == d else Add(d, DerivedPath(p), lookup(t.value).doc) == Some(d1)
  }

  /** `ds` are the documents on the way: one more for each path, up to the first that dangles. */
  ghost predicate Chain(d: Json, paths: seq<string>, lookups: seq<string -> Lookup>, ds: seq<Json>)
    requires |lookups| == |paths|
  {
    && 1 <= |ds| <= |paths| + 1 && ds[0] == d
    && (forall i, j :: 0 <= i < |ds| - 1 && j == i + 1 ==> Expanded(ds[i], Split(paths[i]), lookups[i], ds[j]))
    && var n := |ds| - 1; n < |paths| ==> Dangling(ds[n], Split(paths[n]), lookups[n])
  }

  lemma ResolveExpands(d: Json, p: Path, lookup: string -> Lookup)
    requires d.Obj?
    ensures var r := Resolve(d, p, lookup);
            if Dangling(d, p, lookup) then r == Resolved(d, false) else r.ok && Expanded(d, p, lookup, r.doc)
  {
    ResolveIsReadThenAdd(d, p, lookup);
  }

  lemma ChainCons(d: Json, paths: seq<string>, lookups: seq<string -> Lookup>, ds: seq<Json>)
    requires |lookups| == |paths| > 0 && ds != []
    requires Expanded(d, Split(paths[0]), lookups[0], ds[0]) && Chain(ds[0], paths[1..], lookups[1..], ds)
    ensures Chain(d, paths, lookups, [d] + ds)
  {
    var all := [d] + ds;
    forall i, j | 0 <= i < |all| - 1 && j == i + 1 ensures Expanded(all[i], Split(paths[i]), lookups[i], all[j]) {
      if i > 0 {
        assert all[i] == ds[i - 1] && all[j] == ds[i] && paths[i] == paths[1..][i - 1];
      }
    }
  }

  /**
   * The list of references, one step after the other: each path that reads a reference to a stored document puts
   * that document at its derived path, in the document as it is by then; the first that dangles ends the list with
   * an error, and what was put before it stays.
   */
  lemma {:induction false} RefReadIsAChain(d: Json, paths: seq<string>, lookups: seq<string -> Lookup>)
    returns (ds: seq<Json>)
    requires d.Obj? && |lookups| == |paths|
    ensures Chain(d, paths, lookups, ds)
    ensures RefRead(d, paths, lookups) == Resolved(ds[|ds| - 1], |ds| == |paths| + 1)
    decreases |paths|
  {
    ds := [d];
    if paths != [] {
      ResolveExpands(d, Split(paths[0]), lookups[0]);
      var r := Resolve(d, Split(paths[0]), lookups[0]);
      if r.ok {
        var rest := RefReadIsAChain(r.doc, paths[1..], lookups[1..]);
        ChainCons(d, paths, lookups, rest);
        ds := [d] + rest;
      }
    }
  }

  lemma ResolveStepAt(d: Json, keys: Path, i: nat, lookup: string -> Lookup)
    requires d.Obj? && i + 1 < |keys|
    ensures Resolve(d, keys[i..], lookup) ==
            if keys[i] in d.fields && d.fields[keys[i]].Obj? then
              var r := Resolve(d.fields[keys[i]], keys[i + 1..], lookup);
              Resolved(Obj(d.fields[keys[i] := r.doc]), r.ok)
            else Resolved(d, false)
  {
    assert keys[i..][1..] == keys[i + 1..];
  }

  lemma {:induction false} ResolveErases(d: Json, p: Path, lookup: string -> Lookup)
    requires d.Obj?
    ensures Erase(Resolve(d, p, lookup).doc) == Erase(d)
    decreases |p|
  {
    var k := p[0];
    var d1 := Resolve(d, p, lookup).doc;
    if k in d.fields && |p| > 1 && d.fields[k].Obj? {
      ResolveErases(d.fields[k], p[1..], lookup);
    }
    assert Erase(d1).fields == Erase(d).fields;
  }

  /** Reference expansion only adds derived fields, also for chained references and lists stopped by an error. */
  lemma {:induction false} RefReadOnlyAddsDerivedFields(d: Json, paths: seq<string>, lookups: seq<string -> Lookup>)
    requires d.Obj? && |lookups| == |paths|
    ensures Erase(RefRead(d, paths, lookups).doc) == Erase(d)
    decreases |paths|
  {
    if paths != [] {
      ResolveErases(d, Split(paths[0]), lookups[0]);
      RefReadOnlyAddsDerivedFields(Resolve(d, Split(paths[0]), lookups[0]).doc, paths[1..], lookups[1..]);
    }
  }

  // ---------- What a reader finds ----------

  lemma ReadErases(d: Json, d1: Json, p: Path, q: Path, v: Json)
    requires d.Obj? && Add(d, q, v) == Some(d1) && !(q <= p)
    requires Read(d, q[..|q| - 1]).Some? && "_" <= q[|q| - 1] && Read(d, p).Some?
    ensures Read(d1, p).Some? && Erase(Read(d1, p).value) == Erase(Read(d, p).value)
  {
    ReadAfterAdd(d, q, v, p);
    if p < q {
      var above, r := Read(d, p).value, q[|p|..];
      assert q == p + r && q[..|q| - 1] == p + r[..|r| - 1];
      ReadSplit(d, p, r[..|r| - 1]);
      ReadAfterAdd(d, q, v, q);
      ReadSplit(d1, p, r);
      AddErases(above, r, v);
    }
  }

  lemma {:induction false} ReadSplit(d: Json, p: seq<string>, q: seq<string>)
    ensures Read(d, p + q) == match Read(d, p) case None => None case Some(j) => Read(j, q)
    decreases |p|
  {
    if p == [] {
      assert p + q == q;
    } else {
      assert (p + q)[1..] == p[1..] + q;
      if d.Obj? && p[0] in d.fields { ReadSplit(d.fields[p[0]], p[1..], q); }
    }
  }

  /** An insertion of a derived field into an object that is there. */
  lemma {:induction false} AddErases(d: Json, q: Path, v: Json)
    requires d.Obj? && Add(d, q, v).Some? && Read(d, q[..|q| - 1]).Some? && "_" <= q[|q| - 1]
    ensures Erase(Add(d, q, v).value) == Erase(d)
    decreases |q|
  {
    var d1 := Add(d, q, v).value;
    if |q| > 1 {
      assert q[1..][..|q| - 2] == q[..|q| - 1][1..] && q[1..][|q| - 2] == q[|q| - 1];
      AddErases(d.fields[q[0]], q[1..], v);
    }
    assert Erase(d1).fields == Erase(d).fields;
  }

  lemma ExpandedKeeps(d: Json, p: Path, lookup: string -> Lookup, d1: Json, q: Path)
    requires Expanded(d, p, lookup, d1) && Read(d, q).Some? && !(DerivedPath(p) <= q)
    ensures Read(d1, q).Some? && Erase(Read(d1, q).value) == Erase(Read(d, q).value)
  {
    if Target(d, p).Some? {
      assert p == p[..|p| - 1] + [p[|p| - 1]];
      ReadSplit(d, p[..|p| - 1], [p[|p| - 1]]);
      ReadErases(d, d1, q, DerivedPath(p), lookup(Target(d, p).value).doc);
    }
  }

  lemma {:induction false} ChainKeeps(d: Json, paths: seq<string>, lookups: seq<string -> Lookup>, ds: seq<Json>,
                                      i: nat, n: nat, q: Path)
    requires |lookups| == |paths| && Chain(d, paths, lookups, ds) && i <= n < |ds| && Read(ds[i], q).Some?
    requires forall m :: i <= m < n ==> !(DerivedPath(Split(paths[m])) <= q)
    ensures Read(ds[n], q).Some? && Erase(Read(ds[n], q).value) == Erase(Read(ds[i], q).value)
    decreases n
  {
    if i < n {
      ChainKeeps(d, paths, lookups, ds, i, n - 1, q);
      assert Expanded(ds[n - 1], Split(paths[n - 1]), lookups[n - 1], ds[n]);
      ExpandedKeeps(ds[n - 1], Split(paths[n - 1]), lookups[n - 1], ds[n], q);
    }
  }

  /**
   * What the list was for: a path that reads a reference to a stored document when its turn comes leaves that
   * document, up to derived fields, at its derived path - unless a later path of the list is expanded over it.
   */
  lemma ReferencedDocumentIsFound(d: Json, paths: seq<string>, lookups: seq<string -> Lookup>, ds: seq<Json>, i: nat)
    requires d.Obj? && |lookups| == |paths| && Chain(d, paths, lookups, ds) && i < |ds| - 1
    requires Target(ds[i], Split(paths[i])).Some?
    requires var q := DerivedPath(Split(paths[i]));
             forall m :: i < m < |ds| - 1 ==> !(DerivedPath(Split(paths[m])) <= q)
    ensures var found := Read(RefRead(d, paths, lookups).doc, DerivedPath(Split(paths[i])));
            && lookups[i](Target(ds[i], Split(paths[i])).value).Document?
            && found.Some?
            && Erase(found.value) == Erase(lookups[i](Target(ds[i], Split(paths[i])).value).doc)
  {
    var p, j := Split(paths[i]), i + 1;
    assert Expanded(ds[i], p, lookups[i], ds[j]);
    var doc := lookups[i](Target(ds[i], p).value).doc;
    ReadAfterAdd(ds[i], DerivedPath(p), doc, DerivedPath(p));
    ChainKeeps(d, paths, lookups, ds, j, |ds| - 1, DerivedPath(p));
    var ds1 := RefReadIsAChain(d, paths, lookups);
    ChainIsUnique(d, paths, lookups, ds, ds1);
  }

  lemma ChainIsUnique(d: Json, paths: seq<string>, lookups: seq<string -> Lookup>, ds: seq<Json>, ds1: seq<Json>)
    requires |lookups| == |paths| && Chain(d, paths, lookups, ds) && Chain(d, paths, lookups, ds1)
    ensures ds == ds1
  {
    var n := if |ds| <= |ds1| then |ds| else |ds1|;
    for k := 1 to n
      invariant forall i :: 0 <= i < k ==> ds[i] == ds1[i]
    {
      assert Expanded(ds[k - 1], Split(paths[k - 1]), lookups[k - 1], ds[k]);
      assert Expanded(ds1[k - 1], Split(paths[k - 1]), lookups[k - 1], ds1[k]);
    }
    ChainEnds(d, paths, lookups, ds, n - 1);
    ChainEnds(d, paths, lookups, ds1, n - 1);
  }

  lemma ChainEnds(d: Json, paths: seq<string>, lookups: seq<string -> Lookup>, ds: seq<Json>, i: nat)
    requires |lookups| == |paths| && Chain(d, paths, lookups, ds) && i < |ds|
    ensures i == |ds| - 1 <==> i == |paths| || Dangling(ds[i], Split(paths[i]), lookups[i])
  {
    if i < |ds| - 1 {
      assert Expanded(ds[i], Split(paths[i]), lookups[i], ds[i + 1]);
    }
  }

  /**
   * JSON.GET expands what JSON.SETREF put: a path of the reference map that SETREF could set reads its target's
   * document at the derived path if the store has one, and is an error otherwise.
   */
  lemma GetExpandsWhatSetRefPut(d: Json, order: seq<string>, refs: map<string, string>, k: string,
                                lookup: string -> Lookup)
    requires d.Obj? && Distinct(order) && k in order && forall x :: x in order ==> x in refs
    requires !Blocked(d, Split(k)) && !Shadowed(order, Split(k))
    ensures var r := RefRead(PutRefs(d, order, refs), [k], [lookup]);
            && (r.ok <==> lookup(refs[k]).Document?)
            && (r.ok ==> Read(r.doc, DerivedPath(Split(k))) == Some(lookup(refs[k]).doc))
            && (!r.ok ==> r.doc == PutRefs(d, order, refs))
  {
    var d1, p := PutRefs(d, order, refs), Split(k);
    ReadAfterSetRefs(d, order, refs, k);
    assert ("$ref:" + refs[k])[5..] == refs[k];
    assert Target(d1, p) == Some(refs[k]);
    OnePathExpands(d1, k, lookup);
    if lookup(refs[k]).Document? {
      ReadAfterAdd(d1, DerivedPath(p), lookup(refs[k]).doc, DerivedPath(p));
    }
  }

  lemma OnePathExpands(d: Json, k: string, lookup: string -> Lookup)
    requires d.Obj?
    ensures var r := RefRead(d, [k], [lookup]);
            if Dangling(d, Split(k), lookup) then r == Resolved(d, false)
            else r.ok && Expanded(d, Split(k), lookup, r.doc)
  {
    ResolveExpands(d, Split(k), lookup);
  }

  /** No derived-field name occurs in the key list. */
  predicate Plain(q: seq<string>)
  {
    forall k :: k in q ==> !("_" <= k)
  }

  lemma {:induction false} ReadErased(d: Json, q: seq<string>)
    requires Plain(q)
    ensures Read(Erase(d), q) == match Read(d, q) case None => None case Some(j) => Some(Erase(j))
  {
    if q != [] && d.Obj? && q[0] in d.fields {
      assert q[0] in q && forall k :: k in q[1..] ==> k in q;
      ReadErased(d.fields[q[0]], q[1..]);
    }
  }

  /**
   * So a reader that never asks for a derived field finds every value present or absent as before, up to derived
   * fields.
   */
  lemma RefReadKeepsPlainReads(d: Json, paths: seq<string>, lookups: seq<string -> Lookup>, q: seq<string>)
    requires d.Obj? && |lookups| == |paths| && Plain(q)
    ensures var d1 := RefRead(d, paths, lookups).doc;
            && (Read(d1, q).Some? <==> Read(d, q).Some?)
            && (Read(d, q).Some? ==> Erase(Read(d1, q).value) == Erase(Read(d, q).value))
  {
    RefReadOnlyAddsDerivedFields(d, paths, lookups);
    ReadErased(d, q);
    ReadErased(RefRead(d, paths, lookups).doc, q);
  }
}
