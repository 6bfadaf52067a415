/** The query texts of LIST.FIND: "$field op value" or "op value". */
module Query {
  import opened Base

  /** In the order in which the parser tries them. */
  const OPERATORS: seq<string> := [">=", "<=", ">", "<", ":", "!", "~"]

  datatype Parsed = Parsed(field: string, op: string, value: string)

  const NOTHING := Parsed("", "", "")

  predicate OccursAt(s: string, t: string, i: nat)
  {
    i + |t| <= |s| && forall j :: 0 <= j < |t| ==> s[i + j] == t[j]
  }

  ghost predicate Contains(s: string, t: string)
  {
    exists i: nat :: OccursAt(s, t, i)
  }

  /** The library search for the first occurrence. */
  function IndexFrom(s: string, t: string, i: nat): (r: Option<nat>)
    requires i <= |s|
    ensures match r
            case Some(k) => i <= k && OccursAt(s, t, k) && forall j :: i <= j < k ==> !OccursAt(s, t, j)
            case None => forall j :: i <= j ==> !OccursAt(s, t, j)
    decreases |s| - i
  {
    if OccursAt(s, t, i) then Some(i) else if i == |s| then None else IndexFrom(s, t, i + 1)
  }

  /** Cuts at the first occurrence of the first operator, from the n-th on, that occurs anywhere. */
  function CutAtOperator(ops: seq<string>, s: string, n: nat): Parsed
    requires n <= |ops|
    decreases |ops| - n
  {
    if n == |ops| then NOTHING
    else
      match IndexFrom(s, ops[n], 0)
      case Some(i) => Parsed(s[..i], ops[n], s[i + |ops[n]|..])
      case None => CutAtOperator(ops, s, n + 1)
  }

  function CutPrefix(ops: seq<string>, s: string, n: nat): Parsed
    requires n <= |ops|
    decreases |ops| - n
  {
    if n == |ops| then NOTHING
    else if ops[n] <= s then Parsed("", ops[n], s[|ops[n]|..])
    else CutPrefix(ops, s, n + 1)
  }

  function ParsePath(path: string): Parsed
  {
    if "$" <= path then CutAtOperator(OPERATORS, path[1..], 0) else CutPrefix(OPERATORS, path, 0)
  }

  /** The parser, with a loop over the operators in each branch. */
  method Parse(path: string) returns (p: Parsed)
    ensures p == ParsePath(path)
  {
    if "$" <= path {
      p := FindOperator(OPERATORS, path[1..]);
    } else {
      p := MatchPrefix(OPERATORS, path);
    }
  }

  method FindOperator(ops: seq<string>, path: string) returns (p: Parsed)
    ensures p == CutAtOperator(ops, path, 0)
  {
    for n := 0 to |ops|
      invariant CutAtOperator(ops, path, 0) == CutAtOperator(ops, path, n)
    {
      var o := ops[n];
      var idx := IndexFrom(path, o, 0);
      if idx.Some? {
        return Parsed(path[..idx.value], o, path[idx.value + |o|..]);
      }
    }
    return NOTHING;
  }

  method MatchPrefix(ops: seq<string>, path: string) returns (p: Parsed)
    ensures p == CutPrefix(ops, path, 0)
  {
    for n := 0 to |ops|
      invariant CutPrefix(ops, path, 0) == CutPrefix(ops, path, n)
    {
      var o := ops[n];
      if o <= path {
        return Parsed("", o, path[|o|..]);
      }
    }
    return NOTHING;
  }

  // ---------- What is found ----------

  /** The first occurrence of `o` in f + o + v is the one at |f| unless one starts earlier. */
  lemma FirstOccurrence(s: string, f: string, o: string, v: string)
    requires s == f + (o + v)
    ensures IndexFrom(s, o, 0).Some? && IndexFrom(s, o, 0).value <= |f|
    ensures IndexFrom(s, o, 0).value == |f| <==> forall i :: 0 <= i < |f| ==> !OccursAt(s, o, i)
    ensures s[..|f|] == f && s[|f| + |o|..] == v
  {
    assert OccursAt(s, o, |f|);
  }

  /**
   * What makes the parser stop with the n-th operator behind `f`: no operator tried before occurs at all, and
   * this one does not occur sooner.
   */
  lemma {:induction false} CutFindsIff(ops: seq<string>, s: string, k: nat, n: nat, f: string, v: string)
    requires k <= n < |ops| && s == f + (ops[n] + v)
    requires forall i, j :: 0 <= i < j < |ops| ==> ops[i] != ops[j]
    ensures CutAtOperator(ops, s, k) == Parsed(f, ops[n], v) <==>
            && (forall m :: k <= m < n ==> !Contains(s, ops[m]))
            && (forall i :: 0 <= i < |f| ==> !OccursAt(s, ops[n], i))
    decreases n - k
  {
    var found := IndexFrom(s, ops[k], 0);
    if k == n {
      FirstOccurrence(s, f, ops[n], v);
      assert |s[..found.value]| == found.value;
    } else if found.Some? {
      assert OccursAt(s, ops[k], found.value) && Contains(s, ops[k]);
    } else {
      assert !Contains(s, ops[k]);
      CutFindsIff(ops, s, k + 1, n, f, v);
    }
  }

  lemma Reassembled(s: string, o: string, i: nat)
    requires OccursAt(s, o, i)
    ensures s[..i] + o + s[i + |o|..] == s
  {
  }

  /** Whenever an operator is found, the pieces concatenate back to the text that was cut. */
  lemma {:induction false} CutConcatenates(ops: seq<string>, s: string, n: nat)
    requires n <= |ops|
    ensures var p := CutAtOperator(ops, s, n); p == NOTHING || (p.op in ops && p.field + p.op + p.value == s)
    decreases |ops| - n
  {
    if n < |ops| {
      var found := IndexFrom(s, ops[n], 0);
      if found.Some? {
        Reassembled(s, ops[n], found.value);
      } else {
        CutConcatenates(ops, s, n + 1);
      }
    }
  }

  lemma {:induction false} PrefixConcatenates(ops: seq<string>, s: string, n: nat)
    requires n <= |ops|
    ensures var p := CutPrefix(ops, s, n); p == NOTHING || (p.op in ops && p.field == "" && p.op + p.value == s)
    decreases |ops| - n
  {
    if n < |ops| {
      PrefixConcatenates(ops, s, n + 1);
    }
  }

  /** The pieces of a parsed query make up the query, after the "$" of a field query. */
  lemma ParsedConcatenates(path: string)
    ensures var p := ParsePath(path);
            && (p == NOTHING || p.op in OPERATORS)
            && (p.op != "" ==> path == (if "$" <= path then "$" else "") + (p.field + p.op + p.value))
  {
    var p := ParsePath(path);
    if "$" <= path {
      CutConcatenates(OPERATORS, path[1..], 0);
      assert path == "$" + path[1..];
    } else {
      PrefixConcatenates(OPERATORS, path, 0);
      assert "" + (p.field + p.op + p.value) == p.field + p.op + p.value;
    }
  }

  /** The operators, character by character. */
  predicate IsOperatorChar(x: char)
  {
    x == '>' || x == '<' || x == ':' || x == '!' || x == '~'
  }

  lemma OperatorChars(s: string, i: nat)
    requires i < |s|
    ensures IsOperatorChar(s[i]) <==> exists n :: 0 <= n < |OPERATORS| && OccursAt(s, OPERATORS[n], i)
  {
    var n := match s[i] case '>' => 2 case '<' => 3 case ':' => 4 case '!' => 5 case _ => 6;
    assert OPERATORS[0][0] == OPERATORS[2][0] == '>' && OPERATORS[1][0] == OPERATORS[3][0] == '<';
    assert OPERATORS[4][0] == ':' && OPERATORS[5][0] == '!' && OPERATORS[6][0] == '~';
    if IsOperatorChar(s[i]) {
      assert OPERATORS[n][0] == s[i] && OccursAt(s, OPERATORS[n], i);
    }
    forall n | 0 <= n < |OPERATORS| && OccursAt(s, OPERATORS[n], i) ensures IsOperatorChar(s[i]) {
      assert s[i + 0] == OPERATORS[n][0];
    }
  }

  lemma {:induction false} CutFindsNothingIff(ops: seq<string>, s: string, n: nat)
    requires n <= |ops| && forall o :: o in ops ==> o != ""
    ensures CutAtOperator(ops, s, n) == NOTHING <==> forall m :: n <= m < |ops| ==> !Contains(s, ops[m])
    decreases |ops| - n
  {
    if n < |ops| {
      assert ops[n] in ops;
      CutFindsNothingIff(ops, s, n + 1);
      assert IndexFrom(s, ops[n], 0).Some? <==> Contains(s, ops[n]);
    }
  }

  lemma {:induction false} CutPrefixNothingIff(ops: seq<string>, s: string, n: nat)
    requires n <= |ops| && forall o :: o in ops ==> o != ""
    ensures CutPrefix(ops, s, n) == NOTHING <==> forall m :: n <= m < |ops| ==> !(ops[m] <= s)
    decreases |ops| - n
  {
    if n < |ops| {
      assert ops[n] in ops;
      CutPrefixNothingIff(ops, s, n + 1);
    }
  }

  /**
   * A text is no query if and only if it has no operator where one is looked for: anywhere behind the "$", or at the
   * very start.
   */
  lemma NoQueryIff(path: string)
    ensures ParsePath(path) == NOTHING <==>
            if "$" <= path then forall i :: 1 <= i < |path| ==> !IsOperatorChar(path[i])
            else path == "" || !IsOperatorChar(path[0])
  {
    var ops := OPERATORS;
    forall n | 0 <= n < |ops| ensures ops[n] != "" { OperatorShape(n); }
    if "$" <= path {
      var s := path[1..];
      CutFindsNothingIff(ops, s, 0);
      NowhereIff(s);
      assert forall i :: 1 <= i < |path| ==> path[i] == s[i - 1];
    } else {
      CutPrefixNothingIff(ops, path, 0);
      if path != "" {
        OperatorChars(path, 0);
        forall n | 0 <= n < |ops| ensures ops[n] <= path <==> OccursAt(path, ops[n], 0) { PrefixOccurs(path, ops[n]); }
      }
    }
  }

  lemma PrefixOccurs(s: string, o: string)
    ensures o <= s <==> OccursAt(s, o, 0)
  {
    if OccursAt(s, o, 0) {
      forall j | 0 <= j < |o| ensures s[j] == o[j] { assert s[0 + j] == o[j]; }
    }
  }

  lemma NowhereIff(s: string)
    ensures (forall m :: 0 <= m < |OPERATORS| ==> !Contains(s, OPERATORS[m])) <==>
            forall i :: 0 <= i < |s| ==> !IsOperatorChar(s[i])
  {
    if forall m :: 0 <= m < |OPERATORS| ==> !Contains(s, OPERATORS[m]) {
      forall i | 0 <= i < |s| ensures !IsOperatorChar(s[i]) { OperatorChars(s, i); }
    }
    if forall i :: 0 <= i < |s| ==> !IsOperatorChar(s[i]) {
      forall m, i: nat | 0 <= m < |OPERATORS| && OccursAt(s, OPERATORS[m], i) ensures false {
        OperatorShape(m);
        OperatorChars(s, i);
      }
    }
  }

  // ---------- Printing and parsing ----------

  /** An occurrence in a concatenation lies in one part or, for a two-character text, across the seam. */
  lemma ContainsSplit(a: string, b: string, t: string)
    requires 1 <= |t| <= 2
    ensures Contains(a + b, t) <==> Contains(a, t) || Contains(b, t) || AcrossSeam(a, b, t)
  {
    var s := a + b;
    if Contains(s, t) {
      var i: nat :| OccursAt(s, t, i);
      if i + |t| <= |a| {
        assert OccursAt(a, t, i);
      } else if i >= |a| {
        assert OccursAt(b, t, i - |a|) by {
          forall j | 0 <= j < |t| ensures b[i - |a| + j] == t[j] { assert s[i + j] == t[j]; }
        }
      } else {
        assert s[i + 0] == t[0] && s[i + 1] == t[1];
      }
    }
    if Contains(a, t) {
      var i: nat :| OccursAt(a, t, i);
      assert OccursAt(s, t, i);
    }
    if Contains(b, t) {
      var i: nat :| OccursAt(b, t, i);
      assert OccursAt(s, t, |a| + i) by {
        forall j | 0 <= j < |t| ensures s[|a| + i + j] == t[j] { assert b[i + j] == t[j]; }
      }
    }
    if AcrossSeam(a, b, t) {
      assert OccursAt(s, t, |a| - 1);
    }
  }

  predicate AcrossSeam(a: string, b: string, t: string)
  {
    |t| == 2 && a != "" && b != "" && a[|a| - 1] == t[0] && b[0] == t[1]
  }

  /** All there is to know about the operators. */
  lemma OperatorShape(n: nat)
    requires n < |OPERATORS|
    ensures var o := OPERATORS[n];
            && 1 <= |o| <= 2 && o[0] != '=' && o[0] != '$' && (|o| == 2 <==> n < 2) && (n < 2 ==> o[1] == '=')
            && (n < 4 ==> o[0] == if n % 2 == 0 then '>' else '<') && (n >= 4 ==> o[0] != '>' && o[0] != '<')
    ensures forall m :: 0 <= m < n ==> OPERATORS[m] != OPERATORS[n]
  {
  }

  /** ">=" or "<=" arises behind ">" or "<" when the value starts with "=". */
  predicate MakesLonger(n: nat, v: string)
  {
    (n == 2 || n == 3) && v != "" && v[0] == '='
  }

  lemma OperatorsDoNotNest(e: string, o: string)
    requires 1 <= |e| <= 2 && 1 <= |o| <= 2 && e != o && |e| >= |o|
    ensures !Contains(o, e)
  {
    forall i: nat ensures !OccursAt(o, e, i) {
      if i + |e| <= |o| {
        assert i == 0 && |e| == |o|;
        var j :| 0 <= j < |o| && e[j] != o[j];
        assert o[0 + j] != e[j];
      }
    }
  }

  lemma EarlierOperatorIn(f: string, n: nat, v: string, m: nat)
    requires m < n < |OPERATORS|
    ensures Contains(f + (OPERATORS[n] + v), OPERATORS[m]) <==>
            Contains(f, OPERATORS[m]) || Contains(v, OPERATORS[m]) || (m + 2 == n && MakesLonger(n, v))
  {
    OperatorShape(m); OperatorShape(n);
    var e, o := OPERATORS[m], OPERATORS[n];
    OperatorsDoNotNest(e, o);
    ContainsSplit(f, o + v, e);
    ContainsSplit(o, v, e);
    assert (o + v)[0] == o[0];
    assert AcrossSeam(o, v, e) <==> m + 2 == n && MakesLonger(n, v);
  }

  lemma SoonerOccurrence(f: string, o: string, v: string)
    requires 1 <= |o| <= 2 && (|o| == 2 ==> o[0] != o[1])
    ensures (forall i :: 0 <= i < |f| ==> !OccursAt(f + (o + v), o, i)) <==> !Contains(f, o)
  {
    var s := f + (o + v);
    forall i | 0 <= i < |f| ensures OccursAt(s, o, i) <==> OccursAt(f, o, i) {
      if i + |o| > |f| {
        assert s[i + 1] == o[0];
      }
    }
    if Contains(f, o) {
      var i: nat :| OccursAt(f, o, i);
      assert i < |f|;
    }
  }

  /**
   * What a printed query must satisfy to be read back: the field contains neither its own operator nor one
   * listed before it, the value contains none listed before it, and a value behind ">" or "<" does not start with "=".
   */
  ghost predicate Printable(f: string, n: nat, v: string)
    requires n < |OPERATORS|
  {
    && (forall m :: 0 <= m <= n ==> !Contains(f, OPERATORS[m]))
    && (forall m :: 0 <= m < n ==> !Contains(v, OPERATORS[m]))
    && !MakesLonger(n, v)
  }

  lemma ParsePathCuts(s: string)
    ensures ParsePath("$" + s) == CutAtOperator(OPERATORS, s, 0)
  {
    assert ("$" + s)[1..] == s;
  }

  lemma OperatorsDiffer()
    ensures forall i, j :: 0 <= i < j < |OPERATORS| ==> OPERATORS[i] != OPERATORS[j]
  {
    forall j | 0 <= j < |OPERATORS| ensures forall i :: 0 <= i < j ==> OPERATORS[i] != OPERATORS[j] {
      OperatorShape(j);
    }
  }

  /** Round trip: a printed field query parses back to the same triple if and only if it is printable. */
  lemma FieldQueryRoundTripsIff(f: string, n: nat, v: string)
    requires n < |OPERATORS|
    ensures ParsePath("$" + (f + (OPERATORS[n] + v))) == Parsed(f, OPERATORS[n], v) <==> Printable(f, n, v)
  {
    var s := f + (OPERATORS[n] + v);
    ParsePathCuts(s);
    OperatorsDiffer();
    OperatorShape(n);
    CutFindsIff(OPERATORS, s, 0, n, f, v);
    SoonerOccurrence(f, OPERATORS[n], v);
    NothingEarlierIff(f, n, v);
  }

  lemma NothingEarlierIff(f: string, n: nat, v: string)
    requires n < |OPERATORS|
    ensures (forall m :: 0 <= m < n ==> !Contains(f + (OPERATORS[n] + v), OPERATORS[m])) <==>
            (forall m :: 0 <= m < n ==> !Contains(f, OPERATORS[m]) && !Contains(v, OPERATORS[m])) && !MakesLonger(n, v)
  {
    var ops := OPERATORS;
    var s := f + (ops[n] + v);
    forall m | 0 <= m < n
      ensures Contains(s, ops[m]) <==> Contains(f, ops[m]) || Contains(v, ops[m]) || (m + 2 == n && MakesLonger(n, v))
    {
      EarlierOperatorIn(f, n, v, m);
    }
    if MakesLonger(n, v) {
      var m := n - 2;
      assert Contains(s, ops[m]);
    }
  }

  lemma {:induction false} PrefixFound(ops: seq<string>, s: string, k: nat, n: nat)
    requires k <= n < |ops| && ops[n] <= s && forall m :: k <= m < n ==> !(ops[m] <= s)
    ensures CutPrefix(ops, s, k) == Parsed("", ops[n], s[|ops[n]|..])
    decreases n - k
  {
    if k < n { PrefixFound(ops, s, k + 1, n); }
  }

  /** A query without a field: only ">" and "<" with a value starting in "=" are misread. */
  lemma PlainQueryRoundTripsIff(n: nat, v: string)
    requires n < |OPERATORS|
    ensures ParsePath(OPERATORS[n] + v) == Parsed("", OPERATORS[n], v) <==> !MakesLonger(n, v)
  {
    var ops := OPERATORS;
    var s := ops[n] + v;
    OperatorShape(n);
    assert s[|ops[n]|..] == v && s[0] == ops[n][0];
    if MakesLonger(n, v) {
      OperatorShape(n - 2);
      assert ops[n - 2] <= s;
      forall m | 0 <= m < n - 2 ensures !(ops[m] <= s) { OperatorShape(m); }
      PrefixFound(ops, s, 0, n - 2);
    } else {
      forall m | 0 <= m < n ensures !(ops[m] <= s) {
        OperatorShape(m);
      }
      PrefixFound(ops, s, 0, n);
    }
  }
}
