/** JSON documents (section 3 of RFC 8259) as a recursive datatype, and dotted paths. */
module Json {

  datatype Json =
    | Null
    | Bool(b: bool)
    | Num(n: real)
    | Str(s: string)
    | Arr(elems: seq<Json>)
    | Obj(fields: map<string, Json>)

  const EMPTY := Obj(map[])

  type Path = p: seq<string> | |p| > 0 witness [""]

  /** Splits a dotted path; the empty string is the path with one empty key. */
  function Split(s: string): (keys: Path)
  {
    if s == "" then [""]
    else
      var rest := Split(s[1..]);
      if s[0] == '.' then [""] + rest else [[s[0]] + rest[0]] + rest[1..]
  }

  function Join(keys: seq<string>): string
  {
    if |keys| == 0 then ""
    else if |keys| == 1 then keys[0]
    else keys[0] + "." + Join(keys[1..])
  }

  lemma JoinPrefix(x: string, keys: Path)
    ensures Join([x + keys[0]] + keys[1..]) == x + Join(keys)
  {
    assert ([x + keys[0]] + keys[1..])[1..] == keys[1..];
    if |keys| > 1 {
      assert x + keys[0] + "." + Join(keys[1..]) == x + (keys[0] + "." + Join(keys[1..]));
    }
  }

  /** Splitting loses nothing, so no two dotted strings name the same key list. */
  lemma {:induction false} JoinOfSplit(s: string)
    ensures Join(Split(s)) == s
  {
    if s != "" {
      var rest := Split(s[1..]);
      JoinOfSplit(s[1..]);
      assert s == [s[0]] + s[1..];
      if s[0] == '.' {
        assert ([""] + rest)[1..] == rest;
        assert Join([""] + rest) == "" + "." + Join(rest);
      } else {
        JoinPrefix([s[0]], rest);
      }
    }
  }

  predicate NoDots(keys: seq<string>)
  {
    forall k :: k in keys ==> '.' !in k
  }

  lemma {:induction false} SplitHasNoDots(s: string)
    ensures NoDots(Split(s))
  {
    if s != "" {
      var rest := Split(s[1..]);
      SplitHasNoDots(s[1..]);
      assert rest[0] in rest && forall k :: k in rest[1..] ==> k in rest;
    }
  }

  lemma {:induction false} SplitAtDot(k: string, s: string)
    requires '.' !in k
    ensures Split(k) == [k] && Split(k + "." + s) == [k] + Split(s)
  {
    if k == "" {
      assert ("" + "." + s)[1..] == s;
    } else {
      SplitAtDot(k[1..], s);
      assert k + "." + s == [k[0]] + (k[1..] + "." + s);
      assert [k[0]] + k[1..] == k;
    }
  }

  lemma {:induction false} SplitOfJoin(keys: Path)
    requires NoDots(keys)
    ensures Split(Join(keys)) == keys
    decreases |keys|
  {
    assert keys[0] in keys && forall k :: k in keys[1..] ==> k in keys;
    SplitAtDot(keys[0], Join(keys[1..]));
    if |keys| > 1 {
      SplitOfJoin(keys[1..]);
    }
  }

  /** A dotted path is cut at every dot and nowhere else: its keys are the one list of dotless keys that spells it. */
  lemma SplitIff(s: string, keys: Path)
    ensures Split(s) == keys <==> Join(keys) == s && NoDots(keys)
  {
    JoinOfSplit(s);
    SplitHasNoDots(s);
    if NoDots(keys) {
      SplitOfJoin(keys);
    }
  }
}
