/** Shared vocabulary: optional values, bytes, and the fixed-width arithmetic of the program. */
module Base {

  datatype Option<+T> = None | Some(value: T) {
    function GetOr(default: T): T {
      if Some? then value else default
    }
  }

  type byte = x: int | 0 <= x < 256
  type bytes = seq<byte>

  const TWO32: nat := 0x1_0000_0000
  const TWO63: int := 0x8000_0000_0000_0000
  const TWO64: int := 0x1_0000_0000_0000_0000

  type uint32 = x: int | 0 <= x < TWO32
  type int32 = x: int | -0x8000_0000 <= x < 0x8000_0000
  type int64 = x: int | -TWO63 <= x < TWO63

  /** Signed 64-bit addition: wraps around on overflow. */
  function WrapAdd(a: int64, b: int64): (r: int64)
    ensures -TWO63 <= a + b < TWO63 ==> r == a + b
    ensures (r - (a + b)) % TWO64 == 0
  {
    var s := a + b;
    if s >= TWO63 then s - TWO64 else if s < -TWO63 then s + TWO64 else s
  }

  /** Signed 64-bit subtraction. */
  function WrapSub(a: int64, b: int64): (r: int64)
    ensures -TWO63 <= a - b < TWO63 ==> r == a - b
    ensures (r - (a - b)) % TWO64 == 0
  {
    var s := a - b;
    if s >= TWO63 then s - TWO64 else if s < -TWO63 then s + TWO64 else s
  }

  /** Conversion of a count to 32 bits: wraps around. */
  function ToInt32(n: nat): (r: int32)
    ensures (r - n) % TWO32 == 0
  {
    var m := n % TWO32;
    if m < 0x8000_0000 then m else m - TWO32
  }

  lemma NonEmptyHasElement<T>(s: seq<T>)
    ensures s != [] ==> exists x :: x in s
  {
    if s != [] { assert s[0] in s; }
  }

  ghost predicate Distinct<T>(order: seq<T>)
  {
    forall i, j :: 0 <= i < j < |order| ==> order[i] != order[j]
  }

  /** A loop over a set or the keys of a map: visited so far in this order, `todo` still to come. */
  ghost predicate Visited<T(!new)>(order: seq<T>, todo: set<T>, all: set<T>)
  {
    todo <= all && Distinct(order) && forall k :: k in order <==> k in all && k !in todo
  }

  lemma VisitNext<T(!new)>(order: seq<T>, todo: set<T>, all: set<T>, k: T)
    requires Visited(order, todo, all) && k in todo
    ensures Visited(order + [k], todo - {k}, all)
  {
    assert k !in order;
  }

  /** What holds at first and passes from each moment to the next holds at every moment. */
  lemma {:induction false} HoldsThroughout(holds: seq<bool>, j: nat)
    requires holds != [] && holds[0] && j < |holds|
    requires forall k, k1 :: 0 <= k < |holds| && k1 == k + 1 && k1 < |holds| && holds[k] ==> holds[k1]
    ensures holds[j]
  {
    if j > 0 {
      HoldsThroughout(holds, j - 1);
      assert holds[j - 1] ==> holds[j];
    }
  }
}
