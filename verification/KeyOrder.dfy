/** The orders of the trees: by hash and then bytes, and by time. */
module KeyOrder {
  import opened Bytes
  import opened RbOrder

  /** Sign of the first difference within the shorter of two strings. */
  function Memcmp(a: bytes, b: bytes): int {
    if a == [] || b == [] then 0
    else if a[0] < b[0] then -1
    else if b[0] < a[0] then 1
    else Memcmp(a[1..], b[1..])
  }

  /** Bytes first, then length. */
  function Memn2Cmp(a: bytes, b: bytes): int {
    var m := Memcmp(a, b);
    if m != 0 || |a| == |b| then m else if |a| <= |b| then -1 else 1
  }

  predicate ByHash(x: (nat, bytes), y: (nat, bytes)) {
    x.0 < y.0 || (x.0 == y.0 && Memn2Cmp(x.1, y.1) < 0)
  }

  predicate ByTime(x: int, y: int) { x < y }

  lemma Memn2CmpStep(a: bytes, b: bytes)
    requires a != [] && b != []
    ensures Memn2Cmp(a, b) == if a[0] < b[0] then -1 else if b[0] < a[0] then 1 else Memn2Cmp(a[1..], b[1..])
  {
  }

  /** The comparison tells exactly equal strings apart, and is antisymmetric. */
  lemma {:induction false} Memn2CmpEqual(a: bytes, b: bytes)
    ensures Memn2Cmp(a, b) == 0 <==> a == b
    ensures Memn2Cmp(a, b) < 0 <==> Memn2Cmp(b, a) > 0
  {
    if a != [] && b != [] {
      Memn2CmpStep(a, b);
      Memn2CmpStep(b, a);
      if a[0] == b[0] {
        Memn2CmpEqual(a[1..], b[1..]);
        assert a == [a[0]] + a[1..] && b == [b[0]] + b[1..];
      }
    }
  }

  lemma {:induction false} Memn2CmpTransitive(a: bytes, b: bytes, c: bytes)
    requires Memn2Cmp(a, b) <= 0 && Memn2Cmp(b, c) <= 0
    ensures Memn2Cmp(a, c) <= 0
  {
    if a != [] && c != [] {
      assert b != [];
      hide Memcmp, Memn2Cmp;
      Memn2CmpStep(a, b);
      Memn2CmpStep(b, c);
      Memn2CmpStep(a, c);
      if a[0] == b[0] == c[0] {
        Memn2CmpTransitive(a[1..], b[1..], c[1..]);
      }
    }
  }

  /** By hash and bytes is a strict total order: keys that neither precede the other are equal. */
  lemma ByHashOrder()
    ensures IsOrder(ByHash)
    ensures forall x, y :: !ByHash(x, y) && !ByHash(y, x) ==> x == y
  {
    hide Memn2Cmp, IsOrder;
    forall x
      ensures !ByHash(x, x)
    {
      Memn2CmpEqual(x.1, x.1);
    }
    forall x, y
      ensures !ByHash(x, y) && !ByHash(y, x) ==> x == y
    {
      Memn2CmpEqual(x.1, y.1);
      Memn2CmpEqual(y.1, x.1);
      assert x == (x.0, x.1) && y == (y.0, y.1);
    }
    forall x, y, z | ByHash(x, y) && ByHash(y, z)
      ensures ByHash(x, z)
    {
      ByHashTransitive(x, y, z);
    }
    forall x, y, z | !ByHash(x, y) && !ByHash(y, z)
      ensures !ByHash(x, z)
    {
      ByHashNegative(x, y, z);
    }
    OrderFrom(ByHash);
  }

  lemma OrderFrom<K(!new)>(less: (K, K) -> bool)
    requires forall a :: !less(a, a)
    requires forall a, b, c :: less(a, b) && less(b, c) ==> less(a, c)
    requires forall a, b, c :: !less(a, b) && !less(b, c) ==> !less(a, c)
    ensures IsOrder(less)
  {
  }

  lemma ByHashTransitive(x: (nat, bytes), y: (nat, bytes), z: (nat, bytes))
    requires ByHash(x, y) && ByHash(y, z)
    ensures ByHash(x, z)
  {
    hide Memn2Cmp;
    if x.0 == y.0 == z.0 {
      Memn2CmpTransitive(x.1, y.1, z.1);
      Memn2CmpEqual(x.1, z.1);
      Memn2CmpEqual(x.1, y.1);
    }
  }

  lemma ByHashNegative(x: (nat, bytes), y: (nat, bytes), z: (nat, bytes))
    requires !ByHash(x, y) && !ByHash(y, z)
    ensures !ByHash(x, z)
  {
    hide Memn2Cmp;
    if x.0 == y.0 == z.0 {
      Memn2CmpEqual(x.1, y.1);
      Memn2CmpEqual(y.1, z.1);
      Memn2CmpEqual(x.1, z.1);
      Memn2CmpTransitive(z.1, y.1, x.1);
    }
  }

  lemma ByTimeOrder()
    ensures IsOrder(ByTime)
  {
  }

  const WORD := 0x1_0000_0000_0000_0000

  /** The difference of two times as the tree computes it: wrapped to 64 bits and read as signed. */
  function WrappedDifference(x: int, y: int): int {
    var d := (x - y) % WORD;
    if d < WORD / 2 then d else d - WORD
  }

  /**
   * Of times less than the whole range apart, the wrapped comparison is the plain one exactly
   * within half the range.
   */
  lemma TimerOrder(x: int, y: int)
    requires -WORD < x - y < WORD
    ensures (WrappedDifference(x, y) < 0 <==> ByTime(x, y)) <==> -(WORD / 2) <= x - y < WORD / 2
  {
    var d := x - y;
    if 0 <= d < WORD {
      assert d % WORD == d;
    } else if -WORD <= d < 0 {
      assert d % WORD == d + WORD;
    }
  }
}
