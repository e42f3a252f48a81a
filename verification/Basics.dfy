/** Machine words, optional values, and the little arithmetic the other modules share. */
module Words {
  type u32 = x: int | 0 <= x < 0x1_0000_0000
  type u64 = x: int | 0 <= x < 0x1_0000_0000_0000_0000
  type byte = x: int | 0 <= x < 256

  /** One more than the largest u64. */
  const WORD: nat := 0x1_0000_0000_0000_0000
}

module Options {
  datatype Option<+T> = None | Some(value: T)
}

module Sequences {
  /** The first place of x. */
  function IndexOf<T(==)>(s: seq<T>, x: T): (i: nat)
    requires x in s
    ensures i < |s| && s[i] == x
  {
    if s[0] == x then 0 else 1 + IndexOf(s[1..], x)
  }

  function DropAt<T>(s: seq<T>, i: nat): seq<T>
    requires i < |s|
  {
    s[..i] + s[i + 1..]
  }

  lemma RemovedFrom<T>(s: seq<T>, i: nat)
    requires i < |s|
    ensures forall x :: x in s && x != s[i] ==> x in DropAt(s, i)
  {
    forall x | x in s && x != s[i] ensures x in DropAt(s, i) {
      var j :| 0 <= j < |s| && s[j] == x;
      assert DropAt(s, i)[if j < i then j else j - 1] == x;
    }
  }
}

module Arithmetic {

  lemma MulLe(x: nat, y: nat, z: nat)
    requires x <= y
    ensures x * z <= y * z
  {
    assert y * z == x * z + (y - x) * z;
  }

  lemma DivMod(v: nat, d: nat)
    requires d > 0
    ensures v == v % d + d * (v / d)
  {
  }

  /** Quotient and remainder are the only numbers that put a back together. */
  lemma DivByParts(a: nat, d: nat, q: nat, r: nat)
    requires d > 0 && a == d * q + r && r < d
    ensures a / d == q && a % d == r
  {
    var k := a / d;
    DivMod(a, d);
    if k < q {
      MulLe(k + 1, q, d);
    } else if q < k {
      MulLe(q + 1, k, d);
    }
  }
}
