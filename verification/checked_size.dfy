// compiler/src/util.c: checked size_t arithmetic and the growable byte buffer.
module CheckedSize {
  import opened Text

  const SIZE_MAX: nat := 0xFFFF_FFFF_FFFF_FFFF

  /** The values of a 64-bit size_t. */
  type Size = n: nat | n <= SIZE_MAX

  const POINTER_SIZE: Size := 8

  function AddChecked(a: Size, b: Size): (r: Option<Size>)
    ensures r.None? <==> a + b > SIZE_MAX
    ensures r.Some? ==> r.value == a + b
  {
    if a > SIZE_MAX - b then None else Some(a + b)
  }

  function MulChecked(a: Size, b: Size): (r: Option<Size>)
    ensures r.None? <==> a * b > SIZE_MAX
    ensures r.Some? ==> r.value == a * b
  {
    MulGuard(a, b);
    if a != 0 && b > SIZE_MAX / a then None else Some(a * b)
  }

  /** The division guard of the checked product is exact. */
  lemma MulGuard(a: Size, b: Size)
    ensures (a != 0 && b > SIZE_MAX / a) <==> a * b > SIZE_MAX
  {
    if a != 0 {
      var q, r := SIZE_MAX / a, SIZE_MAX % a;
      assert SIZE_MAX == a * q + r && r < a;
      if b > q {
        assert a * b >= a * (q + 1) by { MulMonotone(a, q + 1, b); }
        assert a * (q + 1) == a * q + a;
      } else {
        MulMonotone(a, b, q);
      }
    }
  }

  lemma MulMonotone(a: nat, b: nat, c: nat)
    requires b <= c
    ensures a * b <= a * c
  {
  }

  lemma MulGap(c: nat, a: nat, b: nat)
    ensures a < b ==> c * a + c <= c * b
  {
    if a < b {
      MulMonotone(c, a + 1, b);
      assert c * (a + 1) == c * a + c;
    }
  }

  function Pow2(k: nat): (p: nat)
    ensures p > 0
  {
    if k == 0 then 1 else 2 * Pow2(k - 1)
  }

  /** The first number of the sequence g, 2g, 4g, ... that reaches m. */
  function LeastDoubling(g: nat, m: nat): (d: nat)
    requires g > 0
    ensures d >= m && d >= g
    ensures d == g || d < 2 * m
    decreases m - g
  {
    if g >= m then g else LeastDoubling(2 * g, m)
  }

  lemma Pow2Zero(g: nat)
    ensures g * Pow2(0) == g
  {
  }

  lemma DoubledPow2(g: nat, k: nat)
    ensures g * Pow2(k + 1) == (2 * g) * Pow2(k)
  {
    var p := Pow2(k);
    assert Pow2(k + 1) == 2 * p;
    assert g * (2 * p) == (2 * g) * p;
  }

  /** LeastDoubling is a power-of-two multiple of g, and every smaller such multiple is too small. */
  lemma {:induction false} LeastDoublingIsLeast(g: nat, m: nat) returns (k: nat)
    requires g > 0
    ensures LeastDoubling(g, m) == g * Pow2(k)
    ensures forall j: nat :: j < k ==> g * Pow2(j) < m
    decreases m - g
  {
    if g >= m {
      k := 0;
    } else {
      var k' := LeastDoublingIsLeast(2 * g, m);
      k := k' + 1;
      DoubledPow2(g, k');
      hide Pow2;
      forall j: nat | j < k ensures g * Pow2(j) < m {
        if j > 0 {
          DoubledPow2(g, j - 1);
        } else {
          Pow2Zero(g);
        }
      }
    }
  }

  /** Where the doubling loop starts. */
  function GrowthStart(current: Size, initial: Size): (g: Size)
    ensures g > 0
  {
    var g := if current != 0 then current else initial;
    if g == 0 then 1 else g
  }

  /** The capacity the loop settles on: the least sufficient doubling, or the exact minimum when that
      doubling is not a size_t. */
  function GrownCapacity(current: Size, minimum: Size, initial: Size): (c: Size)
    ensures c >= minimum
  {
    if minimum == 0 then current
    else
      var d := LeastDoubling(GrowthStart(current, initial), minimum);
      if d <= SIZE_MAX then d else minimum
  }

  /** k doublings of g are the least that reach the minimum, and c is what they give, or the minimum
      itself when that is no size_t. */
  ghost predicate Grows(c: nat, g: nat, minimum: nat, k: nat) {
    && (forall j: nat :: j < k ==> g * Pow2(j) < minimum)
    && g * Pow2(k) >= minimum
    && c == if g * Pow2(k) <= SIZE_MAX then g * Pow2(k) else minimum
  }

  /** The doubling starts at the current capacity, for want of one at the initial, for want of that at 1. */
  lemma GrownIs(current: Size, minimum: Size, initial: Size)
    requires minimum > 0
    ensures var g := if current > 0 then current else if initial > 0 then initial else 1;
            exists k: nat :: Grows(GrownCapacity(current, minimum, initial), g, minimum, k)
  {
    var g := GrowthStart(current, initial);
    var k := LeastDoublingIsLeast(g, minimum);
    hide Pow2;
    assert Grows(GrownCapacity(current, minimum, initial), g, minimum, k);
  }

  /** Growth never fails: the only error return of the loop is dead. */
  method GrowDoubling(current: Size, minimum: Size, initial: Size) returns (grown: Size)
    ensures grown == GrownCapacity(current, minimum, initial)
    ensures minimum == 0 ==> grown == current
    ensures minimum > 0 ==>
              var g := if current > 0 then current else if initial > 0 then initial else 1;
              exists k: nat :: Grows(grown, g, minimum, k)
  {
    if minimum == 0 {
      return current;
    }
    GrownIs(current, minimum, initial);
    grown := if current != 0 then current else initial;
    if grown == 0 {
      grown := 1;
    }
    ghost var start := grown;
    while grown < minimum
      invariant grown > 0
      invariant LeastDoubling(start, minimum) == LeastDoubling(grown, minimum)
      decreases minimum - grown
    {
      if grown > SIZE_MAX / 2 {
        assert LeastDoubling(grown, minimum) >= 2 * grown;
        return minimum;
      }
      grown := grown + grown;
    }
  }

  // ---- Alignment ----

  predicate IsPowerOfTwo(a: nat) {
    a == 1 || (a > 1 && a % 2 == 0 && IsPowerOfTwo(a / 2))
  }

  /** The operator & on unsigned numbers, bit by bit. */
  function BitAnd(a: nat, b: nat): nat {
    if a == 0 || b == 0 then 0
    else 2 * BitAnd(a / 2, b / 2) + if a % 2 == 1 && b % 2 == 1 then 1 else 0
  }

  /** The operator ~ on size_t. */
  function Complement(a: Size): Size {
    SIZE_MAX - a
  }

  lemma {:induction false} AndSelf(a: nat)
    ensures BitAnd(a, a) == a
  {
    if a > 0 {
      AndSelf(a / 2);
    }
  }

  /** The test a & (a - 1) is exact. */
  lemma {:induction false} PowerOfTwoTest(a: nat)
    requires a > 0
    ensures BitAnd(a, a - 1) == 0 <==> IsPowerOfTwo(a)
  {
    if a > 1 {
      if a % 2 == 0 {
        assert (a - 1) / 2 == a / 2 - 1;
        PowerOfTwoTest(a / 2);
      } else {
        assert (a - 1) / 2 == a / 2;
        AndSelf(a / 2);
      }
    }
  }

  lemma {:induction false} AndAllOnes(n: nat, w: nat)
    requires n < Pow2(w)
    ensures BitAnd(n, Pow2(w) - 1) == n
  {
    if n > 0 {
      assert Pow2(w) == 2 * Pow2(w - 1);
      assert (Pow2(w) - 1) / 2 == Pow2(w - 1) - 1;
      AndAllOnes(n / 2, w - 1);
    }
  }

  lemma RemainderIs(n: nat, a: nat, k: nat, r: nat)
    requires r < a && n == a * k + r
    ensures n % a == r
  {
    var q, m := n / a, n % a;
    assert n == a * q + m && m < a;
    MulGap(a, k, q);
    MulGap(a, q, k);
  }

  lemma RemainderOfHalf(n: nat, a: nat)
    requires a > 0
    ensures n % (2 * a) == 2 * ((n / 2) % a) + n % 2
  {
    var q, b := n / 2, n % 2;
    var k, r := q / a, q % a;
    assert q == a * k + r;
    assert (2 * a) * k == 2 * (a * k);
    RemainderIs(n, 2 * a, k, 2 * r + b);
  }

  /** Clearing the bits below a power of two, in w bits, drops the remainder. */
  lemma {:induction false} MaskDropsRemainder(n: nat, a: nat, w: nat)
    requires IsPowerOfTwo(a) && n < Pow2(w) && a <= Pow2(w)
    ensures BitAnd(n, Pow2(w) - a) == n - n % a
  {
    if a == 1 {
      AndAllOnes(n, w);
    } else {
      var mask := Pow2(w) - a;
      assert Pow2(w) == 2 * Pow2(w - 1);
      assert mask % 2 == 0 && mask / 2 == Pow2(w - 1) - a / 2;
      MaskDropsRemainder(n / 2, a / 2, w - 1);
      RemainderOfHalf(n, a / 2);
    }
  }

  lemma Pow2Plus8(k: nat)
    ensures Pow2(k + 8) == 0x100 * Pow2(k)
  {
    assert Pow2(k + 2) == 4 * Pow2(k) && Pow2(k + 4) == 4 * Pow2(k + 2);
    assert Pow2(k + 6) == 4 * Pow2(k + 4) && Pow2(k + 8) == 4 * Pow2(k + 6);
  }

  lemma Pow2Of64()
    ensures Pow2(64) == SIZE_MAX + 1
  {
    hide Pow2;
    Pow2Zero(1);
    Pow2Plus8(0);
    Pow2Plus8(8);
    Pow2Plus8(16);
    Pow2Plus8(24);
    Pow2Plus8(32);
    Pow2Plus8(40);
    Pow2Plus8(48);
    Pow2Plus8(56);
  }

  lemma RemainderDropped(n: nat, a: nat)
    requires a > 0
    ensures (n - n % a) % a == 0
  {
    RemainderIs(n - n % a, a, n / a, 0);
  }

  /** On size_t the mask ~(a - 1) of a power of two takes a number down to a multiple of a. */
  lemma MaskAligns(n: Size, a: Size)
    requires IsPowerOfTwo(a)
    ensures BitAnd(n, Complement(a - 1)) == n - n % a
    ensures (n - n % a) % a == 0
  {
    Pow2Of64();
    MaskDropsRemainder(n, a, 64);
    RemainderDropped(n, a);
  }

  /** jz_size_align_up_checked. */
  function AlignUpChecked(size: Size, alignment: Size): (r: Option<Size>)
    ensures r.Some? <==> IsPowerOfTwo(alignment) && size + alignment - 1 <= SIZE_MAX
    ensures r.Some? ==> size <= r.value < size + alignment && r.value % alignment == 0
  {
    if alignment == 0 then None
    else
      PowerOfTwoTest(alignment);
      if BitAnd(alignment, alignment - 1) != 0 then None
      else
        var rounded := AddChecked(size, alignment - 1);
        if rounded.None? then None
        else
          MaskAligns(rounded.value, alignment);
          Some(BitAnd(rounded.value, Complement(alignment - 1)))
  }

  // ---- The byte buffer ----

  newtype Byte = n: int | 0 <= n < 256

  /** memcpy of bytes to position at. */
  method Write(a: array<Byte>, at: nat, bytes: seq<Byte>)
    requires at + |bytes| <= a.Length
    modifies a
    ensures a[..at + |bytes|] == old(a[..at]) + bytes
  {
    ghost var before := a[..at];
    for i := 0 to |bytes|
      invariant a[..at + i] == before + bytes[..i]
    {
      a[at + i] := bytes[i];
      assert a[..at + i + 1] == a[..at + i] + [bytes[i]];
    }
  }

  /** JZBuffer. */
  class Buffer {
    var data: array<Byte>
    var len: Size
    /** The bytes that reallocations have moved so far, counted as the capacity given up each time. */
    ghost var moved: nat

    ghost predicate Valid()
      reads this
    {
      && len <= data.Length <= SIZE_MAX
      && (data.Length <= SIZE_MAX / 2 ==> moved <= data.Length)
    }

    ghost function Contents(): seq<Byte>
      requires Valid()
      reads this, data
    {
      data[..len]
    }

    constructor ()
      ensures Valid() && Contents() == [] && data.Length == 0 && moved == 0 && fresh(data)
    {
      data, len, moved := new Byte[0], 0, 0;
    }

    /** jz_buf_reserve. Growth is by doubling, to the first capacity that suffices, unless that is no
        size_t; and as long as no capacity exceeds half of SIZE_MAX, all reallocations together have
        moved no more bytes than the final capacity. */
    method Reserve(newCap: Size)
      requires Valid()
      modifies this
      ensures Valid() && Contents() == old(Contents()) && len == old(len)
      ensures data.Length == if newCap <= old(data.Length) then old(data.Length)
                             else GrownCapacity(old(data.Length), newCap, 16)
      ensures data == old(data) || fresh(data)
      ensures moved == old(moved) + if newCap <= old(data.Length) then 0 else old(data.Length)
    {
      if newCap <= data.Length {
        return;
      }
      var cap := GrowDoubling(data.Length, newCap, 16);
      DoublingAtLeastTwice(data.Length, newCap, 16);
      var grown := new Byte[cap](i => 0);
      Write(grown, 0, data[..len]);
      moved := moved + data.Length;
      data := grown;
    }

    /** jz_buf_append; the appended bytes are a value, so they never alias the buffer. */
    method Append(bytes: seq<Byte>) returns (ok: bool)
      requires Valid()
      modifies this, data
      ensures Valid() && (data == old(data) || fresh(data))
      ensures ok <==> bytes == [] || old(len) + |bytes| <= SIZE_MAX
      ensures data.Length == if !ok || old(len) + |bytes| <= old(data.Length) then old(data.Length)
                             else GrownCapacity(old(data.Length), old(len) + |bytes|, 16)
      ensures moved == old(moved) + if !ok || old(len) + |bytes| <= old(data.Length) then 0 else old(data.Length)
      ensures Contents() == if ok then old(Contents()) + bytes else old(Contents())
    {
      if |bytes| == 0 {
        return true;
      }
      if |bytes| > SIZE_MAX {
        return false;
      }
      var newLen := AddChecked(len, |bytes|);
      if newLen.None? {
        return false;
      }
      ghost var before := Contents();
      Reserve(newLen.value);
      Write(data, len, bytes);
      len := newLen.value;
      return true;
    }
  }

  /** A capacity in the lower half of size_t that growth leaves behind is at most half of the next, if
      that is in the lower half as well. */
  lemma DoublingAtLeastTwice(current: Size, minimum: Size, initial: Size)
    requires minimum > current
    ensures GrownCapacity(current, minimum, initial) <= SIZE_MAX / 2 ==>
              2 * current <= GrownCapacity(current, minimum, initial)
  {
    if current > 0 {
      assert LeastDoubling(current, minimum) >= LeastDoubling(2 * current, minimum) >= 2 * current;
      if LeastDoubling(current, minimum) > SIZE_MAX {
        assert LeastDoubling(current, minimum) < 2 * minimum;
      }
    }
  }
}
