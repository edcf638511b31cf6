/** Fixed-width words and byte strings as the C code sees them. */
module Words {
  const TWO16: int := 0x1_0000
  const TWO32: int := 0x1_0000_0000

  type byte = b: int | 0 <= b < 256
  type u16 = w: int | 0 <= w < 0x1_0000
  type u32 = w: int | 0 <= w < 0x1_0000_0000

  datatype Option<+T> = None | Some(value: T)

  function Wrap16(x: int): u16 {
    x % TWO16
  }

  function Wrap32(x: int): u32 {
    x % TWO32
  }

  type int16 = w: int | -0x8000 <= w < 0x8000
  type int32 = w: int | -0x8000_0000 <= w < 0x8000_0000

  function ToInt32(x: int): int32 {
    (x + 0x8000_0000) % TWO32 - 0x8000_0000
  }

  predicate FitsInt32(x: int) {
    -0x8000_0000 <= x < 0x8000_0000
  }

  lemma KeptInt32(x: int)
    requires FitsInt32(x)
    ensures ToInt32(x) == x
  {
  }

  lemma KeptWord32(x: int)
    requires 0 <= x < TWO32
    ensures Wrap32(x) == x
  {
  }

  /** Wrapping once is enough. */
  lemma WrapShift(a: int, b: int)
    ensures Wrap32(Wrap32(a) + b) == Wrap32(a + b)
    ensures Wrap32(b + Wrap32(a)) == Wrap32(b + a)
  {
  }

  lemma WrapZero()
    ensures Wrap32(0) == 0
  {
  }

  /** C's division by a positive number: towards zero. */
  function TruncDiv(x: int, y: int): int
    requires y > 0
  {
    if x >= 0 then x / y else -(-x / y)
  }

  function Min(x: int, y: int): int {
    if x <= y then x else y
  }

  function Max(x: int, y: int): int {
    if x <= y then y else x
  }

  lemma MulMono(a: nat, b: nat, c: nat, d: nat)
    requires a <= c && b <= d
    ensures 0 <= a * b <= c * d
  {
    assert (c - a) * b >= 0;
    assert c * (d - b) >= 0;
  }

  function Zeros(n: nat): (z: seq<byte>)
    ensures |z| == n
    ensures forall i :: 0 <= i < n ==> z[i] == 0
  {
    seq(n, _ => 0)
  }

  /** `memory` with `data` copied over it from `at`; what falls outside is dropped. */
  function Patch(memory: seq<byte>, at: nat, data: seq<byte>): (r: seq<byte>)
    ensures |r| == |memory|
    ensures forall i :: 0 <= i < |memory| ==> r[i] == if at <= i < at + |data| then data[i - at] else memory[i]
  {
    seq(|memory|, i requires 0 <= i < |memory| => if at <= i < at + |data| then data[i - at] else memory[i])
  }

  /** Two copies side by side are one copy of the concatenation. */
  lemma PatchAppend(memory: seq<byte>, at: nat, first: seq<byte>, second: seq<byte>)
    ensures Patch(Patch(memory, at, first), at + |first|, second) == Patch(memory, at, first + second)
  {
  }

  function Pow2(n: nat): (p: nat)
    ensures p > 0
  {
    if n == 0 then 1 else 2 * Pow2(n - 1)
  }

  lemma {:induction false} Pow2Sum(a: nat, b: nat)
    ensures Pow2(a + b) == Pow2(a) * Pow2(b)
  {
    if b > 0 {
      Pow2Sum(a, b - 1);
    }
  }

  lemma DivBounds(n: nat, k: nat, quotient: int)
    requires k > 0 && quotient == n / k
    ensures quotient * k <= n < (quotient + 1) * k
  {
    assert n == k * (n / k) + n % k;
  }

  lemma CancelInt(a: int, b: int, k: int)
    requires k > 0
    ensures a * k < b * k <==> a < b
  {
    if a < b {
      assert (b - a) * k > 0;
    } else {
      assert (a - b) * k >= 0;
    }
  }

  lemma DivUnique(n: int, k: int, q: int)
    requires k > 0 && q * k <= n < (q + 1) * k
    ensures n / k == q
  {
    var d := n / k;
    assert n == k * d + n % k;
    assert d * k <= n < (d + 1) * k;
    CancelInt(q, d + 1, k);
    CancelInt(d, q + 1, k);
  }

  lemma ModUnique(n: int, k: int, q: int, r: int)
    requires 0 <= r < k && n == q * k + r
    ensures n % k == r
  {
    DivUnique(n, k, q);
    assert n == k * (n / k) + n % k;
  }

  /** Numbers less than `n` apart are different modulo `n`. */
  lemma SameSlot(i: int, k: int, n: nat)
    requires i < k < i + n
    ensures i % n != k % n
  {
    if i % n == k % n {
      assert k - i == n * (k / n - i / n);
      if k / n - i / n >= 1 {
        MulMono(n, 1, n, k / n - i / n);
      } else {
        MulMono(n, 0, n, i / n - k / n);
      }
    }
  }
}
