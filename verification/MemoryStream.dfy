/** MemoryOutStream: C strings in a buffer that grows in multiples of 32. */
module RoundUp {
  import opened Text

  const INT_MAX: int := 0x7fff_ffff
  const UINT: nat := 0x1_0000_0000

  /** The & of two numbers, bit by bit. */
  function And(a: nat, b: nat): nat {
    if a == 0 then 0 else 2 * And(a / 2, b / 2) + (a % 2) * (b % 2)
  }

  /** The 32 bits of an int, and the int of 32 bits. */
  function Unsigned(x: int): nat
    requires -INT_MAX - 1 <= x <= INT_MAX
  {
    if x < 0 then x + UINT else x
  }

  function Signed(u: nat): int { if u > INT_MAX then u - UINT else u }

  function Complement(x: int): int { -x - 1 }

  function RoundUpToMultipleOfPow2Number(n: int, pow2Number: int): int
    requires -INT_MAX - 1 <= n + (pow2Number - 1) <= INT_MAX && 1 <= pow2Number <= INT_MAX
  {
    Signed(And(Unsigned(n + (pow2Number - 1)), Unsigned(Complement(pow2Number - 1))))
  }

  lemma {:induction false} AndOnes(a: nat, w: nat)
    requires a < Pow(2, w)
    ensures And(a, Pow(2, w) - 1) == a
  {
    if a > 0 {
      AndOnes(a / 2, w - 1);
      assert Pow(2, w) == 2 * Pow(2, w - 1);
    }
  }

  lemma ProductBounds(d: int, z: int)
    requires d > 0
    ensures z >= 1 ==> d * z >= d
    ensures z <= -1 ==> d * z <= -d
  {
  }

  lemma RemainderOf(x: int, d: nat, q: int, r: nat)
    requires x == d * q + r && r < d
    ensures x % d == r
  {
    var p, s := x / d, x % d;
    assert x == d * p + s;
    assert s - r == d * (q - p);
    ProductBounds(d, q - p);
  }

  /** The lowest bit of x and the others, modulo twice m. */
  lemma ModTwice(x: nat, m: nat)
    requires m > 0
    ensures x % (2 * m) == 2 * (x / 2 % m) + x % 2
  {
    var h := x / 2;
    var q, r := h / m, h % m;
    assert h == m * q + r;
    assert x == (2 * m) * q + (2 * r + x % 2);
    RemainderOf(x, 2 * m, q, 2 * r + x % 2);
  }

  lemma PowPositive(k: nat)
    ensures Pow(2, k) > 0
  {
    if k > 0 { PowPositive(k - 1); }
  }

  lemma AndEven(a: nat, mask: nat)
    ensures And(a, 2 * mask) == 2 * And(a / 2, mask)
  {
    assert (2 * mask) / 2 == mask && (2 * mask) % 2 == 0;
  }

  /** & with w - k ones followed by k zeros clears the k lowest bits. */
  lemma {:induction false} AndMask(a: nat, k: nat, w: nat)
    requires a < Pow(2, w) && k <= w
    ensures Pow(2, k) > 0 && Pow(2, w) >= Pow(2, k)
    ensures And(a, Pow(2, w) - Pow(2, k)) == a - a % Pow(2, k)
  {
    if k == 0 {
      AndOnes(a, w);
    } else {
      assert Pow(2, w) == 2 * Pow(2, w - 1) && Pow(2, k) == 2 * Pow(2, k - 1);
      AndMask(a / 2, k - 1, w - 1);
      ModTwice(a, Pow(2, k - 1));
      AndEven(a, Pow(2, w - 1) - Pow(2, k - 1));
    }
  }

  /** The result is the least multiple not below n, for every power of two and every n, negative ones
      included, for which the sum does not overflow. */
  lemma RoundUpExact(n: int, k: nat)
    requires k <= 30 && -INT_MAX - 1 <= n && n + (Pow(2, k) - 1) <= INT_MAX
    ensures 1 <= Pow(2, k) <= INT_MAX
    ensures var p := Pow(2, k); var r := RoundUpToMultipleOfPow2Number(n, p);
      r % p == 0 && n <= r < n + p
  {
    hide And, Pow;
    PowersFit(k);
    var p := Pow(2, k);
    var m := n + (p - 1);
    AndMask(Unsigned(m), k, 32);
    SameRemainder(m, k);
    assert Unsigned(Complement(p - 1)) == Pow(2, 32) - p;
    MultipleBelow(m, p);
  }

  lemma {:induction false} PowGrows(k: nat, n: nat)
    requires k <= n
    ensures 1 <= Pow(2, k) <= Pow(2, n)
  {
    if k < n { PowGrows(k, n - 1); } else if k > 0 { PowGrows(k - 1, n - 1); }
  }

  lemma PowersFit(k: nat)
    requires k <= 30
    ensures 1 <= Pow(2, k) <= INT_MAX && Pow(2, 32) == UINT
  {
    PowGrows(k, 30);
    Pow30();
  }

  lemma Pow30()
    ensures Pow(2, 30) == 0x4000_0000 && Pow(2, 32) == UINT
  {
    assert Pow(2, 4) == 16;
    PowAdd(2, 4, 4);
    PowAdd(2, 8, 8);
    PowAdd(2, 16, 16);
    assert Pow(2, 32) == 4 * Pow(2, 30);
  }

  lemma SameRemainder(m: int, k: nat)
    requires k <= 30 && -INT_MAX - 1 <= m <= INT_MAX && Pow(2, k) > 0
    ensures Unsigned(m) % Pow(2, k) == m % Pow(2, k)
  {
    PowersFit(k);
    PowAdd(2, k, 32 - k);
    if m < 0 { AddMultiple(m, Pow(2, k), Pow(2, 32 - k)); }
  }

  lemma AddMultiple(m: int, p: nat, q: nat)
    requires p > 0
    ensures (m + p * q) % p == m % p
  {
    var a, r := m / p, m % p;
    assert m + p * q == p * (a + q) + r;
    RemainderOf(m + p * q, p, a + q, r);
  }

  lemma MultipleBelow(m: int, p: nat)
    requires p > 0
    ensures (m - m % p) % p == 0
  {
    RemainderOf(m - m % p, p, m / p, 0);
  }
}

module MemoryStream {
  import opened Text
  import opened RoundUp

  const GROW_CHUNK_SIZE: int := 32

  /** The C string at the start of a buffer. */
  ghost predicate HasText(b: string, s: CStr) {
    |s| < |b| && b[..|s|] == s && b[|s|] == '\0'
  }

  lemma TextAt(b: string, s: CStr)
    requires HasText(b, s)
    ensures forall k :: 0 <= k < |s| ==> b[k] == s[k] && b[k] != '\0'
  {
    assert forall k :: 0 <= k < |s| ==> s[k] in s;
  }

  method StrLen(b: array<char>, ghost s: CStr) returns (n: nat)
    requires HasText(b[..], s)
    ensures n == |s|
  {
    TextAt(b[..], s);
    assert forall k :: 0 <= k <= |s| ==> b[..][k] == b[k];
    n := 0;
    while b[n] != '\0'
      invariant n <= |s|
      decreases |s| - n
    {
      n := n + 1;
    }
  }

  /** strcpy to b[at..]. Every byte written, the NUL included, is inside the buffer. */
  method StrCpy(b: array<char>, at: nat, s: CStr)
    requires at + |s| + 1 <= b.Length
    modifies b
    ensures b[..at] == old(b[..at]) && b[at..at + |s|] == s && b[at + |s|] == '\0'
    ensures b[at + |s| + 1..] == old(b[at + |s| + 1..])
  {
    for k := 0 to |s|
      invariant b[..at] == old(b[..at]) && b[at..at + k] == s[..k] && b[at + |s|..] == old(b[at + |s|..])
    {
      b[at + k] := s[k];
    }
    b[at + |s|] := '\0';
  }

  lemma RoundUp32(n: int)
    requires -INT_MAX - 1 <= n && n + 31 <= INT_MAX
    ensures var r := RoundUpToMultipleOfPow2Number(n, GROW_CHUNK_SIZE); r % 32 == 0 && n <= r < n + 32
  {
    assert Pow(2, 5) == 32 by { assert Pow(2, 3) == 8; }
    RoundUpExact(n, 5);
  }

  /** The first write, the NUL of the empty text, is inside the buffer exactly when the size given to the
      constructor is at least 1. Sizes down to -31 give a buffer of 0 bytes, into which the NUL is written all
      the same; for smaller ones the allocation is refused. */
  lemma FirstWriteInBounds(size: int)
    requires -INT_MAX - 1 <= size && size + 31 <= INT_MAX
    ensures var capacity := RoundUpToMultipleOfPow2Number(size, GROW_CHUNK_SIZE);
      && (0 < capacity <==> size >= 1)
      && (capacity == 0 <==> -31 <= size <= 0)
  {
    RoundUp32(size);
    MultiplesApart(RoundUpToMultipleOfPow2Number(size, GROW_CHUNK_SIZE));
  }

  lemma MultiplesApart(r: int)
    requires r % 32 == 0
    ensures r > 0 ==> r >= 32
    ensures r < 0 ==> r <= -32
  {
  }

  /** MemoryOutStream(0) is such a size. */
  lemma SizeZero()
    ensures RoundUpToMultipleOfPow2Number(0, GROW_CHUNK_SIZE) == 0
  {
    FirstWriteInBounds(0);
  }

  class MemoryOutStream {
    var capacity: int
    var buffer: array?<char>
    ghost var text: CStr

    /** The text and its NUL fit the buffer, whose size is a multiple of 32. */
    ghost predicate Valid()
      reads this, buffer
    {
      && buffer != null && buffer.Length == capacity && capacity % 32 == 0
      && HasText(buffer[..], text) && |text| + 1 <= capacity
    }

    /** The buffer gets the least multiple of 32. With a smaller size there would be no room for the NUL. */
    constructor (size: int)
      requires 1 <= size && size + 31 <= INT_MAX
      ensures Valid() && fresh(buffer) && text == "" && size <= capacity < size + 32
    {
      capacity, buffer, text := 0, null, "";
      new;
      GrowBuffer(size);
    }

    method GrowBuffer(desiredCapacity: int)
      requires buffer != null ==> Valid()
      requires |text| + 1 <= desiredCapacity && desiredCapacity + 31 <= INT_MAX && (buffer == null ==> text == "")
      modifies this`capacity, this`buffer
      ensures Valid() && fresh(buffer) && desiredCapacity <= capacity < desiredCapacity + 32
    {
      RoundUp32(desiredCapacity);
      var newCapacity := RoundUpToMultipleOfPow2Number(desiredCapacity, GROW_CHUNK_SIZE);
      var newBuffer := new char[newCapacity];
      if buffer != null {
        var n := StrLen(buffer, text);
        assert buffer[..n] == text;
        StrCpy(newBuffer, 0, buffer[..n]);
      } else {
        StrCpy(newBuffer, 0, "");
      }
      assert newBuffer[..][..|text|] == newBuffer[0..|text|];
      buffer := newBuffer;
      capacity := newCapacity;
    }

    method Clear()
      requires Valid()
      modifies buffer, this`text
      ensures Valid() && text == ""
    {
      buffer[0] := '\0';
      text := "";
    }

    /** operator << for C strings: the old text followed by the new. The buffer only grows when it has
        to, to the least multiple of 32 that is enough. */
    method Append(txt: CStr)
      requires Valid() && |text| + |txt| + 32 <= INT_MAX
      modifies this, buffer
      ensures Valid() && text == old(text) + txt && (buffer == old(buffer) || fresh(buffer))
      ensures var required := |old(text)| + |txt| + 1;
        if required <= old(capacity) then capacity == old(capacity) else required <= capacity < required + 32
    {
      var length := StrLen(buffer, text);
      var bytesLeft := capacity - length;
      var bytesRequired := |txt| + 1;
      if bytesRequired > bytesLeft {
        var requiredCapacity := bytesRequired + capacity - bytesLeft;
        GrowBuffer(requiredCapacity);
      }
      var end := StrLen(buffer, text);
      ghost var before := text;
      StrCpy(buffer, end, txt);
      text := text + txt;
      assert buffer[..][..|text|] == buffer[..end] + buffer[end..end + |txt|];
    }

    /** GetText. */
    method GetText() returns (s: string)
      requires Valid()
      ensures s == text
    {
      var n := StrLen(buffer, text);
      s := buffer[..n];
      assert buffer[..][..n] == s;
    }
  }
}
