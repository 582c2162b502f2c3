/** Binary numbers as strings, the ripple-carry list of all of them, and the Gray code. */
module Bits {
  import opened Collections

  function Pow2(n: nat): (p: nat)
    ensures 1 <= p
  {
    if n == 0 then 1 else 2 * Pow2(n - 1)
  }

  predicate IsBits(s: string) {
    forall i :: 0 <= i < |s| ==> s[i] == '0' || s[i] == '1'
  }

  function Bit(c: char): nat {
    if c == '1' then 1 else 0
  }

  function Zeros(n: nat): string {
    seq(n, _ => '0')
  }

  /** The number a nonempty string of bits stands for, most significant bit first. */
  function Bin2Int(s: string): nat
    requires IsBits(s)
  {
    if s == "" then 0 else 2 * Bin2Int(s[..|s| - 1]) + Bit(s[|s| - 1])
  }

  // ----- by way of hexadecimal digits

  function Nibble(d: nat): string
    requires d < 16
  {
    ["0000", "0001", "0010", "0011", "0100", "0101", "0110", "0111",
     "1000", "1001", "1010", "1011", "1100", "1101", "1110", "1111"][d]
  }

  /** Each hexadecimal digit of i spelt as four bits. */
  function HexBits(i: nat): string {
    if i < 16 then Nibble(i) else HexBits(i / 16) + Nibble(i % 16)
  }

  /** A slice up to, and one from, the n-th character from the end, where -0 is 0. */
  function UpToLast(s: string, n: nat): string {
    if n == 0 || |s| <= n then "" else s[..|s| - n]
  }

  function FromLast(s: string, n: nat): string {
    if n == 0 || |s| <= n then s else s[|s| - n..]
  }

  /** None is the error for a number too large. */
  function Int2Bin(i: nat, n: nat): Option<string> {
    var result := HexBits(i);
    if '1' in UpToLast(result, n) then None
    else
      var last := FromLast(result, n);
      Some(Zeros(if |last| < n then n - |last| else 0) + last)
  }

  // ----- values

  lemma {:induction false} ValueJoin(s: string, t: string)
    requires IsBits(s) && IsBits(t)
    ensures IsBits(s + t) && Bin2Int(s + t) == Bin2Int(s) * Pow2(|t|) + Bin2Int(t)
  {
    if t == "" {
      assert s + t == s;
    } else {
      var front := t[..|t| - 1];
      ValueJoin(s, front);
      assert (s + t)[..|s + t| - 1] == s + front;
      assert 2 * (Bin2Int(s) * Pow2(|front|)) == Bin2Int(s) * Pow2(|t|);
    }
  }

  lemma {:induction false} ValueBound(s: string)
    requires IsBits(s)
    ensures Bin2Int(s) < Pow2(|s|)
    ensures Bin2Int(s) == 0 <==> '1' !in s
  {
    if s != "" {
      ValueBound(s[..|s| - 1]);
      assert s == s[..|s| - 1] + [s[|s| - 1]];
    }
  }

  /** Two strings of the same length with the same value are the same. */
  lemma {:induction false} ValueInjective(s: string, t: string)
    requires IsBits(s) && IsBits(t) && |s| == |t| && Bin2Int(s) == Bin2Int(t)
    ensures s == t
  {
    if s != "" {
      var a, b := s[|s| - 1], t[|t| - 1];
      assert Bit(a) == Bit(b);
      ValueInjective(s[..|s| - 1], t[..|t| - 1]);
      assert s == s[..|s| - 1] + [a] && t == t[..|t| - 1] + [b];
    }
  }

  lemma NibbleValue(d: nat)
    requires d < 16
    ensures |Nibble(d)| == 4 && IsBits(Nibble(d)) && Bin2Int(Nibble(d)) == d
  {
    var s := Nibble(d);
    assert s[..3][..2] == s[..2] && s[..3][..2][..1] == s[..1] && s[..2][..1] == s[..1] && s[..1][..0] == "";
    assert Bin2Int(s[..1]) == Bit(s[0]);
    assert Bin2Int(s[..2]) == 2 * Bit(s[0]) + Bit(s[1]);
    assert Bin2Int(s[..3]) == 4 * Bit(s[0]) + 2 * Bit(s[1]) + Bit(s[2]);
  }

  lemma {:induction false} HexBitsValue(i: nat)
    ensures IsBits(HexBits(i)) && Bin2Int(HexBits(i)) == i && HexBits(i) != ""
  {
    if i < 16 {
      NibbleValue(i);
    } else {
      HexBitsValue(i / 16);
      NibbleValue(i % 16);
      ValueJoin(HexBits(i / 16), Nibble(i % 16));
      assert Pow2(4) == 16;
    }
  }

  lemma ZerosValue(n: nat)
    ensures IsBits(Zeros(n)) && Bin2Int(Zeros(n)) == 0
  {
    ValueBound(Zeros(n));
  }

  lemma {:induction false} Pow2Grows(m: nat, n: nat)
    requires m <= n
    ensures Pow2(m) <= Pow2(n)
  {
    if m < n {
      Pow2Grows(m, n - 1);
    }
  }

  /** For a positive width: an error exactly if the number needs more bits, else its n bits. */
  lemma Int2BinExact(i: nat, n: nat)
    requires 0 < n
    ensures Int2Bin(i, n).None? <==> Pow2(n) <= i
    ensures Int2Bin(i, n).Some? ==>
      |Int2Bin(i, n).value| == n && IsBits(Int2Bin(i, n).value) && Bin2Int(Int2Bin(i, n).value) == i
  {
    hide HexBits, Bin2Int, Pow2, Zeros;
    var s := HexBits(i);
    HexBitsValue(i);
    if |s| <= n {
      ValueBound(s);
      Pow2Grows(|s|, n);
      Padded(s, n - |s|);
      assert Int2Bin(i, n) == Some(Zeros(n - |s|) + s);
    } else {
      var high, low := s[..|s| - n], s[|s| - n..];
      Cut(s, high, low);
      Padded(low, 0);
      assert Int2Bin(i, n) == if '1' in high then None else Some(Zeros(0) + low);
    }
  }

  lemma Padded(s: string, n: nat)
    requires IsBits(s)
    ensures |Zeros(n) + s| == n + |s| && IsBits(Zeros(n) + s) && Bin2Int(Zeros(n) + s) == Bin2Int(s)
  {
    hide Bin2Int, Pow2;
    ZerosValue(n);
    ValueJoin(Zeros(n), s);
  }

  lemma Cut(s: string, high: string, low: string)
    requires IsBits(s) && s == high + low
    ensures IsBits(high) && IsBits(low)
    ensures '1' in high <==> Pow2(|low|) <= Bin2Int(s)
    ensures '1' !in high ==> Bin2Int(low) == Bin2Int(s)
  {
    hide Bin2Int, Pow2, IsBits;
    BitsParts(high, low);
    ValueJoin(high, low);
    ValueBound(high);
    ValueBound(low);
    HighPart(Bin2Int(high), Pow2(|low|), Bin2Int(low), Bin2Int(s));
  }

  lemma BitsParts(high: string, low: string)
    requires IsBits(high + low)
    ensures IsBits(high) && IsBits(low)
  {
    var s := high + low;
    assert forall i :: 0 <= i < |high| ==> high[i] == s[i];
    assert forall i :: 0 <= i < |low| ==> low[i] == s[|high| + i];
  }

  lemma HighPart(high: nat, unit: nat, low: nat, whole: nat)
    requires low < unit && whole == high * unit + low
    ensures high == 0 <==> whole < unit
    ensures high == 0 ==> whole == low
  {
  }

  /** The number of a string of bits is written back as that string. */
  lemma Bin2IntInverts(s: string)
    requires IsBits(s) && s != ""
    ensures Int2Bin(Bin2Int(s), |s|) == Some(s)
  {
    ValueBound(s);
    Int2BinExact(Bin2Int(s), |s|);
    ValueInjective(s, Int2Bin(Bin2Int(s), |s|).value);
  }

  /** Width zero is no width at all: nothing is cut off and nothing is too large. */
  lemma WidthZero(i: nat)
    ensures Int2Bin(i, 0) == Some(HexBits(i)) && IsBits(HexBits(i)) && Bin2Int(HexBits(i)) == i
  {
    HexBitsValue(i);
    assert Zeros(0) + HexBits(i) == HexBits(i);
  }

  // ----- counting by ripple carry

  /** The value of a list of bits with the least significant first. */
  function Counter(v: string): nat {
    if v == "" then 0 else Bit(v[0]) + 2 * Counter(v[1..])
  }

  function Reversed(v: string): (r: string)
    ensures |r| == |v| && forall i :: 0 <= i < |v| ==> r[i] == v[|v| - 1 - i]
  {
    if v == "" then "" else Reversed(v[1..]) + [v[0]]
  }

  lemma {:induction false} ReversedValue(v: string)
    requires IsBits(v)
    ensures IsBits(Reversed(v)) && Bin2Int(Reversed(v)) == Counter(v)
  {
    if v != "" {
      ReversedValue(v[1..]);
      assert Reversed(v)[..|v| - 1] == Reversed(v[1..]);
    }
  }

  lemma {:induction false} CounterUpdate(v: string, i: nat, c: char)
    requires i < |v|
    ensures Counter(v[i := c]) + Bit(v[i]) * Pow2(i) == Counter(v) + Bit(c) * Pow2(i)
  {
    if i == 0 {
      assert v[i := c][1..] == v[1..];
    } else {
      assert v[i := c][1..] == v[1..][i - 1 := c];
      CounterUpdate(v[1..], i - 1, c);
      assert Bit(v[i]) * Pow2(i) == 2 * (Bit(v[i]) * Pow2(i - 1));
      assert Bit(c) * Pow2(i) == 2 * (Bit(c) * Pow2(i - 1));
    }
  }

  lemma {:induction false} CounterBound(v: string)
    ensures Counter(v) < Pow2(|v|)
  {
    if v != "" {
      CounterBound(v[1..]);
    }
  }

  lemma {:induction false} CounterOfZeros(n: nat)
    ensures Counter(Zeros(n)) == 0
  {
    if 0 < n {
      assert Zeros(n)[1..] == Zeros(n - 1);
      CounterOfZeros(n - 1);
    }
  }

  /** All numbers of a width in order; for width zero the list is empty, not the one empty string. */
  method BinaryRange(bits: nat) returns (l: seq<string>)
    ensures 0 < bits ==> |l| == Pow2(bits) && forall k :: 0 <= k < |l| ==> Int2Bin(k, bits) == Some(l[k])
    ensures bits == 0 ==> l == []
  {
    hide Int2Bin, Counter, Pow2, Reversed;
    l := [];
    var v := Zeros(bits);
    var toggle := [1] + seq(bits, _ => 0);
    CounterOfZeros(bits);
    while toggle[bits] != 1
      invariant |toggle| == bits + 1 && |v| == bits && IsBits(v)
      invariant forall k :: 0 <= k < |l| ==> 0 < bits && Int2Bin(k, bits) == Some(l[k])
      invariant bits == 0 ==> toggle[bits] == 1 && l == []
      invariant 0 < bits ==> if toggle[bits] == 1 then |l| == Pow2(bits) else Counter(v) == |l|
      decreases if toggle[bits] == 1 then 0 else Pow2(bits) - Counter(v)
    {
      ghost var before := Counter(v);
      CounterBound(v);
      ReversedValue(v);
      Bin2IntInverts(Reversed(v));
      l := l + [Reversed(v)];
      v, toggle := Increment(bits, v);
      CounterBound(v);
    }
  }

  lemma CarryOn(i: nat)
    ensures Pow2(0) == 1 && Pow2(i + 1) == 2 * Pow2(i)
  {
  }

  /** The inner loop: adds one, and leaves in the last toggle whether that overflowed. */
  method Increment(bits: nat, v0: string) returns (v: string, toggle: seq<int>)
    requires 0 < bits && |v0| == bits && IsBits(v0)
    ensures |toggle| == bits + 1 && |v| == bits && IsBits(v)
    ensures if toggle[bits] == 1 then Counter(v0) + 1 == Pow2(bits) else Counter(v) == Counter(v0) + 1
  {
    hide Counter, Pow2;
    CarryOn(0);
    v, toggle := v0, [1] + seq(bits, _ => 0);
    var i := 0;
    while i < bits && toggle[i] == 1
      invariant i <= bits && |toggle| == bits + 1 && |v| == bits && IsBits(v)
      invariant toggle[i] == 0 || toggle[i] == 1
      invariant forall j :: i < j <= bits ==> toggle[j] == 0
      invariant Counter(v) + toggle[i] * Pow2(i) == Counter(v0) + 1
    {
      CounterUpdate(v, i, if v[i] == '0' then '1' else '0');
      CarryOn(i);
      if v[i] == '0' {
        v := v[i := '1'];
        toggle := toggle[i + 1 := 0];
      } else {
        v := v[i := '0'];
        toggle := toggle[i + 1 := 1];
      }
      i := i + 1;
    }
    CounterBound(v0);
    if i == bits && toggle[i] == 1 {
      assert toggle[i] * Pow2(i) == Pow2(i);
    }
  }

  // ----- Gray code

  function Xor(a: nat, b: nat): nat {
    if a == 0 && b == 0 then 0 else 2 * Xor(a / 2, b / 2) + if a % 2 == b % 2 then 0 else 1
  }

  function BitAt(a: nat, k: nat): nat
    decreases k
  {
    if k == 0 then a % 2 else BitAt(a / 2, k - 1)
  }

  /** Bit by bit, as it should be. */
  lemma {:induction false} XorBitwise(a: nat, b: nat, k: nat)
    ensures BitAt(Xor(a, b), k) == if BitAt(a, k) == BitAt(b, k) then 0 else 1
    decreases k
  {
    XorHalf(a, b);
    if 0 < k {
      XorBitwise(a / 2, b / 2, k - 1);
    }
  }

  lemma XorHalf(a: nat, b: nat)
    ensures Xor(a, b) / 2 == Xor(a / 2, b / 2)
    ensures Xor(a, b) % 2 == if a % 2 == b % 2 then 0 else 1
  {
  }

  function GrayEncode(i: nat): nat {
    Xor(i, i / 2)
  }

  /** Each bit of the code tells whether that bit of the number differs from the next higher one. */
  lemma GrayBits(i: nat, k: nat)
    ensures BitAt(GrayEncode(i), k) == if BitAt(i, k) == BitAt(i, k + 1) then 0 else 1
  {
    XorBitwise(i, i / 2, k);
  }

  lemma {:induction false} GrayInjective(i: nat, j: nat)
    requires GrayEncode(i) == GrayEncode(j)
    ensures i == j
    decreases i + j
  {
    XorHalf(i, i / 2);
    XorHalf(j, j / 2);
    if 0 < i + j {
      GrayInjective(i / 2, j / 2);
    }
  }

  /** Neighbouring numbers have codes that differ in exactly one bit. */
  ghost predicate DifferOnlyAt(a: nat, b: nat, k: nat) {
    BitAt(a, k) != BitAt(b, k) && forall j: nat :: j != k ==> BitAt(a, j) == BitAt(b, j)
  }

  lemma {:induction false} GrayNeighbours(i: nat) returns (k: nat)
    ensures DifferOnlyAt(GrayEncode(i), GrayEncode(i + 1), k)
    decreases i
  {
    hide Xor;
    var a, b := GrayEncode(i), GrayEncode(i + 1);
    XorHalf(i, i / 2);
    XorHalf(i + 1, (i + 1) / 2);
    if i % 2 == 0 {
      k := 0;
      assert a / 2 == b / 2;
      forall j: nat | j != 0 ensures BitAt(a, j) == BitAt(b, j) {
      }
    } else {
      var h := GrayNeighbours(i / 2);
      k := h + 1;
      assert (i + 1) / 2 == i / 2 + 1;
      forall j: nat | j != k ensures BitAt(a, j) == BitAt(b, j) {
        if 0 < j {
          assert BitAt(a / 2, j - 1) == BitAt(b / 2, j - 1);
        }
      }
    }
  }
}
