/** Bytes, little-endian numbers and slice replacement, shared by the other modules. */
module Bytes {

  type byte = x: int | 0 <= x < 256

  datatype Option<+T> = None | Some(value: T)

  function Min(a: int, b: int): int {
    if a <= b then a else b
  }

  /** The n bytes from offset `from`, as far as they exist. */
  function Slice(s: seq<byte>, from: nat, n: nat): seq<byte> {
    s[Min(from, |s|)..Min(from + n, |s|)]
  }

  /** n copies of one value. */
  function Repeat<T>(n: nat, x: T): (r: seq<T>)
    ensures |r| == n && forall i :: 0 <= i < n ==> r[i] == x
  {
    seq(n, i => x)
  }

  // ----- little-endian numbers

  function Pow256(n: nat): (p: nat)
    ensures p > 0
  {
    if n == 0 then 1 else 256 * Pow256(n - 1)
  }

  function ToLE(v: nat, n: nat): (b: seq<byte>)
    ensures |b| == n
  {
    if n == 0 then [] else [v % 256] + ToLE(v / 256, n - 1)
  }

  function FromLE(b: seq<byte>): nat {
    if b == [] then 0 else b[0] + 256 * FromLE(b[1..])
  }

  /** Reading back a number that fits in n bytes gives that number. */
  lemma {:induction false} FromToLE(v: nat, n: nat)
    requires v < Pow256(n)
    ensures FromLE(ToLE(v, n)) == v
  {
    if n > 0 {
      FromToLE(v / 256, n - 1);
      assert ToLE(v, n)[1..] == ToLE(v / 256, n - 1);
    }
  }

  /** Numbers of two and of four bytes, lowest byte first. */
  lemma TwoBytes(b: seq<byte>)
    requires |b| == 2
    ensures FromLE(b) == (b[0] as int) + 0x100 * (b[1] as int)
  {
    assert b[1..] == [b[1]] && b[1..][1..] == [];
    assert FromLE(b[1..]) == b[1];
  }

  lemma FourBytes(b: seq<byte>)
    requires |b| == 4
    ensures FromLE(b) == (b[0] as int) + 0x100 * (b[1] as int) + 0x1_0000 * (b[2] as int) + 0x100_0000 * (b[3] as int)
  {
    assert FromLE(b[3..]) == b[3] by {
      assert b[3..][1..] == [];
    }
    assert b[2..][1..] == b[3..] && b[1..][1..] == b[2..];
    assert FromLE(b[2..]) == (b[2] as int) + 256 * FromLE(b[3..]);
    assert FromLE(b[1..]) == (b[1] as int) + 256 * FromLE(b[2..]);
  }

  lemma DigitAndRest(digit: byte, rest: nat)
    ensures (digit + 256 * rest) % 256 == digit && (digit + 256 * rest) / 256 == rest
  {
  }

  /** Bytes are the only form of the number they stand for. */
  lemma {:induction false} ToFromLE(b: seq<byte>)
    ensures ToLE(FromLE(b), |b|) == b
    decreases |b|
  {
    if b != [] {
      var rest := FromLE(b[1..]);
      ToFromLE(b[1..]);
      DigitAndRest(b[0], rest);
      assert FromLE(b) == b[0] + 256 * rest;
      assert ToLE(FromLE(b), |b|) == [b[0]] + ToLE(rest, |b| - 1);
    }
  }

  /** n bytes hold exactly the numbers below 256 to the n. */
  lemma {:induction false} FitsIffReadBack(v: nat, n: nat)
    ensures v < Pow256(n) <==> FromLE(ToLE(v, n)) == v
  {
    if v < Pow256(n) {
      FromToLE(v, n);
    } else {
      FromLEBelow(ToLE(v, n));
    }
  }

  lemma {:induction false} FromLEBelow(b: seq<byte>)
    ensures FromLE(b) < Pow256(|b|)
    decreases |b|
  {
    if b != [] {
      FromLEBelow(b[1..]);
    }
  }

  lemma Pow256Values()
    ensures Pow256(1) == 0x100 && Pow256(2) == 0x1_0000 && Pow256(4) == 0x1_0000_0000
  {
    assert Pow256(3) == 0x100_0000;
  }
}
