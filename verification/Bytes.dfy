/** Octets, byte orders, alignment padding and fixed-width unsigned integers. Alignments are 1, 2,
    4 and 8; Pad is the distance to the next multiple, and Congruent relates offsets that need the
    same padding. At says that a piece occurs in a sequence at an offset, which is how data and
    signatures are described in all modules. PutUint and GetUint write and read a number in a byte
    order and undo each other. */
module Bytes {

  type byte = n: int | 0 <= n < 256

  datatype Option<+T> = None | Some(value: T)

  /** binary.LittleEndian and binary.BigEndian. */
  datatype Order = Little | Big

  /** The four alignments of the D-Bus type system. */
  type Alignment = a: int | a == 1 || a == 2 || a == 4 || a == 8 witness 1

  ghost predicate Multiple(a: Alignment, d: int) {
    (a == 2 ==> d % 2 == 0) && (a == 4 ==> d % 4 == 0) && (a == 8 ==> d % 8 == 0)
  }

  /** The number of padding bytes that brings `off` to the alignment `a`. */
  function Pad(off: nat, a: Alignment): (n: nat)
    ensures n < a && Multiple(a, off + n)
    ensures Multiple(a, off) ==> n == 0
  {
    if a == 8 then PadEight(off); (8 - off % 8) % 8
    else if a == 4 then PadFour(off); (4 - off % 4) % 4
    else if a == 2 then off % 2 else 0
  }

  lemma PadEight(off: nat)
    ensures (off + (8 - off % 8) % 8) % 8 == 0 && (off % 8 == 0 ==> (8 - off % 8) % 8 == 0)
  {
    var q := off / 8;
    assert off == 8 * q + off % 8;
    if off % 8 != 0 { assert off + (8 - off % 8) == 8 * (q + 1); }
  }

  lemma PadFour(off: nat)
    ensures (off + (4 - off % 4) % 4) % 4 == 0 && (off % 4 == 0 ==> (4 - off % 4) % 4 == 0)
  {
    var q := off / 4;
    assert off == 4 * q + off % 4;
    if off % 4 != 0 { assert off + (4 - off % 4) == 4 * (q + 1); }
  }

  /** Two offsets that agree modulo `a`. */
  ghost predicate Congruent(a: Alignment, x: int, y: int) {
    Multiple(a, x - y)
  }

  lemma EightIsFour(d: int)
    requires d % 8 == 0
    ensures d % 4 == 0
  {
    assert d == 4 * (2 * (d / 8));
  }

  lemma FourIsTwo(d: int)
    requires d % 4 == 0
    ensures d % 2 == 0
  {
    assert d == 2 * (2 * (d / 4));
  }

  lemma CongruentWeaken(a: Alignment, b: Alignment, x: int, y: int)
    requires b <= a && Congruent(a, x, y)
    ensures Congruent(b, x, y)
  {
    if a == 8 { EightIsFour(x - y); }
    if a >= 4 { FourIsTwo(x - y); }
  }

  lemma AlignedCongruent(a: Alignment, x: int, y: int)
    requires Multiple(a, x) && Multiple(a, y)
    ensures Congruent(a, x, y)
  {
    if a == 8 {
      MultipleDifference(8, x / 8, y / 8);
    } else if a == 4 {
      MultipleDifference(4, x / 4, y / 4);
    } else if a == 2 {
      MultipleDifference(2, x / 2, y / 2);
    }
  }

  lemma CongruentSelf(a: Alignment, x: int)
    ensures Congruent(a, x, x)
  {
  }

  lemma MultipleDifference(a: Alignment, q: int, r: int)
    ensures Multiple(a, a * q - a * r)
  {
    if a == 8 {
      assert (8 * (q - r)) % 8 == 0;
    } else if a == 4 {
      assert (4 * (q - r)) % 4 == 0;
    } else if a == 2 {
      assert (2 * (q - r)) % 2 == 0;
    }
  }

  lemma ModEight(y: int, k: int)
    ensures (y + 8 * k) % 8 == y % 8
  {
  }

  lemma ModFour(y: int, k: int)
    ensures (y + 4 * k) % 4 == y % 4
  {
  }

  lemma ModTwo(y: int, k: int)
    ensures (y + 2 * k) % 2 == y % 2
  {
  }

  lemma CongruentMod(a: Alignment, x: int, y: int)
    requires Congruent(a, x, y)
    ensures x % a == y % a
  {
    if a == 8 {
      ModEight(y, (x - y) / 8);
    } else if a == 4 {
      ModFour(y, (x - y) / 4);
    } else if a == 2 {
      ModTwo(y, (x - y) / 2);
    }
  }

  lemma CongruentShift(a: Alignment, x: int, y: int, n: int)
    requires Congruent(a, x, y)
    ensures Congruent(a, x + n, y + n)
  {
    assert (x + n) - (y + n) == x - y;
  }

  lemma CongruentAligned(a: Alignment, x: int, y: int)
    requires Congruent(a, x, y) && Multiple(a, x)
    ensures Multiple(a, y)
  {
    CongruentMod(a, x, y);
  }

  lemma CongruentPad(a: Alignment, x: nat, y: nat)
    requires Congruent(a, x, y)
    ensures Pad(x, a) == Pad(y, a)
  {
    CongruentMod(a, x, y);
  }

  function Zeros(n: nat): seq<byte> {
    seq(n, _ => 0)
  }

  lemma ZerosLength(n: nat)
    ensures |Zeros(n)| == n
  {
  }

  /** `w` occurs in `data` at offset `off`. */
  ghost predicate At<T>(data: seq<T>, off: nat, w: seq<T>) {
    off + |w| <= |data| && data[off..off + |w|] == w
  }

  lemma AtSplit<T>(data: seq<T>, off: nat, a: seq<T>, b: seq<T>)
    requires At(data, off, a + b)
    ensures At(data, off, a) && At(data, off + |a|, b)
  {
    var s := data[off..off + |a + b|];
    assert s[..|a|] == a && s[|a|..] == b;
    assert data[off..off + |a|] == s[..|a|];
    assert data[off + |a|..off + |a| + |b|] == s[|a|..];
  }

  lemma AtJoin<T>(data: seq<T>, off: nat, a: seq<T>, b: seq<T>)
    requires At(data, off, a) && At(data, off + |a|, b)
    ensures At(data, off, a + b)
  {
    assert data[off..off + |a + b|] == data[off..off + |a|] + data[off + |a|..off + |a| + |b|];
  }

  lemma AtOne<T>(data: seq<T>, off: nat)
    requires off < |data|
    ensures At(data, off, [data[off]])
  {
  }

  lemma AtHead<T>(data: seq<T>, off: nat, w: seq<T>)
    requires At(data, off, w) && |w| > 0
    ensures data[off] == w[0]
  {
    assert data[off..off + |w|][0] == w[0];
  }

  function Pow256(w: nat): (p: nat)
    ensures p > 0
  {
    if w == 0 then 1 else 256 * Pow256(w - 1)
  }

  /** The low `w` octets of `n`, least significant first. */
  function LittleEndian(w: nat, n: nat): (s: seq<byte>)
    ensures |s| == w
  {
    if w == 0 then [] else [n % 256] + LittleEndian(w - 1, n / 256)
  }

  function LittleEndianValue(s: seq<byte>): nat {
    if s == [] then 0 else s[0] + 256 * LittleEndianValue(s[1..])
  }

  function Reverse(s: seq<byte>): (r: seq<byte>)
    ensures |r| == |s|
  {
    seq(|s|, i requires 0 <= i < |s| => s[|s| - 1 - i])
  }

  function PutUint(o: Order, w: nat, n: nat): (s: seq<byte>)
    ensures |s| == w
  {
    if o == Little then LittleEndian(w, n) else Reverse(LittleEndian(w, n))
  }

  function GetUint(o: Order, s: seq<byte>): nat {
    LittleEndianValue(if o == Little then s else Reverse(s))
  }

  lemma {:induction false} LittleEndianRoundTrip(w: nat, n: nat)
    requires n < Pow256(w)
    ensures LittleEndianValue(LittleEndian(w, n)) == n
  {
    if w > 0 {
      LittleEndianRoundTrip(w - 1, n / 256);
      assert LittleEndian(w, n)[1..] == LittleEndian(w - 1, n / 256);
    }
  }

  lemma {:induction false} LittleEndianBound(s: seq<byte>)
    ensures LittleEndianValue(s) < Pow256(|s|)
  {
    if s != [] { LittleEndianBound(s[1..]); }
  }

  /** Reading back a written integer, in either byte order. */
  lemma UintRoundTrip(o: Order, w: nat, n: nat)
    requires n < Pow256(w)
    ensures GetUint(o, PutUint(o, w, n)) == n
  {
    LittleEndianRoundTrip(w, n);
    assert Reverse(Reverse(LittleEndian(w, n))) == LittleEndian(w, n);
  }

  /** One octet is itself in either byte order, and never needs padding. */
  lemma OneOctet(o: Order, n: byte)
    ensures n < Pow256(1) && PutUint(o, 1, n) == [n]
    ensures forall off: nat :: Zeros(Pad(off, 1)) + [n] == [n] && Pad(off, 1) == 0
  {
    assert Pow256(1) == 256 * Pow256(0);
    assert LittleEndian(1, n) == [n % 256] + LittleEndian(0, n / 256);
  }

  lemma UintBound(o: Order, s: seq<byte>)
    ensures GetUint(o, s) < Pow256(|s|)
  {
    LittleEndianBound(if o == Little then s else Reverse(s));
  }
}
