/** Base 128 varints and little-endian fixed-width integers, as the Protocol Buffers
    Encoding specification defines them ("Base 128 Varints", "Non-varint Numbers"). */
module Varint {
  import opened Bytes

  const TWO_TO_32: nat := 0x1_0000_0000
  const TWO_TO_64: nat := 0x1_0000_0000_0000_0000

  /** 128^n: the first number that does not fit in `n` groups of seven bits. */
  function Cap7(n: nat): (c: nat)
    ensures c > 0
  {
    if n == 0 then 1 else 128 * Cap7(n - 1)
  }

  /** 256^n: the first number that does not fit in `n` bytes. */
  function Cap8(n: nat): (c: nat) {
    if n == 0 then 1 else 256 * Cap8(n - 1)
  }

  /** The shortest encoding of `v`: seven bits a byte, least significant group first. */
  function Write(v: nat): (s: bytes)
    ensures |s| > 0
  {
    if v < 128 then [v] else [128 + v % 128] + Write(v / 128)
  }

  /** Reads a varint of at most `max` bytes; overlong encodings are accepted. */
  function Read(s: bytes, max: nat): (r: Read<nat>)
    ensures r.Got? ==> 0 < r.used <= |s| && r.used <= max
  {
    if s == [] || max == 0 then Malformed
    else if s[0] < 128 then Got(s[0], 1)
    else match Read(s[1..], max - 1)
         case Malformed => Malformed
         case Got(v, n) => Got(s[0] - 128 + 128 * v, n + 1)
  }

  /** A tag takes at most five bytes and is kept in an unsigned 32-bit word. */
  function ReadTag(s: bytes): (r: Read<nat>)
    ensures r.Got? ==> 0 < r.used <= |s|
  {
    match Read(s, 5)
    case Malformed => Malformed
    case Got(v, n) => Got(v % TWO_TO_32, n)
  }

  /** A varint field takes at most ten bytes and is kept in an unsigned 64-bit word. */
  function ReadUInt64(s: bytes): (r: Read<nat>)
    ensures r.Got? ==> 0 < r.used <= |s|
  {
    match Read(s, 10)
    case Malformed => Malformed
    case Got(v, n) => Got(v % TWO_TO_64, n)
  }

  /** floor(log2(v)). */
  function Log2(v: nat): (n: nat) {
    if v < 2 then 0 else 1 + Log2(v / 2)
  }

  function Pow2(n: nat): (p: nat) {
    if n == 0 then 1 else 2 * Pow2(n - 1)
  }

  /** How the library sizes a varint: from the position of its highest bit, writing nothing. */
  function Size(v: nat): (n: nat) {
    Log2(v) / 7 + 1
  }

  function WriteFixed(v: nat, n: nat): (s: bytes)
    ensures |s| == n
  {
    if n == 0 then [] else [v % 256] + WriteFixed(v / 256, n - 1)
  }

  function ReadFixed(s: bytes): (v: nat) {
    if s == [] then 0 else s[0] + 256 * ReadFixed(s[1..])
  }

  // ----- Varints -----

  /** What was written is read back when it fits in `max` bytes, and refused when it does not. */
  lemma {:induction false} ReadWrite(v: nat, t: bytes, max: nat)
    ensures Read(Write(v) + t, max) == if max > 0 && v < Cap7(max) then Got(v, |Write(v)|) else Malformed
  {
    if v >= 128 && max > 0 {
      ReadWrite(v / 128, t, max - 1);
      assert v / 128 < Cap7(max - 1) <==> v < Cap7(max);
      assert (Write(v) + t)[1..] == Write(v / 128) + t;
    }
  }

  /** A varint is accepted exactly when one of the first `max` bytes is below 128, and ends there. */
  lemma {:induction false} ReadEnds(s: bytes, max: nat)
    ensures Read(s, max).Got? <==> exists i :: 0 <= i < |s| && i < max && s[i] < 128
    ensures Read(s, max).Got? ==>
              var n := Read(s, max).used;
              s[n - 1] < 128 && forall i :: 0 <= i < n - 1 ==> s[i] >= 128
  {
    if s != [] && max > 0 && s[0] >= 128 {
      ReadEnds(s[1..], max - 1);
      assert forall i :: 1 <= i < |s| ==> s[i] == s[1..][i - 1];
    }
  }

  lemma ReadCons(a: byte, rest: bytes, max: nat)
    requires max > 0
    ensures Read([a] + rest, max)
         == if a < 128 then Got(a, 1)
            else match Read(rest, max - 1)
                 case Malformed => Malformed
                 case Got(v, n) => Got(a - 128 + 128 * v, n + 1)
  {
    assert ([a] + rest)[1..] == rest;
  }

  /** A tag is one to five bytes: seven bits of each, the first lowest, cut to 32 bits. */
  lemma TagIs(a: byte, b: byte, c: byte, d: byte, e: byte, t: bytes)
    ensures ReadTag([a] + ([b] + ([c] + ([d] + ([e] + t)))))
         == if a < 128 then Got(a, 1)
            else if b < 128 then Got(a - 128 + 128 * b, 2)
            else if c < 128 then Got(a - 128 + 128 * (b - 128 + 128 * c), 3)
            else if d < 128 then Got(a - 128 + 128 * (b - 128 + 128 * (c - 128 + 128 * d)), 4)
            else if e < 128 then
              Got((a - 128 + 128 * (b - 128 + 128 * (c - 128 + 128 * (d - 128 + 128 * e)))) % 4294967296, 5)
            else Malformed
  {
    var s4 := [e] + t;
    var s3 := [d] + s4;
    var s2 := [c] + s3;
    var s1 := [b] + s2;
    ReadCons(e, t, 1);
    ReadCons(d, s4, 2);
    ReadCons(c, s3, 3);
    ReadCons(b, s2, 4);
    ReadCons(a, s1, 5);
  }

  /** A varint field takes at most ten bytes and is cut to 64 bits. */
  lemma UInt64Is(s: bytes)
    ensures ReadUInt64(s).Got? <==> exists i :: 0 <= i < |s| && i < 10 && s[i] < 128
    ensures ReadUInt64(s).Got? ==> ReadUInt64(s).value == Read(s, 10).value % 18446744073709551616
  {
    ReadEnds(s, 10);
  }

  /** Below 128 a number is its own varint; below 16384 it takes two bytes. */
  lemma ShortForms(v: nat)
    ensures v < 128 ==> Write(v) == [v]
    ensures 128 <= v < 16384 ==> Write(v) == [128 + v % 128, v / 128]
  {
  }

  lemma {:induction false} WriteMonotone(a: nat, b: nat)
    requires a <= b
    ensures |Write(a)| <= |Write(b)|
  {
    if a >= 128 {
      WriteMonotone(a / 128, b / 128);
    }
  }

  /** No accepted encoding of a number is shorter than the one `Write` picks. */
  lemma {:induction false} WriteIsShortest(s: bytes, max: nat)
    requires Read(s, max).Got?
    ensures |Write(Read(s, max).value)| <= Read(s, max).used
  {
    if s[0] >= 128 {
      WriteIsShortest(s[1..], max - 1);
      var v := Read(s[1..], max - 1).value;
      WriteMonotone(v, v);
      if s[0] - 128 + 128 * v >= 128 {
        assert (s[0] - 128 + 128 * v) / 128 == v;
      }
    }
  }

  lemma {:induction false} ReadStable(s: bytes, t: bytes, max: nat)
    requires Read(s, max).Got?
    ensures Read(s + t, max) == Read(s, max)
  {
    if s[0] >= 128 {
      ReadStable(s[1..], t, max - 1);
      assert (s + t)[1..] == s[1..] + t;
    }
  }

  /** Dropping seven bits moves the highest one seven places. */
  lemma Log2Shift(v: nat)
    requires v >= 128
    ensures Log2(v) == 7 + Log2(v / 128)
  {
    var v1 := v / 2;
    var v2 := v1 / 2;
    var v3 := v2 / 2;
    var v4 := v3 / 2;
    var v5 := v4 / 2;
    assert Log2(v) == 1 + Log2(v1) == 2 + Log2(v2) == 3 + Log2(v3) == 4 + Log2(v4);
    assert Log2(v4) == 1 + Log2(v5) == 2 + Log2(v5 / 2) == 3 + Log2(v5 / 2 / 2);
    assert v5 / 2 / 2 == v / 128;
  }

  lemma {:induction false} Log2Below(v: nat, n: nat)
    requires 0 < n && v < Pow2(n)
    ensures Log2(v) < n
  {
    if v >= 2 {
      Log2Below(v / 2, n - 1);
    }
  }

  /** The size computed from the highest bit is the length of what is written,
      whatever the number: the steps fall exactly on the powers of 128. */
  lemma {:induction false} SizeAgrees(v: nat)
    ensures |Write(v)| == Size(v)
  {
    if v < 128 {
      assert Pow2(7) == 4 * Pow2(5) == 16 * Pow2(3) == 128;
      Log2Below(v, 7);
    } else {
      SizeAgrees(v / 128);
      Log2Shift(v);
    }
  }

  lemma TagCap()
    ensures Cap7(5) > TWO_TO_32
  {
    assert Cap7(3) == 128 * 128 * 128;
  }

  lemma UInt64Cap()
    ensures Cap7(10) > TWO_TO_64
  {
    assert Cap7(3) == 128 * 128 * 128;
    assert Cap7(6) == 128 * 128 * 128 * Cap7(3);
    assert Cap7(9) == 128 * 128 * 128 * Cap7(6);
  }

  lemma ReadWriteTag(v: nat, t: bytes)
    requires v < TWO_TO_32
    ensures ReadTag(Write(v) + t) == Got(v, |Write(v)|)
  {
    TagCap();
    ReadWrite(v, t, 5);
  }

  lemma ReadWriteUInt64(v: nat, t: bytes)
    requires v < TWO_TO_64
    ensures ReadUInt64(Write(v) + t) == Got(v, |Write(v)|)
  {
    UInt64Cap();
    ReadWrite(v, t, 10);
  }

  lemma TagIsShortest(s: bytes)
    requires ReadTag(s).Got?
    ensures |Write(ReadTag(s).value)| <= ReadTag(s).used
  {
    WriteIsShortest(s, 5);
    WriteMonotone(ReadTag(s).value, Read(s, 5).value);
  }

  lemma UInt64IsShortest(s: bytes)
    requires ReadUInt64(s).Got?
    ensures |Write(ReadUInt64(s).value)| <= ReadUInt64(s).used
  {
    WriteIsShortest(s, 10);
    WriteMonotone(ReadUInt64(s).value, Read(s, 10).value);
  }

  // ----- Fixed-width integers -----

  lemma {:induction false} ReadWriteFixed(v: nat, n: nat)
    requires v < Cap8(n)
    ensures ReadFixed(WriteFixed(v, n)) == v
  {
    if n > 0 {
      ReadWriteFixed(v / 256, n - 1);
      assert WriteFixed(v, n)[1..] == WriteFixed(v / 256, n - 1);
    }
  }

  lemma WriteFixedCons(b: byte, rest: nat, n: nat)
    ensures WriteFixed(b + 256 * rest, n + 1) == [b] + WriteFixed(rest, n)
  {
    assert (b + 256 * rest) % 256 == b && (b + 256 * rest) / 256 == rest;
  }

  lemma WriteTwo(b0: byte, b1: byte, high: nat, n: nat)
    ensures WriteFixed(b0 + 256 * (b1 + 256 * high), n + 2) == [b0, b1] + WriteFixed(high, n)
  {
    var v := b1 + 256 * high;
    assert WriteFixed(v, n + 1) == [b1] + WriteFixed(high, n) by {
      WriteFixedCons(b1, high, n);
    }
    WriteFixedCons(b0, v, n + 1);
  }

  /** The lowest byte comes first. */
  lemma WriteFour(b0: byte, b1: byte, b2: byte, b3: byte, high: nat, n: nat)
    ensures WriteFixed(b0 + 256 * (b1 + 256 * (b2 + 256 * (b3 + 256 * high))), n + 4)
         == [b0, b1] + ([b2, b3] + WriteFixed(high, n))
  {
    var v := b2 + 256 * (b3 + 256 * high);
    assert WriteFixed(v, n + 2) == [b2, b3] + WriteFixed(high, n) by {
      WriteTwo(b2, b3, high, n);
    }
    WriteTwo(b0, b1, v, n + 2);
  }

  lemma {:induction false} ReadFixedBound(s: bytes)
    ensures ReadFixed(s) < Cap8(|s|)
  {
    if s != [] {
      ReadFixedBound(s[1..]);
    }
  }

  lemma FixedCaps()
    ensures Cap8(4) == TWO_TO_32
    ensures Cap8(8) == TWO_TO_64
  {
    assert Cap8(2) == 256 * 256;
    assert Cap8(4) == 256 * 256 * Cap8(2);
    assert Cap8(6) == 256 * 256 * Cap8(4);
  }
}
