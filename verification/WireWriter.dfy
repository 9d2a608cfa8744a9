/** Writing fields into a buffer in place, as the library does: tag, length and payload one after the
    other, byte by byte, without building the bytes first. */
module WireWriter {
  import opened Bytes
  import opened WireFormat
  import Varint

  /** The buffer after the bytes of `s` are written at `at`, one after the other. */
  ghost function Splice(buffer: bytes, at: nat, s: bytes): (b: bytes)
    requires at + |s| <= |buffer|
    ensures |b| == |buffer|
  {
    if s == [] then buffer else Splice(buffer, at, s[..|s| - 1])[at + |s| - 1 := s[|s| - 1]]
  }

  lemma {:induction false} SpliceIs(buffer: bytes, at: nat, s: bytes)
    requires at + |s| <= |buffer|
    ensures Splice(buffer, at, s) == buffer[..at] + s + buffer[at + |s|..]
  {
    if s != [] {
      SpliceIs(buffer, at, s[..|s| - 1]);
    }
  }

  lemma SpliceByte(buffer: bytes, at: nat, s: bytes, b: byte)
    requires at + |s| < |buffer|
    ensures Splice(buffer, at, s)[at + |s| := b] == Splice(buffer, at, s + [b])
  {
    assert (s + [b])[..|s|] == s;
  }

  lemma {:induction false} SpliceTwice(buffer: bytes, at: nat, s: bytes, t: bytes)
    requires at + |s| + |t| <= |buffer|
    ensures Splice(Splice(buffer, at, s), at + |s|, t) == Splice(buffer, at, s + t)
  {
    if t == [] {
      assert s + t == s;
    } else {
      var front, last := t[..|t| - 1], t[|t| - 1];
      SpliceTwice(buffer, at, s, front);
      SpliceByte(buffer, at, s + front, last);
      assert s + front + [last] == s + t;
    }
  }

  lemma SpliceThrice(buffer: bytes, at: nat, s: bytes, t: bytes, u: bytes)
    requires at + |s| + |t| + |u| <= |buffer|
    ensures Splice(Splice(Splice(buffer, at, s), at + |s|, t), at + |s| + |t|, u) == Splice(buffer, at, s + (t + u))
  {
    SpliceTwice(Splice(buffer, at, s), at + |s|, t, u);
    SpliceTwice(buffer, at, s, t + u);
  }

  method WriteByte(b: byte, target: nat, stream: array<byte>) returns (next: nat)
    requires target < stream.Length
    modifies stream
    ensures next == target + 1
    ensures stream[..] == old(stream[..])[target := b]
  {
    stream[target] := b;
    next := target + 1;
  }

  lemma NextGroup(written: bytes, rest: nat)
    requires rest >= 128
    ensures written + [128 + rest % 128] + Varint.Write(rest / 128) == written + Varint.Write(rest)
  {
  }

  /** Seven bits at a time, while more are left. */
  method WriteVarint(v: nat, target: nat, stream: array<byte>) returns (next: nat)
    requires target + |Varint.Write(v)| <= stream.Length
    modifies stream
    ensures next == target + |Varint.Write(v)|
    ensures stream[..] == Splice(old(stream[..]), target, Varint.Write(v))
  {
    var rest := v;
    next := target;
    ghost var written: bytes := [];
    while rest >= 128
      invariant written + Varint.Write(rest) == Varint.Write(v)
      invariant next == target + |written|
      invariant stream[..] == Splice(old(stream[..]), target, written)
    {
      var b := 128 + rest % 128;
      SpliceByte(old(stream[..]), target, written, b);
      NextGroup(written, rest);
      next := WriteByte(b, next, stream);
      written, rest := written + [b], rest / 128;
    }
    SpliceByte(old(stream[..]), target, written, rest);
    next := WriteByte(rest, next, stream);
  }

  lemma NextByte(written: bytes, rest: nat, n: nat)
    requires n > 0
    ensures written + [rest % 256] + Varint.WriteFixed(rest / 256, n - 1) == written + Varint.WriteFixed(rest, n)
  {
  }

  method WriteFixed(v: nat, n: nat, target: nat, stream: array<byte>) returns (next: nat)
    requires target + n <= stream.Length
    modifies stream
    ensures next == target + n
    ensures stream[..] == Splice(old(stream[..]), target, Varint.WriteFixed(v, n))
  {
    var rest := v;
    next := target;
    ghost var written: bytes := [];
    for i := 0 to n
      invariant next == target + i && i == |written|
      invariant written + Varint.WriteFixed(rest, n - i) == Varint.WriteFixed(v, n)
      invariant stream[..] == Splice(old(stream[..]), target, written)
    {
      var b := rest % 256;
      SpliceByte(old(stream[..]), target, written, b);
      NextByte(written, rest, n - i);
      next := WriteByte(b, next, stream);
      written, rest := written + [b], rest / 256;
    }
    assert written + [] == written;
  }

  method WriteBytes(s: bytes, target: nat, stream: array<byte>) returns (next: nat)
    requires target + |s| <= stream.Length
    modifies stream
    ensures next == target + |s|
    ensures stream[..] == Splice(old(stream[..]), target, s)
  {
    next := target;
    for i := 0 to |s|
      invariant next == target + i
      invariant stream[..] == Splice(old(stream[..]), target, s[..i])
    {
      SpliceByte(old(stream[..]), target, s[..i], s[i]);
      assert s[..i] + [s[i]] == s[..i + 1];
      next := WriteByte(s[i], next, stream);
    }
    assert s[..|s|] == s;
  }

  /** `WriteString`: tag, length, bytes. */
  method WriteString(num: nat, value: bytes, target: nat, stream: array<byte>) returns (next: nat)
    requires target + |Emit(Delimited(num, value))| <= stream.Length
    modifies stream
    ensures next == target + |Emit(Delimited(num, value))|
    ensures stream[..] == Splice(old(stream[..]), target, Emit(Delimited(num, value)))
  {
    SpliceThrice(old(stream[..]), target, Varint.Write(8 * num + 2), Varint.Write(|value|), value);
    next := WriteVarint(8 * num + 2, target, stream);
    next := WriteVarint(|value|, next, stream);
    next := WriteBytes(value, next, stream);
  }

  /** One unknown field; a group writes its fields between its two tags. */
  method WriteField(f: Field, target: nat, stream: array<byte>) returns (next: nat)
    requires target + |Emit(f)| <= stream.Length
    modifies stream
    ensures next == target + |Emit(f)|
    ensures stream[..] == Splice(old(stream[..]), target, Emit(f))
    decreases f, 1
  {
    if f.Delimited? {
      next := WriteString(f.num, f.data, target, stream);
      return;
    }
    SpliceTwice(old(stream[..]), target, Varint.Write(Tag(f)), EmitPayload(f));
    next := WriteVarint(Tag(f), target, stream);
    ghost var after := stream[..];
    match f
    case VarintField(_, v) =>
      next := WriteVarint(v, next, stream);
    case Fixed64(_, v) =>
      next := WriteFixed(v, 8, next, stream);
    case Group(n, fs) =>
      SpliceTwice(after, next, EmitAll(fs), Varint.Write(EndTag(n)));
      next := WriteFields(fs, next, stream);
      next := WriteVarint(EndTag(n), next, stream);
    case Fixed32(_, v) =>
      next := WriteFixed(v, 4, next, stream);
  }

  lemma NextField(fs: seq<Field>, i: nat)
    requires i < |fs|
    ensures EmitAll(fs[..i + 1]) == EmitAll(fs[..i]) + Emit(fs[i])
    ensures |EmitAll(fs[..i])| + |Emit(fs[i])| <= |EmitAll(fs)|
  {
    assert fs[..i + 1] == fs[..i] + [fs[i]];
    EmitAllConcat(fs[..i], [fs[i]]);
    assert fs == fs[..i + 1] + fs[i + 1..];
    EmitAllConcat(fs[..i + 1], fs[i + 1..]);
  }

  /** The unknown fields in their order. */
  method WriteFields(fs: seq<Field>, target: nat, stream: array<byte>) returns (next: nat)
    requires target + |EmitAll(fs)| <= stream.Length
    modifies stream
    ensures next == target + |EmitAll(fs)|
    ensures stream[..] == Splice(old(stream[..]), target, EmitAll(fs))
    decreases fs, 0
  {
    next := target;
    for i := 0 to |fs|
      invariant next == target + |EmitAll(fs[..i])| <= stream.Length
      invariant stream[..] == Splice(old(stream[..]), target, EmitAll(fs[..i]))
    {
      NextField(fs, i);
      SpliceTwice(old(stream[..]), target, EmitAll(fs[..i]), Emit(fs[i]));
      next := WriteField(fs[i], next, stream);
    }
    assert fs[..|fs|] == fs;
  }
}
