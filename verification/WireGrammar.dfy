/** The wire format as a grammar, without a parser: which bytes spell a field. A field has many
    spellings, since varints may be overlong and are cut to the width of what they encode. The parser
    of `WireFormat` accepts exactly the spellings, and no bytes spell two different sequences. */
module WireGrammar {
  import opened Bytes
  import opened WireFormat
  import Varint

  /** Groups of seven bits, every byte but the last marked to be continued. */
  ghost predicate IsVarint(s: bytes, max: nat) {
    && 0 < |s| <= max
    && s[|s| - 1] < 128
    && forall i :: 0 <= i < |s| - 1 ==> s[i] >= 128
  }

  function Value(s: bytes): (v: nat) {
    if s == [] then 0 else s[0] % 128 + 128 * Value(s[1..])
  }

  ghost predicate SpellsTag(s: bytes, tag: nat) {
    IsVarint(s, 5) && Value(s) % 0x1_0000_0000 == tag
  }

  ghost predicate Spells(f: Field, s: bytes, max: MaxLength, depth: nat)
    decreases f, 3
  {
    f.num > 0 && exists k: nat :: TagThenPayload(f, s, k, max, depth)
  }

  ghost predicate TagThenPayload(f: Field, s: bytes, k: nat, max: MaxLength, depth: nat)
    decreases f, 2
  {
    k <= |s| && SpellsTag(s[..k], Tag(f)) && SpellsPayload(f, s[k..], max, depth)
  }

  ghost predicate SpellsPayload(f: Field, s: bytes, max: MaxLength, depth: nat)
    decreases f, 1
  {
    match f
    case VarintField(_, v) => IsVarint(s, 10) && Value(s) % 0x1_0000_0000_0000_0000 == v
    case Fixed64(_, v) => |s| == 8 && Varint.ReadFixed(s) == v
    case Delimited(_, d) => |d| <= max && exists k: nat :: LengthThenData(d, s, k)
    case Group(n, fs) => depth > 0 && exists k: nat :: FieldsThenTag(n, fs, s, k, max, depth)
    case Fixed32(_, v) => |s| == 4 && Varint.ReadFixed(s) == v
  }

  ghost predicate LengthThenData(d: bytes, s: bytes, k: nat) {
    k <= |s| && IsVarint(s[..k], 5) && Value(s[..k]) == |d| && s[k..] == d
  }

  ghost predicate FieldsThenTag(num: nat, fs: seq<Field>, s: bytes, k: nat, max: MaxLength, depth: nat)
    requires depth > 0
    decreases fs, 2
  {
    k <= |s| && SpellsAll(fs, s[..k], max, depth - 1) && SpellsTag(s[k..], EndTag(num))
  }

  ghost predicate SpellsAll(fs: seq<Field>, s: bytes, max: MaxLength, depth: nat)
    decreases fs, 1
  {
    if fs == [] then s == [] else exists k: nat :: FirstThenRest(fs, s, k, max, depth)
  }

  ghost predicate FirstThenRest(fs: seq<Field>, s: bytes, k: nat, max: MaxLength, depth: nat)
    requires fs != []
    decreases fs, 0
  {
    k <= |s| && Spells(fs[0], s[..k], max, depth) && SpellsAll(fs[1..], s[k..], max, depth)
  }

  // ----- Varints -----

  lemma {:induction false} VarintRead(s: bytes, max: nat)
    requires IsVarint(s, max)
    ensures Varint.Read(s, max) == Got(Value(s), |s|)
  {
    if |s| > 1 {
      VarintRead(s[1..], max - 1);
    } else {
      assert Value(s[1..]) == 0;
    }
  }

  lemma {:induction false} ReadIsVarint(s: bytes, max: nat)
    requires Varint.Read(s, max).Got?
    ensures var r := Varint.Read(s, max); IsVarint(s[..r.used], max) && Value(s[..r.used]) == r.value
  {
    var n := Varint.Read(s, max).used;
    assert s[..n][1..] == s[1..][..n - 1];
    if s[0] >= 128 {
      ReadIsVarint(s[1..], max - 1);
      assert forall i :: 1 <= i < n ==> s[i] == s[1..][..n - 1][i - 1];
    } else {
      assert Value(s[..1][1..]) == 0;
    }
  }

  // ----- Spellings are accepted -----

  lemma DelimitedAccepted(num: nat, d: bytes, s: bytes, k: nat, max: MaxLength)
    requires |d| <= max && LengthThenData(d, s, k)
    ensures ReadString(s, max) == Got(d, |s|)
  {
    VarintRead(s[..k], 5);
    Varint.ReadStable(s[..k], s[k..], 5);
    assert s[..k] + s[k..] == s;
    assert s[k..k + |d|] == d;
  }

  lemma TagAccepted(s: bytes, k: nat, tag: nat)
    requires k <= |s| && SpellsTag(s[..k], tag)
    ensures Varint.ReadTag(s) == Got(tag, k)
  {
    VarintRead(s[..k], 5);
    Varint.ReadStable(s[..k], s[k..], 5);
    assert s[..k] + s[k..] == s;
  }

  lemma {:induction false} PayloadAccepted(f: Field, s: bytes, max: MaxLength, depth: nat)
    requires f.num > 0 && SpellsPayload(f, s, max, depth)
    ensures ParseField(Tag(f), s, max, depth) == Got(f, |s|)
    decreases f, 1
  {
    assert Tag(f) / 8 == f.num && Tag(f) % 8 == Tag(f) - 8 * f.num;
    match f
    case VarintField(_, _) => VarintRead(s, 10);
    case Delimited(n, d) =>
      var k: nat :| LengthThenData(d, s, k);
      DelimitedAccepted(n, d, s, k, max);
    case Group(n, fs) =>
      var k: nat :| FieldsThenTag(n, fs, s, k, max, depth);
      AllAccepted(fs, s[..k], max, depth - 1);
      assert s[..k] + s[k..] == s;
      GroupAccepted(n, fs, s[..k], s[k..], max, depth - 1);
      GroupCloses(n, fs, s, |s|, max, depth);
    case _ =>
      assert s[..|s|] == s;
  }

  lemma EndAccepted(tag: nat, s: bytes, used: nat, max: MaxLength, depth: nat)
    requires used <= |s| && EndsFields(tag) && SpellsTag(s[..used], tag)
    ensures ParseFields(s, max, depth) == Scanned([], Stopped(tag), used)
  {
    TagAccepted(s, used, tag);
    assert ParseItem(s, max, depth) == Last(Stopped(tag), used);
  }

  lemma StoppedAccepted(fs: seq<Field>, tag: nat, body: bytes, e: bytes, n: nat, max: MaxLength, depth: nat)
    requires ParseFields(body, max, depth) == Scanned(fs, AtLimit, |body|)
    requires n <= |e| && EndsFields(tag) && SpellsTag(e[..n], tag)
    ensures ParseFields(body + e, max, depth) == Scanned(fs, Stopped(tag), |body| + n)
  {
    EndAccepted(tag, e, n, max, depth);
    ParseFieldsConcat(body, e, max, depth);
    assert fs + [] == fs;
  }

  lemma GroupAccepted(num: nat, fs: seq<Field>, body: bytes, e: bytes, max: MaxLength, depth: nat)
    requires ParseFields(body, max, depth) == Scanned(fs, AtLimit, |body|) && SpellsTag(e, EndTag(num))
    ensures ParseFields(body + e, max, depth) == Scanned(fs, Stopped(EndTag(num)), |body + e|)
  {
    assert e[..|e|] == e;
    StoppedAccepted(fs, EndTag(num), body, e, |e|, max, depth);
  }

  lemma FieldAccepted(f: Field, s: bytes, k: nat, max: MaxLength, depth: nat)
    requires f.num > 0 && k <= |s| && SpellsTag(s[..k], Tag(f))
    requires ParseField(Tag(f), s[k..], max, depth) == Got(f, |s| - k)
    ensures ParseItem(s, max, depth) == Next(f, |s|)
  {
    TagAccepted(s, k, Tag(f));
  }

  lemma ConsAccepted(f: Field, fs: seq<Field>, s: bytes, k: nat, max: MaxLength, depth: nat)
    requires 0 < k <= |s| && ParseItem(s[..k], max, depth) == Next(f, k)
    requires ParseFields(s[k..], max, depth) == Scanned(fs, AtLimit, |s| - k)
    ensures ParseFields(s, max, depth) == Scanned([f] + fs, AtLimit, |s|)
  {
    ItemStable(s[..k], s[k..], max, depth);
    ParseFieldsCons(f, s[..k], s[k..], max, depth);
    assert s[..k] + s[k..] == s;
  }

  lemma {:induction false} OneAccepted(f: Field, s: bytes, max: MaxLength, depth: nat)
    requires Spells(f, s, max, depth)
    ensures ParseItem(s, max, depth) == Next(f, |s|)
    decreases f, 2
  {
    var k: nat :| TagThenPayload(f, s, k, max, depth);
    PayloadAccepted(f, s[k..], max, depth);
    FieldAccepted(f, s, k, max, depth);
  }

  lemma {:induction false} AllAccepted(fs: seq<Field>, s: bytes, max: MaxLength, depth: nat)
    requires SpellsAll(fs, s, max, depth)
    ensures ParseFields(s, max, depth) == Scanned(fs, AtLimit, |s|)
    decreases fs, 2
  {
    if fs != [] {
      var k: nat :| FirstThenRest(fs, s, k, max, depth);
      OneAccepted(fs[0], s[..k], max, depth);
      AllAccepted(fs[1..], s[k..], max, depth);
      ConsAccepted(fs[0], fs[1..], s, k, max, depth);
      assert [fs[0]] + fs[1..] == fs;
    }
  }

  // ----- What is accepted is a spelling -----

  lemma SliceOfSlice(s: bytes, n: nat, a: nat, b: nat)
    requires a <= b && n + b <= |s|
    ensures s[n..][a..b] == s[n + a..n + b]
  {
  }

  lemma ConsSpelled(f: Field, fs: seq<Field>, s: bytes, n: nat, j: nat, max: MaxLength, depth: nat)
    requires n + j <= |s| && Spells(f, s[..n], max, depth) && SpellsAll(fs, s[n..][..j], max, depth)
    ensures SpellsAll([f] + fs, s[..n + j], max, depth)
  {
    var t, gs := s[..n + j], [f] + fs;
    assert gs[0] == f && gs[1..] == fs;
    SliceOfSlice(s, n, 0, j);
    assert t[..n] == s[..n] && t[n..] == s[n..n + j];
    assert FirstThenRest(gs, t, n, max, depth);
  }

  lemma TagSpelled(s: bytes)
    requires Varint.ReadTag(s).Got?
    ensures SpellsTag(s[..Varint.ReadTag(s).used], Varint.ReadTag(s).value)
  {
    ReadIsVarint(s, 5);
  }

  lemma DelimitedSpelled(s: bytes, max: MaxLength)
    requires ReadString(s, max).Got?
    ensures var r := ReadString(s, max); LengthThenData(r.value, s[..r.used], Varint.Read(s, 5).used)
  {
    ReadIsVarint(s, 5);
    var k, n := Varint.Read(s, 5).used, ReadString(s, max).used;
    assert s[..n][..k] == s[..k] && s[..n][k..] == s[k..n];
  }

  lemma GroupSpelled(num: nat, fs: seq<Field>, s: bytes, n: nat, k: nat, max: MaxLength, depth: nat)
    requires depth > 0 && k <= n <= |s| && SpellsAll(fs, s[..k], max, depth - 1) && SpellsTag(s[k..n], EndTag(num))
    ensures FieldsThenTag(num, fs, s[..n], k, max, depth)
  {
    assert s[..n][..k] == s[..k] && s[..n][k..] == s[k..n];
  }

  /** What stops fields that take up the first `k` of `used` bytes. */
  ghost predicate SpellsEnd(end: End, s: bytes, k: nat, used: nat) {
    && k <= used <= |s|
    && match end
       case AtLimit => k == |s|
       case Stopped(tag) => (tag == 0 || tag % 8 == 4) && SpellsTag(s[k..used], tag)
  }

  lemma {:induction false} PayloadSpelled(tag: nat, s: bytes, max: MaxLength, depth: nat)
    requires tag < Varint.TWO_TO_32 && ParseField(tag, s, max, depth).Got?
    ensures var r := ParseField(tag, s, max, depth);
            r.value.num > 0 && Tag(r.value) == tag && SpellsPayload(r.value, s[..r.used], max, depth)
    decreases |s|, 6
  {
    ParseFieldOk(tag, s, max, depth);
    var n := ParseField(tag, s, max, depth).used;
    match tag % 8
    case 0 => ReadIsVarint(s, 10);
    case 2 => DelimitedSpelled(s, max);
    case 3 =>
      var k := FieldsSpelled(s, max, depth - 1);
      GroupSpelled(tag / 8, ParseFields(s, max, depth - 1).fields, s, n, k, max, depth);
    case _ =>
  }

  lemma ItemSpelled(s: bytes, max: MaxLength, depth: nat)
    requires ParseItem(s, max, depth).Next?
    requires var tag, n := Varint.ReadTag(s).value, Varint.ReadTag(s).used;
             var r := ParseField(tag, s[n..], max, depth);
             r.Got? && r.value.num > 0 && Tag(r.value) == tag && SpellsPayload(r.value, s[n..][..r.used], max, depth)
    ensures var item := ParseItem(s, max, depth); Spells(item.field, s[..item.length], max, depth)
  {
    TagSpelled(s);
    var n, item := Varint.ReadTag(s).used, ParseItem(s, max, depth);
    assert s[..item.length][..n] == s[..n];
    SliceOfSlice(s, n, 0, item.length - n);
    assert s[..item.length][n..] == s[n..item.length];
    assert TagThenPayload(item.field, s[..item.length], n, max, depth);
  }

  lemma {:induction false} OneSpelled(s: bytes, max: MaxLength, depth: nat)
    requires ParseItem(s, max, depth).Next?
    ensures var item := ParseItem(s, max, depth); Spells(item.field, s[..item.length], max, depth)
    decreases |s|, 4
  {
    var tag := Varint.ReadTag(s);
    PayloadSpelled(tag.value, s[tag.used..], max, depth);
    ItemSpelled(s, max, depth);
  }

  lemma LastSpelled(s: bytes, max: MaxLength, depth: nat)
    requires ParseItem(s, max, depth).Last?
    ensures var item := ParseItem(s, max, depth); SpellsEnd(item.end, s, 0, item.length)
  {
    if s != [] {
      TagSpelled(s);
    }
  }

  lemma EndSpelledLater(end: End, s: bytes, n: nat, k: nat, used: nat)
    requires n <= |s| && SpellsEnd(end, s[n..], k, used)
    ensures SpellsEnd(end, s, n + k, n + used)
  {
    SliceOfSlice(s, n, k, used);
  }

  /** The fields of a scan take up the first `k` bytes, and the tag that stopped them the rest. */
  ghost predicate Spelled(r: Scan, s: bytes, k: nat, max: MaxLength, depth: nat) {
    r.Scanned? && SpellsEnd(r.end, s, k, r.used) && SpellsAll(r.fields, s[..k], max, depth)
  }

  lemma PrependSpelled(f: Field, r: Scan, s: bytes, n: nat, k: nat, max: MaxLength, depth: nat)
    requires n <= |s| && Spells(f, s[..n], max, depth) && Spelled(r, s[n..], k, max, depth)
    ensures Spelled(Prepend([f], n, r), s, n + k, max, depth)
  {
    ConsSpelled(f, r.fields, s, n, k, max, depth);
    EndSpelledLater(r.end, s, n, k, r.used);
  }

  lemma LastFieldsSpelled(s: bytes, max: MaxLength, depth: nat)
    requires ParseItem(s, max, depth).Last?
    ensures Spelled(ParseFields(s, max, depth), s, 0, max, depth)
  {
    LastSpelled(s, max, depth);
  }

  lemma NextFieldsSpelled(s: bytes, n: nat, k: nat, max: MaxLength, depth: nat)
    requires n <= |s| && ParseItem(s, max, depth).Next? && ParseItem(s, max, depth).length == n
    requires Spells(ParseItem(s, max, depth).field, s[..n], max, depth)
    requires Spelled(ParseFields(s[n..], max, depth), s[n..], k, max, depth)
    ensures Spelled(ParseFields(s, max, depth), s, n + k, max, depth)
  {
    PrependSpelled(ParseItem(s, max, depth).field, ParseFields(s[n..], max, depth), s, n, k, max, depth);
  }

  lemma {:induction false} FieldsSpelled(s: bytes, max: MaxLength, depth: nat) returns (k: nat)
    requires ParseFields(s, max, depth).Scanned?
    ensures Spelled(ParseFields(s, max, depth), s, k, max, depth)
    decreases |s|, 5
  {
    var item := ParseItem(s, max, depth);
    if item.Last? {
      LastFieldsSpelled(s, max, depth);
      k := 0;
    } else {
      OneSpelled(s, max, depth);
      k := FieldsSpelled(s[item.length..], max, depth);
      NextFieldsSpelled(s, item.length, k, max, depth);
      k := item.length + k;
    }
  }

  /** `r` is a reading of the input by the grammar: fields, and what stops them where they end. */
  ghost predicate IsReading(r: Scan, s: bytes, max: MaxLength, depth: nat) {
    exists k: nat :: Spelled(r, s, k, max, depth)
  }

  lemma ReadingAccepted(r: Scan, s: bytes, k: nat, max: MaxLength, depth: nat)
    requires Spelled(r, s, k, max, depth)
    ensures ParseFields(s, max, depth) == r
  {
    AllAccepted(r.fields, s[..k], max, depth);
    match r.end
    case AtLimit =>
      assert s[..k] == s;
    case Stopped(tag) =>
      SliceOfSlice(s, k, 0, r.used - k);
      assert s[..k] + s[k..] == s;
      StoppedAccepted(r.fields, tag, s[..k], s[k..], r.used - k, max, depth);
  }

  /** The parser accepts an input as these fields, this end and this many bytes exactly when that is a
      reading of it by the grammar, and fails exactly when it has none. Input taken to its end spells the
      fields alone. */
  lemma AcceptsExactlySpellings(r: Scan, s: bytes, max: MaxLength, depth: nat)
    ensures r.Scanned? ==> (ParseFields(s, max, depth) == r <==> IsReading(r, s, max, depth))
    ensures ParseFields(s, max, depth) == Bad <==> forall q :: !IsReading(q, s, max, depth)
    ensures r.Scanned? && r.end == AtLimit ==>
              (IsReading(r, s, max, depth) <==> r.used == |s| && SpellsAll(r.fields, s, max, depth))
  {
    assert s[..|s|] == s;
    forall q: Scan, k: nat | Spelled(q, s, k, max, depth)
      ensures ParseFields(s, max, depth) == q
    {
      ReadingAccepted(q, s, k, max, depth);
    }
    if ParseFields(s, max, depth).Scanned? {
      var k := FieldsSpelled(s, max, depth);
      assert IsReading(ParseFields(s, max, depth), s, max, depth);
    }
    if r.Scanned? && r.end == AtLimit && r.used == |s| && SpellsAll(r.fields, s, max, depth) {
      assert Spelled(r, s, |s|, max, depth);
    }
  }

  /** No input has two readings. */
  lemma Unambiguous(q: Scan, r: Scan, s: bytes, max: MaxLength, depth: nat)
    requires IsReading(q, s, max, depth) && IsReading(r, s, max, depth)
    ensures q == r
  {
    AcceptsExactlySpellings(q, s, max, depth);
    AcceptsExactlySpellings(r, s, max, depth);
  }
}
