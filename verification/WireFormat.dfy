/** Fields on the wire ("Message Structure", "Length-Delimited Records" and "Groups" of the
    Protocol Buffers Encoding specification): what an unknown field set stores, how the
    library writes it, how it sizes it, and how it parses it. */
module WireFormat {
  import opened Bytes
  import Varint

  datatype Field =
    | VarintField(num: nat, value: nat)
    | Fixed64(num: nat, value: nat)
    | Delimited(num: nat, data: bytes)
    | Group(num: nat, fields: seq<Field>)
    | Fixed32(num: nat, value: nat)

  /** The longest string the parser accepts; sizes stay below 2^31. */
  type MaxLength = n: nat | n < 0x8000_0000

  function Tag(f: Field): (t: nat) {
    8 * f.num + match f
                case VarintField(_, _) => 0
                case Fixed64(_, _) => 1
                case Delimited(_, _) => 2
                case Group(_, _) => 3
                case Fixed32(_, _) => 5
  }

  function EndTag(num: nat): (t: nat) {
    8 * num + 4
  }

  // ----- Writing -----

  function Emit(f: Field): (s: bytes)
    decreases f, 1
  {
    Varint.Write(Tag(f)) + EmitPayload(f)
  }

  function EmitPayload(f: Field): (s: bytes)
    decreases f, 0
  {
    match f
    case VarintField(_, v) => Varint.Write(v)
    case Fixed64(_, v) => Varint.WriteFixed(v, 8)
    case Delimited(_, d) => Varint.Write(|d|) + d
    case Group(n, fs) => EmitAll(fs) + Varint.Write(EndTag(n))
    case Fixed32(_, v) => Varint.WriteFixed(v, 4)
  }

  function EmitAll(fs: seq<Field>): (s: bytes)
    decreases fs, 0
  {
    if fs == [] then [] else Emit(fs[0]) + EmitAll(fs[1..])
  }

  lemma {:induction false} EmitAllConcat(fs: seq<Field>, gs: seq<Field>)
    ensures EmitAll(fs + gs) == EmitAll(fs) + EmitAll(gs)
    decreases |fs|
  {
    if fs == [] {
      assert fs + gs == gs;
    } else {
      assert (fs + gs)[0] == fs[0] && (fs + gs)[1..] == fs[1..] + gs;
      EmitAllConcat(fs[1..], gs);
    }
  }

  /** The bytes of each kind of field: tag, then payload. */
  lemma WireForms(num: nat, v: nat, d: bytes, fs: seq<Field>)
    ensures Emit(VarintField(num, v)) == Varint.Write(8 * num) + Varint.Write(v)
    ensures Emit(Delimited(num, d)) == Varint.Write(8 * num + 2) + Varint.Write(|d|) + d
    ensures Emit(Group(num, fs)) == Varint.Write(8 * num + 3) + EmitAll(fs) + Varint.Write(8 * num + 4)
    ensures EmitAll([]) == [] && EmitAll(fs + [VarintField(num, v)]) == EmitAll(fs) + Emit(VarintField(num, v))
  {
    EmitAllConcat(fs, [VarintField(num, v)]);
  }

  /** Integers of fixed width have their lowest byte first. */
  lemma FixedForms(num: nat, b0: byte, b1: byte, b2: byte, b3: byte, high: nat)
    ensures Emit(Fixed32(num, b0 + 256 * (b1 + 256 * (b2 + 256 * b3))))
         == Varint.Write(8 * num + 5) + [b0, b1, b2, b3]
    ensures Emit(Fixed64(num, b0 + 256 * (b1 + 256 * (b2 + 256 * (b3 + 256 * high)))))
         == Varint.Write(8 * num + 1) + ([b0, b1, b2, b3] + Varint.WriteFixed(high, 4))
  {
    Varint.WriteFour(b0, b1, b2, b3, 0, 0);
    Varint.WriteFour(b0, b1, b2, b3, high, 4);
    assert [b0, b1] + ([b2, b3] + Varint.WriteFixed(0, 0)) == [b0, b1, b2, b3];
    assert [b0, b1] + ([b2, b3] + Varint.WriteFixed(high, 4)) == [b0, b1, b2, b3] + Varint.WriteFixed(high, 4);
  }

  // ----- Sizing -----

  /** `LengthDelimitedSize`. */
  function DelimitedSize(n: nat): (size: nat) {
    n + Varint.Size(n)
  }

  function FieldSize(f: Field): (n: nat)
    decreases f, 1
  {
    Varint.Size(8 * f.num)
    + match f
      case VarintField(_, v) => Varint.Size(v)
      case Fixed64(_, _) => 8
      case Delimited(_, d) => DelimitedSize(|d|)
      case Group(num, fs) => FieldsSize(fs) + Varint.Size(8 * num)
      case Fixed32(_, _) => 4
  }

  /** `ComputeUnknownFieldsSize`: a tag's size depends on the field number alone. */
  function FieldsSize(fs: seq<Field>): (n: nat)
    decreases fs, 0
  {
    if fs == [] then 0 else FieldSize(fs[0]) + FieldsSize(fs[1..])
  }

  // ----- Parsing -----

  /** Where a sequence of fields stops: at the end of the input, or at a zero tag or
      end-group tag, which is recorded. */
  datatype End = AtLimit | Stopped(tag: nat)

  datatype Scan = Bad | Scanned(fields: seq<Field>, end: End, used: nat)

  /** Fields already scanned from `n` bytes, in front of what the rest scans to. */
  function Prepend(fs: seq<Field>, n: nat, r: Scan): (p: Scan) {
    match r
    case Bad => Bad
    case Scanned(gs, end, used) => Scanned(fs + gs, end, n + used)
  }

  predicate EndsFields(tag: nat) {
    tag == 0 || tag % 8 == 4
  }

  /** `ReadSize` and the copy of that many bytes. */
  function ReadString(s: bytes, max: MaxLength): (r: Read<bytes>)
    ensures r.Got? ==> 0 < r.used <= |s|
  {
    match Varint.Read(s, 5)
    case Malformed => Malformed
    case Got(n, k) => if n <= max && n <= |s| - k then Got(s[k..k + n], k + n) else Malformed
  }

  function ReadFixed(s: bytes, n: nat): (r: Read<nat>)
    ensures r.Got? ==> r.used == n <= |s|
  {
    if n <= |s| then Got(Varint.ReadFixed(s[..n]), n) else Malformed
  }

  /** `UnknownFieldParse`: the payload of a field whose tag has been read. A group may nest
      `depth` levels deep and must be closed by its own end tag. */
  function ParseField(tag: nat, s: bytes, max: MaxLength, depth: nat): (r: Read<Field>)
    ensures r.Got? ==> r.used <= |s|
    decreases |s|, 4
  {
    var num := tag / 8;
    if num == 0 then Malformed
    else match tag % 8
         case 0 => (match Varint.ReadUInt64(s)
                    case Malformed => Malformed
                    case Got(v, n) => Got(VarintField(num, v), n))
         case 1 => (match ReadFixed(s, 8)
                    case Malformed => Malformed
                    case Got(v, n) => Got(Fixed64(num, v), n))
         case 2 => (match ReadString(s, max)
                    case Malformed => Malformed
                    case Got(d, n) => Got(Delimited(num, d), n))
         case 3 => if depth == 0 then Malformed
                   else (match ParseFields(s, max, depth - 1)
                         case Bad => Malformed
                         case Scanned(fs, end, n) =>
                           if end == Stopped(tag + 1) then Got(Group(num, fs), n) else Malformed)
         case 5 => (match ReadFixed(s, 4)
                    case Malformed => Malformed
                    case Got(v, n) => Got(Fixed32(num, v), n))
         case _ => Malformed
  }

  /** The next thing in a sequence of fields: a field, or what stops the sequence. */
  datatype Item = BadItem | Next(field: Field, length: nat) | Last(end: End, length: nat)

  function ParseItem(s: bytes, max: MaxLength, depth: nat): (r: Item)
    ensures r.Next? ==> 0 < r.length <= |s|
    ensures r.Last? ==> r.length <= |s|
    ensures r == Last(AtLimit, 0) <==> s == []
    ensures r.Last? && r.end == AtLimit ==> s == []
    decreases |s|, 2
  {
    if s == [] then Last(AtLimit, 0)
    else match Varint.ReadTag(s)
         case Malformed => BadItem
         case Got(tag, n) =>
           if EndsFields(tag) then Last(Stopped(tag), n)
           else match ParseField(tag, s[n..], max, depth)
                case Malformed => BadItem
                case Got(f, k) => Next(f, n + k)
  }

  /** Splits bytes into fields until the end or the first zero or end-group tag. */
  function ParseFields(s: bytes, max: MaxLength, depth: nat): (r: Scan)
    ensures r.Scanned? ==> r.used <= |s|
    ensures r.Scanned? && r.end == AtLimit ==> r.used == |s|
    decreases |s|, 3
  {
    match ParseItem(s, max, depth)
    case BadItem => Bad
    case Last(end, n) => Scanned([], end, n)
    case Next(f, n) => Prepend([f], n, ParseFields(s[n..], max, depth))
  }

  /** A group takes one level of nesting: the empty group 1 is accepted exactly if one is left. */
  lemma GroupDepth(max: MaxLength, depth: nat)
    ensures ParseFields([0x0B, 0x0C], max, depth)
         == if depth > 0 then Scanned([Group(1, [])], AtLimit, 2) else Bad
  {
    var s: bytes := [0x0B, 0x0C];
    var e: bytes := [0x0C];
    assert s[1..] == e && s[2..] == [] && e[1..] == [];
    assert Varint.ReadTag(s) == Got(11, 1) && Varint.ReadTag(e) == Got(12, 1);
    if depth > 0 {
      assert ParseItem(e, max, depth - 1) == Last(Stopped(12), 1);
      assert ParseField(11, e, max, depth) == Got(Group(1, []), 1);
      assert ParseItem(s, max, depth) == Next(Group(1, []), 2);
    } else {
      assert ParseField(11, e, max, depth).Malformed?;
      assert ParseItem(s, max, depth).BadItem?;
    }
  }

  /** A length takes at most five bytes, and a string is refused exactly if it has none, is longer than
      the limit or reaches past the input. */
  lemma StringIs(s: bytes, max: MaxLength)
    ensures Varint.Read(s, 5).Got? <==> exists i :: 0 <= i < |s| && i < 5 && s[i] < 128
    ensures ReadString(s, max).Got?
       <==> match Varint.Read(s, 5)
            case Malformed => false
            case Got(n, k) => n <= max && k + n <= |s|
  {
    Varint.ReadEnds(s, 5);
  }

  // ----- Which fields the parser can produce -----

  ghost predicate FieldOk(f: Field, max: MaxLength, depth: nat)
    decreases f, 1
  {
    && 1 <= f.num < 0x2000_0000
    && match f
       case VarintField(_, v) => v < Varint.TWO_TO_64
       case Fixed64(_, v) => v < Varint.TWO_TO_64
       case Delimited(_, d) => |d| <= max
       case Group(_, fs) => depth > 0 && FieldsOk(fs, max, depth - 1)
       case Fixed32(_, v) => v < Varint.TWO_TO_32
  }

  ghost predicate FieldsOk(fs: seq<Field>, max: MaxLength, depth: nat)
    decreases fs, 0
  {
    forall i :: 0 <= i < |fs| ==> FieldOk(fs[i], max, depth)
  }

  // ----- Size agreement -----

  lemma TagSize(num: nat, wire: nat)
    requires wire < 8
    ensures |Varint.Write(8 * num + wire)| == Varint.Size(8 * num)
  {
    Varint.SizeAgrees(8 * num);
    if num >= 16 {
      assert (8 * num + wire) / 128 == 8 * num / 128;
    }
  }

  lemma {:induction false} FieldSizeAgrees(f: Field)
    ensures |Emit(f)| == FieldSize(f)
    decreases f, 1
  {
    TagSize(f.num, Tag(f) - 8 * f.num);
    match f
    case VarintField(_, v) => Varint.SizeAgrees(v);
    case Delimited(_, d) => Varint.SizeAgrees(|d|);
    case Group(n, fs) => FieldsSizeAgrees(fs); TagSize(n, 4);
    case _ =>
  }

  /** The size computed in advance is the number of bytes written, groups included. */
  lemma {:induction false} FieldsSizeAgrees(fs: seq<Field>)
    ensures |EmitAll(fs)| == FieldsSize(fs)
    decreases fs, 0
  {
    if fs != [] {
      FieldSizeAgrees(fs[0]);
      FieldsSizeAgrees(fs[1..]);
    }
  }

  // ----- Parsing what was written -----

  lemma ReadStringEmitted(d: bytes, t: bytes, max: MaxLength)
    requires |d| <= max
    ensures ReadString(Varint.Write(|d|) + d + t, max) == Got(d, |Varint.Write(|d|)| + |d|)
  {
    var w := Varint.Write(|d|);
    Varint.TagCap();
    Varint.ReadWrite(|d|, d + t, 5);
    assert w + d + t == w + (d + t);
    assert (w + d + t)[|w|..|w| + |d|] == d;
  }

  lemma ReadFixedEmitted(v: nat, n: nat, t: bytes)
    requires v < Varint.Cap8(n)
    ensures ReadFixed(Varint.WriteFixed(v, n) + t, n) == Got(v, n)
  {
    Varint.ReadWriteFixed(v, n);
    assert (Varint.WriteFixed(v, n) + t)[..n] == Varint.WriteFixed(v, n);
  }

  lemma ParseFieldsCons(f: Field, e: bytes, rest: bytes, max: MaxLength, depth: nat)
    requires ParseItem(e + rest, max, depth) == Next(f, |e|)
    ensures ParseFields(e + rest, max, depth) == Prepend([f], |e|, ParseFields(rest, max, depth))
  {
    assert (e + rest)[|e|..] == rest;
  }

  lemma ParseFieldsEnd(tag: nat, t: bytes, max: MaxLength, depth: nat)
    requires tag < Varint.TWO_TO_32 && EndsFields(tag)
    ensures ParseFields(Varint.Write(tag) + t, max, depth) == Scanned([], Stopped(tag), |Varint.Write(tag)|)
  {
    Varint.ReadWriteTag(tag, t);
    assert ParseItem(Varint.Write(tag) + t, max, depth) == Last(Stopped(tag), |Varint.Write(tag)|);
  }

  lemma ParseFieldsThenEnd(fs: seq<Field>, body: bytes, tag: nat, t: bytes, max: MaxLength, depth: nat)
    requires tag < Varint.TWO_TO_32 && EndsFields(tag)
    requires var e := Varint.Write(tag) + t;
             ParseFields(body + e, max, depth) == Prepend(fs, |body|, ParseFields(e, max, depth))
    ensures ParseFields(body + Varint.Write(tag) + t, max, depth)
         == Scanned(fs, Stopped(tag), |body| + |Varint.Write(tag)|)
  {
    ParseFieldsEnd(tag, t, max, depth);
    assert body + Varint.Write(tag) + t == body + (Varint.Write(tag) + t);
    assert fs + [] == fs;
  }

  /** A group is closed by its own end tag. */
  lemma GroupCloses(num: nat, fs: seq<Field>, s: bytes, n: nat, max: MaxLength, depth: nat)
    requires num > 0 && depth > 0
    requires ParseFields(s, max, depth - 1) == Scanned(fs, Stopped(EndTag(num)), n)
    ensures ParseField(8 * num + 3, s, max, depth) == Got(Group(num, fs), n)
  {
  }

  lemma GroupEmitted(num: nat, fs: seq<Field>, t: bytes, max: MaxLength, depth: nat)
    requires 1 <= num < 0x2000_0000 && depth > 0
    requires var e := Varint.Write(EndTag(num)) + t;
             ParseFields(EmitAll(fs) + e, max, depth - 1)
             == Prepend(fs, |EmitAll(fs)|, ParseFields(e, max, depth - 1))
    ensures var p := EmitPayload(Group(num, fs));
            ParseField(8 * num + 3, p + t, max, depth) == Got(Group(num, fs), |p|)
  {
    var p := EmitPayload(Group(num, fs));
    ParseFieldsThenEnd(fs, EmitAll(fs), EndTag(num), t, max, depth - 1);
    GroupCloses(num, fs, p + t, |p|, max, depth);
  }

  lemma {:induction false} ParseFieldEmitted(f: Field, t: bytes, max: MaxLength, depth: nat)
    requires FieldOk(f, max, depth)
    ensures ParseField(Tag(f), EmitPayload(f) + t, max, depth) == Got(f, |EmitPayload(f)|)
    decreases f, 1
  {
    assert Tag(f) / 8 == f.num && Tag(f) % 8 == Tag(f) - 8 * f.num;
    match f
    case VarintField(_, v) => Varint.ReadWriteUInt64(v, t);
    case Fixed64(_, v) => Varint.FixedCaps(); ReadFixedEmitted(v, 8, t);
    case Delimited(_, d) => ReadStringEmitted(d, t, max);
    case Group(n, fs) =>
      ParseFieldsEmitted(fs, Varint.Write(EndTag(n)) + t, max, depth - 1);
      GroupEmitted(n, fs, t, max, depth);
    case Fixed32(_, v) => Varint.FixedCaps(); ReadFixedEmitted(v, 4, t);
  }

  lemma ItemEmitted(f: Field, t: bytes, max: MaxLength, depth: nat)
    requires FieldOk(f, max, depth)
    requires ParseField(Tag(f), EmitPayload(f) + t, max, depth) == Got(f, |EmitPayload(f)|)
    ensures ParseItem(Emit(f) + t, max, depth) == Next(f, |Emit(f)|)
  {
    var w := Varint.Write(Tag(f));
    assert Emit(f) + t == w + (EmitPayload(f) + t);
    Varint.ReadWriteTag(Tag(f), EmitPayload(f) + t);
    assert (Emit(f) + t)[|w|..] == EmitPayload(f) + t;
  }

  lemma ConsEmitted(f: Field, e: bytes, fs: seq<Field>, body: bytes, t: bytes, max: MaxLength, depth: nat)
    requires ParseItem(e + (body + t), max, depth) == Next(f, |e|)
    requires ParseFields(body + t, max, depth) == Prepend(fs, |body|, ParseFields(t, max, depth))
    ensures ParseFields(e + (body + t), max, depth) == Prepend([f] + fs, |e| + |body|, ParseFields(t, max, depth))
  {
    ParseFieldsCons(f, e, body + t, max, depth);
    PrependTwice([f], |e|, fs, |body|, ParseFields(t, max, depth));
  }

  lemma EmitAllFirst(fs: seq<Field>, t: bytes)
    requires fs != []
    ensures EmitAll(fs) + t == Emit(fs[0]) + (EmitAll(fs[1..]) + t)
    ensures |EmitAll(fs)| == |Emit(fs[0])| + |EmitAll(fs[1..])|
  {
    Associative(Emit(fs[0]), EmitAll(fs[1..]), t);
  }

  lemma Associative(a: bytes, b: bytes, c: bytes)
    ensures a + b + c == a + (b + c)
  {
  }

  /** Written fields are read back in order, and whatever follows is parsed as it would be alone. */
  lemma {:induction false} ParseFieldsEmitted(fs: seq<Field>, t: bytes, max: MaxLength, depth: nat)
    requires FieldsOk(fs, max, depth)
    ensures ParseFields(EmitAll(fs) + t, max, depth)
         == Prepend(fs, |EmitAll(fs)|, ParseFields(t, max, depth))
    decreases fs, 0
  {
    if fs == [] {
      assert EmitAll(fs) + t == t;
    } else {
      var rest := EmitAll(fs[1..]);
      ParseFieldEmitted(fs[0], rest + t, max, depth);
      ItemEmitted(fs[0], rest + t, max, depth);
      ParseFieldsEmitted(fs[1..], t, max, depth);
      ConsEmitted(fs[0], Emit(fs[0]), fs[1..], rest, t, max, depth);
      EmitAllFirst(fs, t);
      assert fs == [fs[0]] + fs[1..];
    }
  }

  // ----- What accepted bytes parse to -----

  lemma {:induction false} ParseFieldOk(tag: nat, s: bytes, max: MaxLength, depth: nat)
    requires tag < Varint.TWO_TO_32 && ParseField(tag, s, max, depth).Got?
    ensures FieldOk(ParseField(tag, s, max, depth).value, max, depth)
    ensures Tag(ParseField(tag, s, max, depth).value) == tag
    decreases |s|, 4
  {
    Varint.FixedCaps();
    match tag % 8
    case 1 => Varint.ReadFixedBound(s[..8]);
    case 3 => ParseFieldsOk(s, max, depth - 1);
    case 5 => Varint.ReadFixedBound(s[..4]);
    case _ =>
  }

  lemma {:induction false} ItemOk(s: bytes, max: MaxLength, depth: nat)
    requires ParseItem(s, max, depth).Next?
    ensures FieldOk(ParseItem(s, max, depth).field, max, depth)
    decreases |s|, 2
  {
    ParseFieldOk(Varint.ReadTag(s).value, s[Varint.ReadTag(s).used..], max, depth);
  }

  /** Every field of an accepted input is within the limits, at every depth. */
  lemma {:induction false} ParseFieldsOk(s: bytes, max: MaxLength, depth: nat)
    requires ParseFields(s, max, depth).Scanned?
    ensures FieldsOk(ParseFields(s, max, depth).fields, max, depth)
    decreases |s|, 3
  {
    var item := ParseItem(s, max, depth);
    if item.Next? {
      ItemOk(s, max, depth);
      ParseFieldsOk(s[item.length..], max, depth);
    }
  }

  // ----- Re-emitting never grows -----

  function EndLength(e: End): (n: nat) {
    match e
    case AtLimit => 0
    case Stopped(tag) => |Varint.Write(tag)|
  }

  lemma {:induction false} FieldShrinks(tag: nat, s: bytes, max: MaxLength, depth: nat)
    requires tag < Varint.TWO_TO_32 && ParseField(tag, s, max, depth).Got?
    ensures |EmitPayload(ParseField(tag, s, max, depth).value)| <= ParseField(tag, s, max, depth).used
    decreases |s|, 4
  {
    match tag % 8
    case 0 => Varint.UInt64IsShortest(s);
    case 2 => Varint.WriteIsShortest(s, 5);
    case 3 => FieldsShrink(s, max, depth - 1);
    case _ =>
  }

  lemma {:induction false} ItemShrinks(s: bytes, max: MaxLength, depth: nat)
    ensures var item := ParseItem(s, max, depth);
            && (item.Next? ==> |Emit(item.field)| <= item.length)
            && (item.Last? ==> EndLength(item.end) <= item.length)
    decreases |s|, 2
  {
    var tag := Varint.ReadTag(s);
    if tag.Got? {
      Varint.TagIsShortest(s);
      if ParseItem(s, max, depth).Next? {
        FieldShrinks(tag.value, s[tag.used..], max, depth);
        ParseFieldOk(tag.value, s[tag.used..], max, depth);
      }
    }
  }

  /** Writing back parsed fields, and the tag that ended them, takes no more bytes than were read. */
  lemma {:induction false} FieldsShrink(s: bytes, max: MaxLength, depth: nat)
    requires ParseFields(s, max, depth).Scanned?
    ensures var r := ParseFields(s, max, depth); |EmitAll(r.fields)| + EndLength(r.end) <= r.used
    decreases |s|, 3
  {
    var item := ParseItem(s, max, depth);
    ItemShrinks(s, max, depth);
    if item.Next? {
      FieldsShrink(s[item.length..], max, depth);
      var rest := ParseFields(s[item.length..], max, depth).fields;
      assert ([item.field] + rest)[1..] == rest;
    }
  }

  // ----- Parsing is stable under what follows -----

  lemma ReadStringStable(s: bytes, t: bytes, max: MaxLength)
    requires ReadString(s, max).Got?
    ensures ReadString(s + t, max) == ReadString(s, max)
  {
    Varint.ReadStable(s, t, 5);
    var k, n := Varint.Read(s, 5).used, Varint.Read(s, 5).value;
    assert (s + t)[k..k + n] == s[k..k + n];
  }

  lemma ReadFixedStable(s: bytes, t: bytes, n: nat)
    requires n <= |s|
    ensures ReadFixed(s + t, n) == ReadFixed(s, n)
  {
    assert (s + t)[..n] == s[..n];
  }

  lemma {:induction false} ParseFieldStable(tag: nat, s: bytes, t: bytes, max: MaxLength, depth: nat)
    requires ParseField(tag, s, max, depth).Got?
    ensures ParseField(tag, s + t, max, depth) == ParseField(tag, s, max, depth)
    decreases |s|, 4
  {
    match tag % 8
    case 0 => Varint.ReadStable(s, t, 10);
    case 1 => ReadFixedStable(s, t, 8);
    case 2 => ReadStringStable(s, t, max);
    case 3 => ParseFieldsConcat(s, t, max, depth - 1);
    case 5 => ReadFixedStable(s, t, 4);
    case _ =>
  }

  lemma {:induction false} ItemStable(s: bytes, t: bytes, max: MaxLength, depth: nat)
    requires s != [] && !ParseItem(s, max, depth).BadItem?
    ensures ParseItem(s + t, max, depth) == ParseItem(s, max, depth)
    decreases |s|, 2
  {
    Varint.ReadStable(s, t, 5);
    var tag, n := Varint.ReadTag(s).value, Varint.ReadTag(s).used;
    if !EndsFields(tag) {
      assert (s + t)[n..] == s[n..] + t;
      ParseFieldStable(tag, s[n..], t, max, depth);
    }
  }

  /** A sequence of fields that stopped at a tag ignores what follows it; one that ran to the end of
      its input continues into what follows. This holds for every accepted encoding, not only for
      the canonical one. */
  lemma {:induction false} ParseFieldsConcat(s: bytes, t: bytes, max: MaxLength, depth: nat)
    requires ParseFields(s, max, depth).Scanned?
    ensures var r := ParseFields(s, max, depth);
            ParseFields(s + t, max, depth)
            == if r.end == AtLimit then Prepend(r.fields, |s|, ParseFields(t, max, depth)) else r
    decreases |s|, 3
  {
    var item, after := ParseItem(s, max, depth), ParseFields(t, max, depth);
    if s == [] {
      assert s + t == t;
    } else {
      ItemStable(s, t, max, depth);
      if item.Next? {
        var rest := s[item.length..];
        assert (s + t)[item.length..] == rest + t;
        ParseFieldsConcat(rest, t, max, depth);
        PrependTwice([item.field], item.length, ParseFields(rest, max, depth).fields, |rest|, after);
      }
    }
  }

  lemma PrependTwice(fs: seq<Field>, n: nat, gs: seq<Field>, k: nat, r: Scan)
    ensures Prepend(fs, n, Prepend(gs, k, r)) == Prepend(fs + gs, n + k, r)
  {
    if r.Scanned? {
      assert fs + (gs + r.fields) == fs + gs + r.fields;
    }
  }
}
