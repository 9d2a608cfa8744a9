/** The contents of a message with one string field, number 1: what parsing, serializing and
    merging mean for `HelloRequest` (`name`) and `HelloReply` (`message`), which differ only
    in the name of that field. */
module Message {
  import opened Bytes
  import opened WireFormat
  import Utf8
  import Varint
  import WireGrammar

  datatype Message = Message(text: bytes, unknown: seq<Field>)

  const EMPTY := Message([], [])

  datatype Limits = Limits(max: MaxLength, depth: nat)

  predicate IsText(f: Field) {
    f.Delimited? && f.num == 1
  }

  /** The last text field wins; every other field is kept, in order. */
  function Absorb(m: Message, f: Field): (r: Message) {
    if IsText(f) then m.(text := f.data) else m.(unknown := m.unknown + [f])
  }

  function AbsorbAll(m: Message, fs: seq<Field>): (r: Message)
    decreases |fs|
  {
    if fs == [] then m else AbsorbAll(Absorb(m, fs[0]), fs[1..])
  }

  ghost predicate NoText(fs: seq<Field>) {
    forall i :: 0 <= i < |fs| ==> !IsText(fs[i])
  }

  ghost predicate TextsValid(fs: seq<Field>) {
    forall i :: 0 <= i < |fs| && IsText(fs[i]) ==> Utf8.Valid(fs[i].data)
  }

  datatype Result = Failed | Parsed(message: Message, end: End, used: nat)

  /** What parsing `s` into `m` gives: split the bytes into fields, then fold them over `m`. */
  ghost function Parse(m: Message, s: bytes, lim: Limits): (r: Result) {
    match ParseFields(s, lim.max, lim.depth)
    case Bad => Failed
    case Scanned(fs, end, n) => if TextsValid(fs) then Parsed(AbsorbAll(m, fs), end, n) else Failed
  }

  function TextField(text: bytes): (f: Field) {
    Delimited(1, text)
  }

  /** An empty string field is not written. */
  function Serialize(m: Message): (s: bytes) {
    (if m.text == [] then [] else Emit(TextField(m.text))) + EmitAll(m.unknown)
  }

  function Merge(to: Message, from: Message): (m: Message) {
    Message(if from.text == [] then to.text else from.text, to.unknown + from.unknown)
  }

  /** The messages the parser can produce. */
  ghost predicate Good(m: Message, lim: Limits) {
    && Utf8.Valid(m.text)
    && |m.text| <= lim.max
    && FieldsOk(m.unknown, lim.max, lim.depth)
    && NoText(m.unknown)
  }

  function Advance(n: nat, r: Result): (a: Result) {
    if r.Failed? then Failed else r.(used := n + r.used)
  }

  // ----- Parsing one field at a time -----

  /** What one field does: the message absorbs it, unless it is a text that is not UTF-8. */
  lemma ParseStep(m: Message, s: bytes, lim: Limits)
    requires ParseItem(s, lim.max, lim.depth).Next?
    ensures var item := ParseItem(s, lim.max, lim.depth);
            Parse(m, s, lim)
            == if IsText(item.field) && !Utf8.Valid(item.field.data) then Failed
               else Advance(item.length, Parse(Absorb(m, item.field), s[item.length..], lim))
  {
    var item := ParseItem(s, lim.max, lim.depth);
    var rest := ParseFields(s[item.length..], lim.max, lim.depth);
    if rest.Scanned? {
      var fs := [item.field] + rest.fields;
      assert fs[0] == item.field && fs[1..] == rest.fields;
      assert forall i :: 0 <= i < |rest.fields| ==> rest.fields[i] == fs[i + 1];
    }
  }

  /** Tag 10 is the text field; the unknown-field parser would read the same string after it. */
  lemma ParseTextField(m: Message, s: bytes, n: nat, lim: Limits)
    requires Varint.ReadTag(s) == Got(10, n)
    ensures var str := ReadString(s[n..], lim.max);
            Parse(m, s, lim)
            == if str.Malformed? || !Utf8.Valid(str.value) then Failed
               else Advance(n + str.used, Parse(m.(text := str.value), s[n + str.used..], lim))
  {
    var str := ReadString(s[n..], lim.max);
    if str.Got? {
      assert ParseItem(s, lim.max, lim.depth) == Next(TextField(str.value), n + str.used);
      ParseStep(m, s, lim);
    } else {
      assert ParseItem(s, lim.max, lim.depth).BadItem?;
    }
  }

  lemma ParseUnknownField(m: Message, s: bytes, tag: nat, n: nat, lim: Limits)
    requires Varint.ReadTag(s) == Got(tag, n) && tag != 10 && tag != 0 && tag % 8 != 4
    ensures var field := ParseField(tag, s[n..], lim.max, lim.depth);
            Parse(m, s, lim)
            == if field.Malformed? then Failed
               else Advance(n + field.used,
                            Parse(m.(unknown := m.unknown + [field.value]), s[n + field.used..], lim))
  {
    var field := ParseField(tag, s[n..], lim.max, lim.depth);
    if field.Got? {
      ParseFieldOk(tag, s[n..], lim.max, lim.depth);
      assert ParseItem(s, lim.max, lim.depth) == Next(field.value, n + field.used);
      ParseStep(m, s, lim);
    } else {
      assert ParseItem(s, lim.max, lim.depth).BadItem?;
    }
  }

  lemma ParseStops(m: Message, s: bytes, lim: Limits)
    ensures s == [] ==> Parse(m, s, lim) == Parsed(m, AtLimit, 0)
    ensures var tag := Varint.ReadTag(s);
            && (s != [] && tag.Malformed? ==> Parse(m, s, lim) == Failed)
            && (tag.Got? && (tag.value == 0 || tag.value % 8 == 4) ==>
                 Parse(m, s, lim) == Parsed(m, Stopped(tag.value), tag.used))
  {
    var item, tag := ParseItem(s, lim.max, lim.depth), Varint.ReadTag(s);
    assert s != [] && tag.Malformed? ==> item.BadItem?;
    assert tag.Got? && (tag.value == 0 || tag.value % 8 == 4) ==> item == Last(Stopped(tag.value), tag.used);
  }

  lemma {:induction false} AbsorbAllConcat(m: Message, fs: seq<Field>, gs: seq<Field>)
    ensures AbsorbAll(m, fs + gs) == AbsorbAll(AbsorbAll(m, fs), gs)
    decreases |fs|
  {
    if fs == [] {
      assert fs + gs == gs;
    } else {
      assert (fs + gs)[0] == fs[0] && (fs + gs)[1..] == fs[1..] + gs;
      AbsorbAllConcat(Absorb(m, fs[0]), fs[1..], gs);
    }
  }

  lemma TextsValidConcat(fs: seq<Field>, gs: seq<Field>)
    ensures TextsValid(fs + gs) <==> TextsValid(fs) && TextsValid(gs)
  {
    assert forall i :: 0 <= i < |fs| ==> fs[i] == (fs + gs)[i];
    assert forall i :: 0 <= i < |gs| ==> gs[i] == (fs + gs)[|fs| + i];
  }

  /** Parsing a concatenation is parsing its parts one after the other into the same message,
      for every accepted first part. */
  lemma ParseConcat(m: Message, s: bytes, t: bytes, lim: Limits)
    requires Parse(m, s, lim).Parsed?
    ensures var r := Parse(m, s, lim);
            Parse(m, s + t, lim) == if r.end == AtLimit then Advance(|s|, Parse(r.message, t, lim)) else r
  {
    ParseFieldsConcat(s, t, lim.max, lim.depth);
    var fs, after := ParseFields(s, lim.max, lim.depth).fields, ParseFields(t, lim.max, lim.depth);
    if after.Scanned? {
      AbsorbAllConcat(m, fs, after.fields);
      TextsValidConcat(fs, after.fields);
    }
  }

  function Unknowns(fs: seq<Field>): (us: seq<Field>)
    decreases |fs|
  {
    if fs == [] then [] else (if IsText(fs[0]) then [] else [fs[0]]) + Unknowns(fs[1..])
  }

  /** The data of the last text field. */
  function LastText(fs: seq<Field>): (text: bytes) {
    if fs == [] then []
    else if IsText(fs[|fs| - 1]) then fs[|fs| - 1].data
    else LastText(fs[..|fs| - 1])
  }

  lemma {:induction false} AbsorbedText(m: Message, fs: seq<Field>)
    ensures AbsorbAll(m, fs).text == if NoText(fs) then m.text else LastText(fs)
  {
    if fs != [] {
      var k := |fs| - 1;
      AbsorbedText(m, fs[..k]);
      AbsorbAllConcat(m, fs[..k], [fs[k]]);
      assert fs[..k] + [fs[k]] == fs;
      assert NoText(fs) <==> !IsText(fs[k]) && NoText(fs[..k]);
    }
  }

  /** The text is that of the last text field, and the other fields are added in their order. */
  lemma LastOneWins(m: Message, fs: seq<Field>, i: nat)
    requires i < |fs|
    ensures AbsorbAll(m, fs).unknown == m.unknown + Unknowns(fs)
    ensures IsText(fs[i]) && NoText(fs[i + 1..]) ==> AbsorbAll(m, fs).text == fs[i].data
    ensures NoText(fs) ==> AbsorbAll(m, fs).text == m.text
  {
    assert fs[..i] + [fs[i]] + fs[i + 1..] == fs;
    AbsorbedUnknowns(m, fs);
    AbsorbAllConcat(m, fs[..i] + [fs[i]], fs[i + 1..]);
    AbsorbAllConcat(m, fs[..i], [fs[i]]);
    AbsorbedText(AbsorbAll(m, fs[..i] + [fs[i]]), fs[i + 1..]);
    AbsorbedText(m, fs);
  }

  lemma {:induction false} AbsorbedUnknowns(m: Message, fs: seq<Field>)
    ensures AbsorbAll(m, fs).unknown == m.unknown + Unknowns(fs)
    decreases |fs|
  {
    if fs != [] {
      AbsorbedUnknowns(Absorb(m, fs[0]), fs[1..]);
    }
  }

  /** The input reads, by the grammar, as these fields and the end of the result; their texts are valid
      UTF-8, and the message of the result has absorbed them. */
  ghost predicate Absorbs(m: Message, fs: seq<Field>, r: Result, s: bytes, lim: Limits) {
    && r.Parsed?
    && WireGrammar.IsReading(Scanned(fs, r.end, r.used), s, lim.max, lim.depth)
    && TextsValid(fs)
    && r.message == AbsorbAll(m, fs)
  }

  /** What parsing gives, without a parser: the message that has absorbed the fields which the input
      reads as, and failure exactly if it reads as none, or as fields with a text that is not UTF-8. */
  lemma ParseSucceedsExactly(m: Message, s: bytes, r: Result, lim: Limits)
    ensures r.Parsed? ==> (Parse(m, s, lim) == r <==> exists fs :: Absorbs(m, fs, r, s, lim))
    ensures Parse(m, s, lim) == Failed <==> forall fs, q :: !Absorbs(m, fs, q, s, lim)
  {
    var scan := ParseFields(s, lim.max, lim.depth);
    WireGrammar.AcceptsExactlySpellings(scan, s, lim.max, lim.depth);
    if Parse(m, s, lim).Parsed? {
      assert Absorbs(m, scan.fields, Parse(m, s, lim), s, lim);
    }
    forall fs, q | Absorbs(m, fs, q, s, lim)
      ensures Parse(m, s, lim) == q
    {
      WireGrammar.AcceptsExactlySpellings(Scanned(fs, q.end, q.used), s, lim.max, lim.depth);
    }
  }

  /** A zero tag or an end-group tag stops the parse where it stands, successfully, and leaves the
      message as it is; no other tag ever stops one. */
  lemma StopsExactly(m: Message, s: bytes, t: nat, n: nat, lim: Limits)
    ensures Varint.ReadTag(s) == Got(t, n) && (t == 0 || t % 8 == 4) ==>
              Parse(m, s, lim) == Parsed(m, Stopped(t), n)
    ensures Varint.ReadTag(s) == Got(t, n) && t != 0 && t % 8 != 4 && Parse(m, s, lim).Parsed? ==>
              Parse(m, s, lim).used > n
    ensures Parse(m, s, lim).Parsed? && Parse(m, s, lim).end == Stopped(t) ==> t == 0 || t % 8 == 4
  {
    ParseStops(m, s, lim);
    if Parse(m, s, lim).Parsed? {
      var k := WireGrammar.FieldsSpelled(s, lim.max, lim.depth);
      if Varint.ReadTag(s) == Got(t, n) && t != 0 && t % 8 != 4 {
        NextTakesMore(s, lim);
      }
    }
  }

  lemma NextTakesMore(s: bytes, lim: Limits)
    requires ParseFields(s, lim.max, lim.depth).Scanned? && Varint.ReadTag(s).Got?
    requires var t := Varint.ReadTag(s).value; t != 0 && t % 8 != 4
    ensures ParseFields(s, lim.max, lim.depth).used > Varint.ReadTag(s).used
  {
    assert ParseItem(s, lim.max, lim.depth).Next?;
    var tag := Varint.ReadTag(s);
    WireGrammar.PayloadSpelled(tag.value, s[tag.used..], lim.max, lim.depth);
  }

  // ----- Round trip -----

  lemma {:induction false} AbsorbUnknown(m: Message, fs: seq<Field>)
    requires NoText(fs)
    ensures AbsorbAll(m, fs) == m.(unknown := m.unknown + fs)
    decreases |fs|
  {
    if fs == [] {
      assert m.unknown + fs == m.unknown;
    } else {
      AbsorbUnknown(Absorb(m, fs[0]), fs[1..]);
      assert m.unknown + [fs[0]] + fs[1..] == m.unknown + fs;
    }
  }

  /** The fields `Serialize` writes. */
  function Fields(m: Message): (fs: seq<Field>) {
    (if m.text == [] then [] else [TextField(m.text)]) + m.unknown
  }

  lemma SerializeEmitsFields(m: Message)
    ensures Serialize(m) == EmitAll(Fields(m))
  {
    if m.text == [] {
      assert Fields(m) == m.unknown;
      assert Serialize(m) == EmitAll(m.unknown);
    } else {
      assert Fields(m)[0] == TextField(m.text) && Fields(m)[1..] == m.unknown;
    }
  }

  /** The text is written first, as tag 10, its length and its bytes, and not at all if it is empty; the
      unknown fields follow. */
  lemma TextIsFirst(m: Message)
    ensures m.text != [] ==> Serialize(m) == [10] + Varint.Write(|m.text|) + m.text + EmitAll(m.unknown)
    ensures m.text == [] ==> Serialize(m) == EmitAll(m.unknown)
    ensures 0 < |m.text| < 128 ==> Serialize(m) == [10, |m.text|] + m.text + EmitAll(m.unknown)
  {
    WireForms(1, 0, m.text, []);
    Varint.ShortForms(10);
    Varint.ShortForms(|m.text|);
    assert [10] + [|m.text| % 128] == [10, |m.text| % 128];
  }

  lemma AbsorbFields(to: Message, m: Message)
    requires NoText(m.unknown)
    ensures AbsorbAll(to, Fields(m)) == Merge(to, m)
  {
    AbsorbUnknown(if m.text == [] then to else to.(text := m.text), m.unknown);
    if m.text == [] {
      assert Fields(m) == m.unknown;
    } else {
      assert Fields(m)[0] == TextField(m.text) && Fields(m)[1..] == m.unknown;
    }
  }

  /** Parsing what `from` serializes to into `to` is merging `from` into `to`. */
  lemma ParseSerialized(to: Message, from: Message, lim: Limits)
    requires Good(from, lim)
    ensures Parse(to, Serialize(from), lim) == Parsed(Merge(to, from), AtLimit, |Serialize(from)|)
  {
    SerializeEmitsFields(from);
    var fs := Fields(from);
    assert EmitAll(fs) + [] == EmitAll(fs);
    ParseFieldsEmitted(fs, [], lim.max, lim.depth);
    assert fs + [] == fs;
    AbsorbFields(to, from);
  }

  lemma {:induction false} AbsorbAllGood(m: Message, fs: seq<Field>, lim: Limits)
    requires Good(m, lim) && FieldsOk(fs, lim.max, lim.depth) && TextsValid(fs)
    ensures Good(AbsorbAll(m, fs), lim)
    decreases |fs|
  {
    if fs != [] {
      AbsorbAllGood(Absorb(m, fs[0]), fs[1..], lim);
    }
  }

  lemma ParsedIsGood(m: Message, s: bytes, lim: Limits)
    requires Good(m, lim) && Parse(m, s, lim).Parsed?
    ensures Good(Parse(m, s, lim).message, lim)
  {
    ParseFieldsOk(s, lim.max, lim.depth);
    AbsorbAllGood(m, ParseFields(s, lim.max, lim.depth).fields, lim);
  }

  /** Round trip: a message survives serializing and parsing exactly when its text is valid UTF-8
      within the length limit and its unknown fields are ones the parser can produce. */
  lemma RoundTrip(m: Message, lim: Limits)
    ensures Parse(EMPTY, Serialize(m), lim) == Parsed(m, AtLimit, |Serialize(m)|) <==> Good(m, lim)
  {
    if Good(m, lim) {
      ParseSerialized(EMPTY, m, lim);
      assert Merge(EMPTY, m) == m;
    }
    if Parse(EMPTY, Serialize(m), lim) == Parsed(m, AtLimit, |Serialize(m)|) {
      ParsedIsGood(EMPTY, Serialize(m), lim);
    }
  }

  // ----- Canonical form -----

  lemma {:induction false} AbsorbAllShrinks(m: Message, fs: seq<Field>)
    ensures |Serialize(AbsorbAll(m, fs))| <= |Serialize(m)| + |EmitAll(fs)|
    decreases |fs|
  {
    if fs != [] {
      AbsorbAllShrinks(Absorb(m, fs[0]), fs[1..]);
      EmitAllConcat(m.unknown, [fs[0]]);
      assert IsText(fs[0]) ==> fs[0] == TextField(fs[0].data);
    }
  }

  /** Any accepted bytes, however they spell their fields, parse to a message whose serialized form
      parses back to it and is no longer than the bytes read. */
  lemma Canonical(s: bytes, lim: Limits)
    requires Parse(EMPTY, s, lim).Parsed?
    ensures var r := Parse(EMPTY, s, lim);
            && Good(r.message, lim)
            && Parse(EMPTY, Serialize(r.message), lim) == Parsed(r.message, AtLimit, |Serialize(r.message)|)
            && |Serialize(r.message)| <= r.used <= |s|
  {
    ParsedIsGood(EMPTY, s, lim);
    RoundTrip(Parse(EMPTY, s, lim).message, lim);
    FieldsShrink(s, lim.max, lim.depth);
    AbsorbAllShrinks(EMPTY, ParseFields(s, lim.max, lim.depth).fields);
  }

  /** A serialized message with a zero or end-group tag after it parses to that message, whatever
      follows the tag. */
  lemma TagEnds(m: Message, t: nat, rest: bytes, lim: Limits)
    requires Good(m, lim) && t < 0x1_0000_0000 && (t == 0 || t % 8 == 4)
    ensures Parse(EMPTY, Serialize(m) + (Varint.Write(t) + rest), lim)
         == Parsed(m, Stopped(t), |Serialize(m)| + |Varint.Write(t)|)
  {
    RoundTrip(m, lim);
    ParseConcat(EMPTY, Serialize(m), Varint.Write(t) + rest, lim);
    Varint.ReadWriteTag(t, rest);
    StopsExactly(m, Varint.Write(t) + rest, t, |Varint.Write(t)|, lim);
  }

  // ----- Merging -----

  /** Concatenating serialized messages merges them. */
  lemma MergeByConcatenation(a: Message, b: Message, lim: Limits)
    requires Good(a, lim) && Good(b, lim)
    ensures Parse(EMPTY, Serialize(a) + Serialize(b), lim)
         == Parsed(Merge(a, b), AtLimit, |Serialize(a) + Serialize(b)|)
  {
    RoundTrip(a, lim);
    ParseConcat(EMPTY, Serialize(a), Serialize(b), lim);
    ParseSerialized(a, b, lim);
  }

  lemma MergeMonoid(a: Message, b: Message, c: Message)
    ensures Merge(Merge(a, b), c) == Merge(a, Merge(b, c))
    ensures Merge(EMPTY, a) == a == Merge(a, EMPTY)
  {
    assert a.unknown + b.unknown + c.unknown == a.unknown + (b.unknown + c.unknown);
  }

  lemma AbsorbIsMerge(to: Message, fs: seq<Field>)
    ensures AbsorbAll(to, fs) == Merge(to, AbsorbAll(EMPTY, fs))
       <==> to.text == [] || NoText(fs) || LastText(fs) != []
  {
    AbsorbedUnknowns(to, fs);
    AbsorbedUnknowns(EMPTY, fs);
    assert [] + Unknowns(fs) == Unknowns(fs);
    AbsorbedText(to, fs);
    AbsorbedText(EMPTY, fs);
  }

  /** Parsing bytes into a message equals parsing them alone and merging the result, except when the
      message has a text and the last text field of the bytes is explicitly empty. */
  lemma ParseIsMerge(to: Message, s: bytes, lim: Limits)
    requires Parse(EMPTY, s, lim).Parsed?
    ensures var alone := Parse(EMPTY, s, lim).message;
            var fs := ParseFields(s, lim.max, lim.depth).fields;
            && Parse(to, s, lim).Parsed?
            && (Parse(to, s, lim).message == Merge(to, alone)
                <==> to.text == [] || NoText(fs) || LastText(fs) != [])
  {
    AbsorbIsMerge(to, ParseFields(s, lim.max, lim.depth).fields);
  }

  /** The exception occurs: an explicit empty text clears the text that merging would keep. */
  lemma ExplicitEmptyIsNotMerge()
    ensures var lim := Limits(100, 100);
            var to := Message(['a' as int], []);
            && Parse(EMPTY, [10, 0], lim) == Parsed(EMPTY, AtLimit, 2)
            && Parse(to, [10, 0], lim) == Parsed(EMPTY, AtLimit, 2)
            && Merge(to, EMPTY) == to
  {
    var lim := Limits(100, 100);
    assert Varint.ReadTag([10, 0]) == Got(10, 1);
    var size: bytes := [0];
    assert Varint.Read(size, 5) == Got(0, 1) && size[1..1] == [];
    assert [10, 0][1..] == size;
    assert ReadString(size, 100) == Got([], 1);
    assert ParseItem([10, 0], 100, 100) == Next(TextField([]), 2);
    assert [10, 0][2..] == [];
    assert ParseFields([10, 0], 100, 100) == Scanned([TextField([])], AtLimit, 2);
  }
}
