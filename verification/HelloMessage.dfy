/** The generated message classes of `helloworld.proto`. `HelloRequest` and `HelloReply` have the same
    members over one string field each, `name` and `message`; this class is either of them. */
module HelloMessage {
  import opened Bytes
  import opened WireFormat
  import opened Message
  import opened WireWriter
  import Utf8
  import Varint

  /** What `_InternalParse` returns: a null pointer, or how far it got and the last tag it set. */
  datatype Outcome = Null | Stop(ptr: nat, end: End)

  /** `ToCachedSize`: a size cut to a signed 32-bit integer. */
  function ToCachedSize(size: nat): (n: int)
    ensures -0x8000_0000 <= n < 0x8000_0000
    ensures (size - n) % 0x1_0000_0000 == 0
    ensures n == size <==> size < 0x8000_0000
  {
    var low := size % Varint.TWO_TO_32;
    if low < 0x8000_0000 then low else low - Varint.TWO_TO_32
  }

  /** What parsing still has to give, past the bytes already taken. */
  ghost predicate Remains(goal: Result, done: nat, m: Message, s: bytes, lim: Limits) {
    goal == Advance(done, Parse(m, s, lim))
  }

  lemma TextRemains(goal: Result, done: nat, m: Message, s: bytes, n: nat, lim: Limits)
    requires Remains(goal, done, m, s, lim) && Varint.ReadTag(s) == Got(10, n)
    ensures var str := ReadString(s[n..], lim.max);
            if str.Malformed? || !Utf8.Valid(str.value) then goal == Failed
            else Remains(goal, done + n + str.used, m.(text := str.value), s[n + str.used..], lim)
  {
    ParseTextField(m, s, n, lim);
  }

  lemma UnknownRemains(goal: Result, done: nat, m: Message, s: bytes, tag: nat, n: nat, lim: Limits)
    requires Remains(goal, done, m, s, lim)
    requires Varint.ReadTag(s) == Got(tag, n) && tag != 10 && tag != 0 && tag % 8 != 4
    ensures var field := ParseField(tag, s[n..], lim.max, lim.depth);
            if field.Malformed? then goal == Failed
            else Remains(goal, done + n + field.used,
                         m.(unknown := m.unknown + [field.value]), s[n + field.used..], lim)
  {
    ParseUnknownField(m, s, tag, n, lim);
  }

  class HelloMessage {
    var text: bytes
    var unknown: seq<Field>
    var cachedSize: int

    ghost function Content(): (m: Message)
      reads `text, `unknown
    {
      Message(text, unknown)
    }

    constructor ()
      ensures Content() == EMPTY && cachedSize == 0
    {
      text, unknown, cachedSize := [], [], 0;
    }

    constructor Copy(from: HelloMessage)
      ensures Content() == from.Content() && cachedSize == 0
    {
      text, unknown, cachedSize := [], from.unknown, 0;
      new;
      if from.text != [] {
        text := from.text;
      }
    }

    method SetText(value: bytes)
      modifies `text
      ensures Content() == old(Content()).(text := value)
    {
      text := value;
    }

    method Clear()
      modifies `text, `unknown
      ensures Content() == EMPTY
    {
      text := [];
      unknown := [];
    }

    method MergeFrom(from: HelloMessage)
      requires from != this
      modifies `text, `unknown
      ensures Content() == Merge(old(Content()), from.Content())
    {
      if from.text != [] {
        text := from.text;
      }
      unknown := unknown + from.unknown;
    }

    method CopyFrom(from: HelloMessage)
      modifies `text, `unknown
      ensures Content() == old(from.Content())
    {
      if from == this {
        return;
      }
      Clear();
      MergeFrom(from);
      MergeMonoid(from.Content(), EMPTY, EMPTY);
    }

    /** The parse loop. The pointer is the input from it to the limit of the parse context, so the
        context is done when nothing is left. A tag that cannot be read comes back as zero with a
        null pointer. */
    method InternalParse(data: bytes, lim: Limits) returns (r: Outcome)
      modifies `text, `unknown
      ensures match Parse(old(Content()), data, lim)
              case Failed => r == Null
              case Parsed(m, end, used) => r == Stop(used, end) && Content() == m
    {
      var ptr := data;
      ghost var m, goal := Content(), Parse(Content(), data, lim);
      while ptr != []
        invariant text == m.text && unknown == m.unknown && |ptr| <= |data|
        invariant Remains(goal, |data| - |ptr|, m, ptr, lim)
        decreases |ptr|
      {
        var read := Varint.ReadTag(ptr);
        var tag := if read.Got? then read.value else 0;
        if tag / 8 == 1 && tag % 256 == 10 {
          assert tag == 10;
          TextRemains(goal, |data| - |ptr|, m, ptr, read.used, lim);
          var str := ReadString(ptr[read.used..], lim.max);
          if str.Malformed? {
            return Null;
          }
          text := str.value;
          if !Utf8.Valid(text) {
            return Null;
          }
          m := m.(text := str.value);
          ptr := ptr[read.used + str.used..];
        } else {
          if tag == 0 || tag % 8 == 4 {
            ParseStops(m, ptr, lim);
            if read.Malformed? {
              return Null;
            }
            return Stop(|data| - |ptr| + read.used, Stopped(tag));
          }
          UnknownRemains(goal, |data| - |ptr|, m, ptr, tag, read.used, lim);
          var field := ParseField(tag, ptr[read.used..], lim.max, lim.depth);
          if field.Malformed? {
            return Null;
          }
          unknown := unknown + [field.value];
          m := m.(unknown := m.unknown + [field.value]);
          ptr := ptr[read.used + field.used..];
        }
      }
      ParseStops(m, ptr, lim);
      return Stop(|data|, AtLimit);
    }

    /** Sizes the message without writing it, and caches the size. */
    method ByteSizeLong() returns (totalSize: nat)
      modifies `cachedSize
      ensures totalSize == |Serialize(Content())|
      ensures cachedSize == ToCachedSize(totalSize)
    {
      totalSize := 0;
      if text != [] {
        totalSize := totalSize + (1 + DelimitedSize(|text|));
        FieldSizeAgrees(TextField(text));
      }
      FieldsSizeAgrees(unknown);
      if unknown != [] {
        totalSize := totalSize + FieldsSize(unknown);
      }
      cachedSize := ToCachedSize(totalSize);
    }

    /** Writes the message at `target`, leaving the rest of the buffer alone. It checks no bounds: the
        caller makes room for as many bytes as `ByteSizeLong` announces. */
    method InternalSerialize(target: nat, stream: array<byte>) returns (next: nat)
      requires target + |Serialize(Content())| <= stream.Length
      modifies stream
      ensures next == target + |Serialize(Content())|
      ensures stream[..] == old(stream[..target]) + Serialize(Content()) + old(stream[next..])
    {
      next := target;
      ghost var head: bytes := [];
      if text != [] {
        head := Emit(TextField(text));
        next := WriteString(1, text, next, stream);
      }
      SpliceTwice(old(stream[..]), target, head, EmitAll(unknown));
      SpliceIs(old(stream[..]), target, Serialize(Content()));
      if unknown != [] {
        next := WriteFields(unknown, next, stream);
      }
    }

    /** Allocates exactly what `ByteSizeLong` announces and fills it. */
    method SerializeAsString() returns (s: bytes)
      modifies `cachedSize
      ensures s == Serialize(Content())
    {
      var size := ByteSizeLong();
      var stream := new byte[size];
      var next := InternalSerialize(0, stream);
      s := stream[..];
    }
  }
}
