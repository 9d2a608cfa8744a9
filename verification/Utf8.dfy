/** UTF-8 as RFC 3629 defines it: section 4 gives the grammar of one character.
    The generated parser refuses a string field that is not well-formed UTF-8. */
module Utf8 {
  import opened Bytes

  predicate Tail(b: byte) {
    0x80 <= b <= 0xBF
  }

  /** The length of the well-formed character `s` starts with, or 0 when it starts with none. */
  function CharLength(s: bytes): (n: nat)
    ensures n <= |s|
  {
    if |s| >= 1 && s[0] <= 0x7F then 1
    else if |s| >= 2 && 0xC2 <= s[0] <= 0xDF && Tail(s[1]) then 2
    else if |s| >= 3 && Tail(s[2])
         && (|| (s[0] == 0xE0 && 0xA0 <= s[1] <= 0xBF)
             || (0xE1 <= s[0] <= 0xEC && Tail(s[1]))
             || (s[0] == 0xED && 0x80 <= s[1] <= 0x9F)
             || (0xEE <= s[0] <= 0xEF && Tail(s[1]))) then 3
    else if |s| >= 4 && Tail(s[2]) && Tail(s[3])
         && (|| (s[0] == 0xF0 && 0x90 <= s[1] <= 0xBF)
             || (0xF1 <= s[0] <= 0xF3 && Tail(s[1]))
             || (s[0] == 0xF4 && 0x80 <= s[1] <= 0x8F)) then 4
    else 0
  }

  predicate Valid(s: bytes)
    decreases |s|
  {
    s == [] || (CharLength(s) > 0 && Valid(s[CharLength(s)..]))
  }

  /** No character is a proper prefix of another, so what follows a character never changes it. */
  lemma CharLengthStable(s: bytes, t: bytes)
    requires CharLength(s) > 0
    ensures CharLength(s + t) == CharLength(s)
  {
  }

  /** After a valid prefix, the whole is valid exactly when the rest is. */
  lemma {:induction false} ValidConcat(s: bytes, t: bytes)
    requires Valid(s)
    ensures Valid(s + t) <==> Valid(t)
    decreases |s|
  {
    if s == [] {
      assert s + t == t;
    } else {
      CharLengthStable(s, t);
      assert (s + t)[CharLength(s)..] == s[CharLength(s)..] + t;
      ValidConcat(s[CharLength(s)..], t);
    }
  }

  // ----- The encoded characters -----

  /** Unicode scalar values: surrogates are not characters. */
  type CodePoint = c: int | 0 <= c < 0xD800 || 0xE000 <= c < 0x110000

  /** The encoding of section 3: the fewest bytes that hold the character. */
  function Encode(c: CodePoint): (s: bytes) {
    if c < 0x80 then [c]
    else if c < 0x800 then [0xC0 + c / 64, 0x80 + c % 64]
    else if c < 0x10000 then [0xE0 + c / 4096, 0x80 + c / 64 % 64, 0x80 + c % 64]
    else [0xF0 + c / 262144, 0x80 + c / 4096 % 64, 0x80 + c / 64 % 64, 0x80 + c % 64]
  }

  function EncodeAll(cs: seq<CodePoint>): (s: bytes) {
    if cs == [] then [] else Encode(cs[0]) + EncodeAll(cs[1..])
  }

  /** The bits of a byte above its mark. */
  function Bits(b: byte, mark: int): (v: int) {
    b as int - mark
  }

  function Decode(s: bytes): (c: CodePoint)
    requires CharLength(s) > 0
  {
    match CharLength(s)
    case 1 => s[0]
    case 2 => Bits(s[0], 0xC0) * 64 + Bits(s[1], 0x80)
    case 3 => (Bits(s[0], 0xE0) * 64 + Bits(s[1], 0x80)) * 64 + Bits(s[2], 0x80)
    case _ => ((Bits(s[0], 0xF0) * 64 + Bits(s[1], 0x80)) * 64 + Bits(s[2], 0x80)) * 64 + Bits(s[3], 0x80)
  }

  lemma EncodeTwo(h: nat, l: nat)
    requires 2 <= h < 32 && l < 64
    ensures Encode(h * 64 + l) == [0xC0 + h, 0x80 + l]
  {
  }

  lemma EncodeThree(h: nat, m: nat, l: nat)
    requires h < 16 && m < 64 && l < 64
    requires var c := (h * 64 + m) * 64 + l; 0x800 <= c < 0xD800 || 0xE000 <= c
    ensures Encode((h * 64 + m) * 64 + l) == [0xE0 + h, 0x80 + m, 0x80 + l]
  {
    var c := (h * 64 + m) * 64 + l;
    assert c / 64 == h * 64 + m && c / 4096 == h;
  }

  lemma EncodeFour(h: nat, m: nat, n: nat, l: nat)
    requires h < 5 && m < 64 && n < 64 && l < 64
    requires 0x10000 <= ((h * 64 + m) * 64 + n) * 64 + l < 0x110000
    ensures Encode(((h * 64 + m) * 64 + n) * 64 + l) == [0xF0 + h, 0x80 + m, 0x80 + n, 0x80 + l]
  {
    var c := ((h * 64 + m) * 64 + n) * 64 + l;
    assert c / 64 == (h * 64 + m) * 64 + n && c / 4096 == h * 64 + m && c / 262144 == h;
  }

  lemma EncodeDecoded(s: bytes)
    requires CharLength(s) > 0
    ensures Encode(Decode(s)) == s[..CharLength(s)]
  {
    var n := CharLength(s);
    if n == 2 {
      EncodeTwo(s[0] - 0xC0, s[1] - 0x80);
    } else if n == 3 {
      EncodeThree(s[0] - 0xE0, s[1] - 0x80, s[2] - 0x80);
    } else if n == 4 {
      EncodeFour(s[0] - 0xF0, s[1] - 0x80, s[2] - 0x80, s[3] - 0x80);
    }
  }

  lemma EncodedIsChar(c: CodePoint)
    ensures CharLength(Encode(c)) == |Encode(c)| > 0
  {
  }

  lemma {:induction false} EncodedIsValid(cs: seq<CodePoint>)
    ensures Valid(EncodeAll(cs))
  {
    if cs != [] {
      var first, rest := Encode(cs[0]), EncodeAll(cs[1..]);
      EncodedIsChar(cs[0]);
      CharLengthStable(first, rest);
      EncodedIsValid(cs[1..]);
      assert (first + rest)[|first|..] == rest;
    }
  }

  lemma {:induction false} Characters(s: bytes) returns (cs: seq<CodePoint>)
    requires Valid(s)
    ensures s == EncodeAll(cs)
    decreases |s|
  {
    if s == [] {
      cs := [];
    } else {
      var rest := Characters(s[CharLength(s)..]);
      EncodeDecoded(s);
      cs := [Decode(s)] + rest;
      assert cs[1..] == rest;
    }
  }

  lemma OneChar(s: bytes)
    requires s != []
    ensures CharLength(s) == |s| ==> Valid(s)
    ensures CharLength(s) == 0 ==> !Valid(s)
  {
    if CharLength(s) == |s| {
      assert s[|s|..] == [];
    }
  }

  /** The first and last characters of each length are valid; overlong forms, surrogates, numbers past
      the last character and stray or missing tail bytes are not. */
  lemma Boundaries()
    ensures Valid([0x00]) && Valid([0x7F]) && Valid([0xC2, 0x80]) && Valid([0xDF, 0xBF])
    ensures Valid([0xE0, 0xA0, 0x80]) && Valid([0xED, 0x9F, 0xBF])
    ensures Valid([0xEE, 0x80, 0x80]) && Valid([0xEF, 0xBF, 0xBF])
    ensures Valid([0xF0, 0x90, 0x80, 0x80]) && Valid([0xF4, 0x8F, 0xBF, 0xBF])
    ensures !Valid([0x80]) && !Valid([0xC1, 0xBF]) && !Valid([0xE0, 0x9F, 0xBF]) && !Valid([0xF0, 0x8F, 0xBF, 0xBF])
    ensures !Valid([0xED, 0xA0, 0x80]) && !Valid([0xED, 0xBF, 0xBF]) && !Valid([0xF4, 0x90, 0x80, 0x80])
    ensures !Valid([0xC2]) && !Valid([0xC2, 0x7F]) && !Valid([0xC2, 0xC0]) && !Valid([0xF5, 0x80, 0x80, 0x80])
  {
    OneChar([0x00]); OneChar([0x7F]); OneChar([0xC2, 0x80]); OneChar([0xDF, 0xBF]);
    OneChar([0xE0, 0xA0, 0x80]); OneChar([0xED, 0x9F, 0xBF]); OneChar([0xEE, 0x80, 0x80]); OneChar([0xEF, 0xBF, 0xBF]);
    OneChar([0xF0, 0x90, 0x80, 0x80]); OneChar([0xF4, 0x8F, 0xBF, 0xBF]);
    OneChar([0x80]); OneChar([0xC1, 0xBF]); OneChar([0xE0, 0x9F, 0xBF]); OneChar([0xF0, 0x8F, 0xBF, 0xBF]);
    OneChar([0xED, 0xA0, 0x80]); OneChar([0xED, 0xBF, 0xBF]); OneChar([0xF4, 0x90, 0x80, 0x80]);
    OneChar([0xC2]); OneChar([0xC2, 0x7F]); OneChar([0xC2, 0xC0]); OneChar([0xF5, 0x80, 0x80, 0x80]);
  }

  /** A string is valid exactly when it is the encoding of some characters. */
  lemma ValidIsEncoded(s: bytes)
    ensures Valid(s) <==> exists cs :: s == EncodeAll(cs)
  {
    if Valid(s) {
      var cs := Characters(s);
    }
    if cs :| s == EncodeAll(cs) {
      EncodedIsValid(cs);
    }
  }
}
