/**
 The text form of a cursor: URL-safe base64 (section 5 of RFC 4648) with the padding stripped,
 and put back before decoding (section 3.2). The JSON text inside is an arbitrary byte string.
 */
module CursorCodec {
  import opened Wrappers

  type Byte = b: int | 0 <= b < 256
  type Sextet = s: int | 0 <= s < 64

  const PAD: char := '='

  /** The URL and filename safe alphabet: A-Z, a-z, 0-9, '-', '_'. */
  function CharOf(s: Sextet): char {
    if s < 26 then ('A' as int + s) as char
    else if s < 52 then ('a' as int + (s - 26)) as char
    else if s < 62 then ('0' as int + (s - 52)) as char
    else if s == 62 then '-'
    else '_'
  }

  function SextetOf(c: char): Option<Sextet> {
    if 'A' <= c <= 'Z' then Some(c as int - 'A' as int)
    else if 'a' <= c <= 'z' then Some(c as int - 'a' as int + 26)
    else if '0' <= c <= '9' then Some(c as int - '0' as int + 52)
    else if c == '-' then Some(62)
    else if c == '_' then Some(63)
    else None
  }

  predicate InAlphabet(s: string) {
    forall i | 0 <= i < |s| :: SextetOf(s[i]).Some?
  }

  lemma AlphabetInverse(n: Sextet)
    ensures SextetOf(CharOf(n)) == Some(n) && CharOf(n) != PAD
  {
  }

  lemma AlphabetOnto(c: char)
    requires SextetOf(c).Some?
    ensures CharOf(SextetOf(c).value) == c
  {
  }

  /** Three bytes are four characters. */
  function Group(b0: Byte, b1: Byte, b2: Byte): string {
    [CharOf(b0 / 4), CharOf(b0 % 4 * 16 + b1 / 16), CharOf(b1 % 16 * 4 + b2 / 64), CharOf(b2 % 64)]
  }

  /** base64.urlsafe_b64encode */
  function Encode(b: seq<Byte>): string {
    if |b| == 0 then []
    else if |b| == 1 then [CharOf(b[0] / 4), CharOf(b[0] % 4 * 16), PAD, PAD]
    else if |b| == 2 then [CharOf(b[0] / 4), CharOf(b[0] % 4 * 16 + b[1] / 16), CharOf(b[1] % 16 * 4), PAD]
    else Group(b[0], b[1], b[2]) + Encode(b[3..])
  }

  /** base64.urlsafe_b64decode on the alphabet; padding may only end the last group, and unused bits are ignored. */
  function Decode(s: string): Option<seq<Byte>> {
    if |s| == 0 then Some([])
    else if |s| < 4 || SextetOf(s[0]).None? || SextetOf(s[1]).None? then None
    else
      var v0, v1 := SextetOf(s[0]).value, SextetOf(s[1]).value;
      var b0: Byte := v0 * 4 + v1 / 16;
      if s[2] == PAD then
        if |s| == 4 && s[3] == PAD then Some([b0]) else None
      else if SextetOf(s[2]).None? then None
      else
        var v2 := SextetOf(s[2]).value;
        var b1 := v1 % 16 * 16 + v2 / 4;
        if s[3] == PAD then
          if |s| == 4 then Some([b0, b1]) else None
        else if SextetOf(s[3]).None? then None
        else
          var rest := Decode(s[4..]);
          if rest.None? then None
          else Some([b0, b1, v2 % 4 * 64 + SextetOf(s[3]).value] + rest.value)
  }

  /** .rstrip("=") */
  function Strip(s: string): string {
    if s != [] && s[|s| - 1] == PAD then Strip(s[..|s| - 1]) else s
  }

  function Pads(n: nat): string {
    if n == 0 then [] else Pads(n - 1) + [PAD]
  }

  /** cursor + "=" * (-len(cursor) % 4) */
  function Repad(s: string): string {
    s + Pads((-|s|) % 4)
  }

  /** encode_cursor and encode_cursor_ext, from the bytes of the JSON text on */
  function EncodeCursor(b: seq<Byte>): string {
    Strip(Encode(b))
  }

  /** decode_cursor and decode_cursor_ext, up to the bytes of the JSON text */
  function DecodeCursor(s: string): Option<seq<Byte>> {
    Decode(Repad(s))
  }

  lemma GroupDecoded(b0: Byte, b1: Byte, b2: Byte)
    ensures var v0, v1, v2, v3 := b0 / 4, b0 % 4 * 16 + b1 / 16, b1 % 16 * 4 + b2 / 64, b2 % 64;
      && 0 <= v0 < 64 && 0 <= v1 < 64 && 0 <= v2 < 64 && 0 <= v3 < 64
      && v0 * 4 + v1 / 16 == b0 && v1 % 16 * 16 + v2 / 4 == b1 && v2 % 4 * 64 + v3 == b2
  {
  }

  lemma DecodeGroup(b0: Byte, b1: Byte, b2: Byte, rest: string)
    requires Decode(rest).Some?
    ensures Decode(Group(b0, b1, b2) + rest) == Some([b0, b1, b2] + Decode(rest).value)
  {
    hide CharOf, SextetOf;
    GroupDecoded(b0, b1, b2);
    AlphabetInverse(b0 / 4);
    AlphabetInverse(b0 % 4 * 16 + b1 / 16);
    AlphabetInverse(b1 % 16 * 4 + b2 / 64);
    AlphabetInverse(b2 % 64);
    assert (Group(b0, b1, b2) + rest)[4..] == rest;
  }

  lemma DecodeOne(b0: Byte)
    ensures Decode(Encode([b0])) == Some([b0])
  {
    hide CharOf, SextetOf;
    GroupDecoded(b0, 0, 0);
    var v0: Sextet, v1: Sextet := b0 / 4, b0 % 4 * 16;
    AlphabetInverse(v0);
    AlphabetInverse(v1);
    assert Encode([b0]) == [CharOf(v0), CharOf(v1), PAD, PAD];
    assert v0 * 4 + v1 / 16 == b0;
  }

  lemma DecodeTwo(b0: Byte, b1: Byte)
    ensures Decode(Encode([b0, b1])) == Some([b0, b1])
  {
    hide CharOf, SextetOf;
    GroupDecoded(b0, b1, 0);
    var v0: Sextet, v1: Sextet, v2: Sextet := b0 / 4, b0 % 4 * 16 + b1 / 16, b1 % 16 * 4;
    AlphabetInverse(v0);
    AlphabetInverse(v1);
    AlphabetInverse(v2);
    assert Encode([b0, b1]) == [CharOf(v0), CharOf(v1), CharOf(v2), PAD];
    assert v0 * 4 + v1 / 16 == b0 && v1 % 16 * 16 + v2 / 4 == b1;
  }

  lemma DecodeEmpty()
    ensures Decode([]) == Some([])
  {
  }

  lemma {:induction false} DecodeEncoded(b: seq<Byte>)
    ensures Decode(Encode(b)) == Some(b)
  {
    hide CharOf, SextetOf, Group, Encode, Decode;
    if |b| == 0 {
      EncodeEmpty();
      DecodeEmpty();
    } else if |b| == 1 {
      assert b == [b[0]];
      DecodeOne(b[0]);
    } else if |b| == 2 {
      assert b == [b[0], b[1]];
      DecodeTwo(b[0], b[1]);
    } else {
      DecodeEncoded(b[3..]);
      EncodeStep(b);
      DecodeGroup(b[0], b[1], b[2], Encode(b[3..]));
      assert b == [b[0], b[1], b[2]] + b[3..];
    }
  }

  /** The text has whole groups of four; the padding is 0, 2 or 1 characters and the byte count decides which. */
  function PadCount(n: nat): nat {
    if n % 3 == 0 then 0 else 3 - n % 3
  }

  lemma PadsSmall()
    ensures Pads(0) == [] && Pads(1) == [PAD] && Pads(2) == [PAD, PAD] && Pads(3) == [PAD, PAD, PAD]
  {
    assert Pads(1) == Pads(0) + [PAD];
    assert Pads(2) == Pads(1) + [PAD];
    assert Pads(3) == Pads(2) + [PAD];
  }

  lemma TailShape(b: seq<Byte>)
    requires |b| == 1 || |b| == 2
    ensures Encode(b) == Encode(b)[..|b| + 1] + Pads(PadCount(|b|)) && |Encode(b)| == 4
    ensures Encode(b)[|b|] != PAD && InAlphabet(Encode(b)[..|b| + 1])
  {
    hide CharOf, SextetOf, Pads;
    PadsSmall();
    AlphabetInverse(b[0] / 4);
    if |b| == 1 {
      AlphabetInverse(b[0] % 4 * 16);
      assert Encode(b) == [CharOf(b[0] / 4), CharOf(b[0] % 4 * 16)] + [PAD, PAD];
    } else {
      AlphabetInverse(b[0] % 4 * 16 + b[1] / 16);
      AlphabetInverse(b[1] % 16 * 4);
    }
  }

  lemma GroupShape(b0: Byte, b1: Byte, b2: Byte)
    ensures |Group(b0, b1, b2)| == 4 && Group(b0, b1, b2)[3] != PAD && InAlphabet(Group(b0, b1, b2))
  {
    AlphabetInverse(b0 / 4);
    AlphabetInverse(b0 % 4 * 16 + b1 / 16);
    AlphabetInverse(b1 % 16 * 4 + b2 / 64);
    AlphabetInverse(b2 % 64);
  }

  lemma EncodeStep(b: seq<Byte>)
    requires |b| > 2
    ensures Encode(b) == Group(b[0], b[1], b[2]) + Encode(b[3..])
  {
    hide CharOf, Group;
  }

  lemma RemaindersStep(n: nat, m: nat)
    requires n >= 3
    ensures (n - 3) % 3 == n % 3 && (m + 4) % 4 == m % 4
  {
  }

  lemma {:induction false} EncodedShape(b: seq<Byte>) returns (body: string)
    ensures Encode(b) == body + Pads(PadCount(|b|))
    ensures (body == [] || body[|body| - 1] != PAD) && |body| % 4 == (if |b| % 3 == 0 then 0 else |b| % 3 + 1)
    ensures InAlphabet(body)
  {
    hide CharOf, SextetOf, Pads, Encode, Group;
    if |b| == 0 {
      PadsSmall();
      EncodeEmpty();
      body := [];
    } else if |b| <= 2 {
      TailShape(b);
      body := Encode(b)[..|b| + 1];
    } else {
      var rest := EncodedShape(b[3..]);
      GroupShape(b[0], b[1], b[2]);
      EncodeStep(b);
      RemaindersStep(|b|, |rest|);
      var group, pads := Group(b[0], b[1], b[2]), Pads(PadCount(|b|));
      body := group + rest;
      assert group + (rest + pads) == body + pads;
    }
  }

  lemma EncodeEmpty()
    ensures Encode([]) == []
  {
  }

  lemma {:induction false} StripPads(s: string, n: nat)
    requires s == [] || s[|s| - 1] != PAD
    ensures Strip(s + Pads(n)) == s
  {
    if n == 0 {
      assert s + Pads(0) == s;
    } else {
      StripPads(s, n - 1);
      assert (s + Pads(n))[..|s + Pads(n)| - 1] == s + Pads(n - 1);
    }
  }

  /** The length of the stripped text determines the padding that was stripped. */
  lemma RepadRestores(b: seq<Byte>)
    ensures Repad(EncodeCursor(b)) == Encode(b)
  {
    hide Encode, Strip, Pads;
    var body := EncodedShape(b);
    StripPads(body, PadCount(|b|));
    assert EncodeCursor(b) == body;
    assert (-|body|) % 4 == PadCount(|b|);
  }

  /** Every byte string survives encoding, stripping, re-padding and decoding. */
  lemma CursorRoundTrip(b: seq<Byte>)
    ensures DecodeCursor(EncodeCursor(b)) == Some(b)
  {
    RepadRestores(b);
    DecodeEncoded(b);
  }

  // ---- Which texts are cursors ----

  /** The bits of the last group that carry no data are zero. */
  predicate SpareBitsZero(s: string) {
    if |s| < 4 then true
    else if |s| > 4 then SpareBitsZero(s[4..])
    else if s[2] == PAD then SextetOf(s[1]).Some? && SextetOf(s[1]).value % 16 == 0
    else if s[3] == PAD then SextetOf(s[2]).Some? && SextetOf(s[2]).value % 4 == 0
    else true
  }

  lemma GroupReencoded(v0: Sextet, v1: Sextet, v2: Sextet, v3: Sextet)
    ensures var b0, b1, b2 := v0 * 4 + v1 / 16, v1 % 16 * 16 + v2 / 4, v2 % 4 * 64 + v3;
      && 0 <= b0 < 256 && 0 <= b1 < 256 && 0 <= b2 < 256
      && b0 / 4 == v0 && b0 % 4 * 16 + b1 / 16 == v1 && b1 % 16 * 4 + b2 / 64 == v2 && b2 % 64 == v3
      && (b0 % 4 * 16 == v1 <==> v1 % 16 == 0)
      && (b1 % 16 * 4 == v2 <==> v2 % 4 == 0)
  {
  }

  lemma CharsDiffer(m: Sextet, n: Sextet)
    ensures CharOf(m) == CharOf(n) <==> m == n
  {
    AlphabetInverse(m);
    AlphabetInverse(n);
  }

  lemma LastGroupOfOne(c0: char, c1: char)
    requires SextetOf(c0).Some? && SextetOf(c1).Some?
    ensures var s := [c0, c1, PAD, PAD];
      Decode(s).Some? && (Encode(Decode(s).value) == s <==> SextetOf(c1).value % 16 == 0)
  {
    hide CharOf, SextetOf;
    var v0: int, v1: int := SextetOf(c0).value, SextetOf(c1).value;
    AlphabetOnto(c0);
    AlphabetOnto(c1);
    GroupReencoded(v0, v1, 0, 0);
    var b0: Byte := v0 * 4 + v1 / 16;
    CharsDiffer(b0 % 4 * 16, v1);
    assert Encode([b0]) == [c0, CharOf(b0 % 4 * 16), PAD, PAD];
  }

  lemma LastGroupOfTwo(c0: char, c1: char, c2: char)
    requires SextetOf(c0).Some? && SextetOf(c1).Some? && SextetOf(c2).Some? && c2 != PAD
    ensures var s := [c0, c1, c2, PAD];
      Decode(s).Some? && (Encode(Decode(s).value) == s <==> SextetOf(c2).value % 4 == 0)
  {
    hide CharOf, SextetOf;
    var v0: int, v1: int, v2: int := SextetOf(c0).value, SextetOf(c1).value, SextetOf(c2).value;
    AlphabetOnto(c0);
    AlphabetOnto(c1);
    AlphabetOnto(c2);
    GroupReencoded(v0, v1, v2, 0);
    var b0: Byte, b1: Byte := v0 * 4 + v1 / 16, v1 % 16 * 16 + v2 / 4;
    CharsDiffer(b1 % 16 * 4, v2);
    assert Encode([b0, b1]) == [c0, c1, CharOf(b1 % 16 * 4), PAD];
  }

  lemma FullGroup(c0: char, c1: char, c2: char, c3: char)
    requires SextetOf(c0).Some? && SextetOf(c1).Some? && SextetOf(c2).Some? && SextetOf(c3).Some?
    ensures var v0, v1, v2, v3 := SextetOf(c0).value, SextetOf(c1).value, SextetOf(c2).value, SextetOf(c3).value;
      Group(v0 * 4 + v1 / 16, v1 % 16 * 16 + v2 / 4, v2 % 4 * 64 + v3) == [c0, c1, c2, c3]
  {
    hide CharOf, SextetOf;
    AlphabetOnto(c0);
    AlphabetOnto(c1);
    AlphabetOnto(c2);
    AlphabetOnto(c3);
    GroupReencoded(SextetOf(c0).value, SextetOf(c1).value, SextetOf(c2).value, SextetOf(c3).value);
  }

  /** Re-encoding what a padded text decodes to gives the text back exactly when its spare bits are zero. */
  lemma {:induction false} EncodeDecoded(s: string)
    requires Decode(s).Some?
    ensures Encode(Decode(s).value) == s <==> SpareBitsZero(s)
    decreases |s|
  {
    hide CharOf, SextetOf, Group;
    if s != [] {
      if s[2] == PAD {
        assert s == [s[0], s[1], PAD, PAD];
        LastGroupOfOne(s[0], s[1]);
      } else if s[3] == PAD {
        assert s == [s[0], s[1], s[2], PAD];
        LastGroupOfTwo(s[0], s[1], s[2]);
      } else {
        var b := Decode(s).value;
        EncodeDecoded(s[4..]);
        FullGroup(s[0], s[1], s[2], s[3]);
        assert b[3..] == Decode(s[4..]).value;
        assert Encode(b) == [s[0], s[1], s[2], s[3]] + Encode(b[3..]);
        assert s == [s[0], s[1], s[2], s[3]] + s[4..];
        assert Encode(b)[4..] == Encode(b[3..]);
        assert |s| == 4 ==> s[4..] == [];
      }
    }
  }

  lemma DecodeFour(t: string)
    requires |t| == 4
    ensures Decode(t).Some? <==>
      && SextetOf(t[0]).Some? && SextetOf(t[1]).Some?
      && if t[2] == PAD then t[3] == PAD
         else SextetOf(t[2]).Some? && (t[3] == PAD || SextetOf(t[3]).Some?)
  {
    hide SextetOf;
    assert t[4..] == [];
    DecodeEmpty();
  }

  lemma ShortDecodes(s: string, k: nat)
    requires InAlphabet(s) && k < 4 && (|s| + k) % 4 == 0 && |s| < 4
    ensures Decode(s + Pads(k)).Some? <==> k != 3
  {
    hide SextetOf, Pads, Decode;
    PadsSmall();
    PadOutside();
    var t := s + Pads(k);
    if s == [] {
      assert t == [];
      DecodeEmpty();
    } else {
      assert |t| == 4 && forall i | 0 <= i < 4 :: t[i] == if i < |s| then s[i] else PAD;
      DecodeFour(t);
    }
  }

  /** A text over the alphabet decodes, once padded, unless it has one character too many. */
  lemma {:induction false} AlphabetDecodes(s: string, k: nat)
    requires InAlphabet(s) && k < 4 && (|s| + k) % 4 == 0
    ensures Decode(s + Pads(k)).Some? <==> k != 3
    decreases |s|
  {
    hide SextetOf, Pads;
    if |s| < 4 {
      ShortDecodes(s, k);
    } else {
      AlphabetDecodes(s[4..], k);
      PadOutside();
      assert (s + Pads(k))[4..] == s[4..] + Pads(k);
    }
  }

  lemma PadOutside()
    ensures SextetOf(PAD).None?
  {
  }

  /**
   Which texts this API issues as cursors, out of all texts: those over the alphabet whose
   length is not one more than a multiple of four and whose spare bits are zero; and such a
   text is issued for the bytes it decodes to only. No decoder is involved in the condition.
   */
  lemma CanonicalCursor(s: string)
    ensures (exists b :: EncodeCursor(b) == s) <==> InAlphabet(s) && |s| % 4 != 1 && SpareBitsZero(Repad(s))
    ensures forall b | EncodeCursor(b) == s :: DecodeCursor(s) == Some(b)
  {
    hide Encode, Decode, Strip, Pads, SpareBitsZero, SextetOf;
    forall b | EncodeCursor(b) == s ensures DecodeCursor(s) == Some(b) {
      CursorRoundTrip(b);
    }
    if b :| EncodeCursor(b) == s {
      var body := EncodedShape(b);
      StripPads(body, PadCount(|b|));
      RepadRestores(b);
      CursorRoundTrip(b);
      EncodeDecoded(Repad(s));
    }
    if InAlphabet(s) && |s| % 4 != 1 && SpareBitsZero(Repad(s)) {
      AlphabetDecodes(s, (-|s|) % 4);
      var b := DecodeCursor(s).value;
      EncodeDecoded(Repad(s));
      PadOutside();
      StripRepad(s);
      assert EncodeCursor(b) == s;
    }
  }

  lemma StripRepad(s: string)
    requires s == [] || s[|s| - 1] != PAD
    ensures Strip(Repad(s)) == s
  {
    StripPads(s, (-|s|) % 4);
  }
}
