/** What encoding writes for each byte, and what decoding makes of any text: known, unknown and open escapes. */
module UartForms {
  import opened Bytes
  import opened UartCodec

  // ---------------------------------------------------------------- encoding

  lemma {:induction false} EncodeAppend(a: seq<byte>, b: seq<byte>)
    ensures Encode(a + b) == Encode(a) + Encode(b)
  {
    if a == [] {
      assert a + b == b;
    } else {
      assert (a + b)[1..] == a[1..] + b;
      EncodeAppend(a[1..], b);
    }
  }

  lemma EncodeOne(c: byte)
    ensures Encode([c]) == EncodeByte(c)
  {
    assert Encode([c]) == EncodeByte(c) + Encode([c][1..]);
  }

  /** `0` to `9` and `a` to `f`. */
  predicate LowerHex(c: byte) {
    0x30 <= c <= 0x39 || 0x61 <= c <= 0x66
  }

  /** Space to `~` stay as they are, but for the backslash, which is doubled. */
  lemma {:induction false} PrintableStays(raw: seq<byte>)
    requires forall i :: 0 <= i < |raw| ==> 0x20 <= raw[i] <= 0x7e && raw[i] != 0x5c
    ensures Encode(raw) == raw
  {
    if raw != [] {
      PrintableStays(raw[1..]);
      assert raw == [raw[0]] + raw[1..];
    }
  }

  /** Any other byte becomes `\x` and two lower-case digits, in a text of any bytes. */
  lemma EscapesWritten(before: seq<byte>, c: byte, after: seq<byte>)
    ensures c == 0x5c ==> Encode(before + [c] + after) == Encode(before) + [0x5c, 0x5c] + Encode(after)
    ensures c < 0x20 || c > 0x7e ==> exists h, l ::
      && LowerHex(h) && LowerHex(l) && HexValue(h) == Some(c / 16) && HexValue(l) == Some(c % 16)
      && Encode(before + [c] + after) == Encode(before) + [0x5c, 0x78, h, l] + Encode(after)
  {
    EncodeAppend(before + [c], after);
    EncodeAppend(before, [c]);
    EncodeOne(c);
    if c < 0x20 || c > 0x7e {
      HexRoundTrip(c);
      assert LowerHex(HexDigit(c / 16)) && LowerHex(HexDigit(c % 16));
    }
    hide Encode, HexValue;
  }

  /** The digits in either case. */
  lemma HexDigitsAre(c: byte)
    ensures 0x30 <= c <= 0x39 ==> HexValue(c) == Some(c - 0x30)
    ensures 0x61 <= c <= 0x66 ==> HexValue(c) == Some(c - 0x57) && HexValue(c - 0x20) == Some(c - 0x57)
    ensures HexValue(c).Some? ==> TakenForHex(c)
  {
  }

  // ---------------------------------------------------------------- decoding

  /** What a text consists of. */
  datatype Unit =
    | Plain(c: byte)
    | Doubled
    | Unknown(c: byte)
    | NoDigit(upper: bool, c: byte)
    | OneDigit(upper: bool, h: byte, c: byte)
    | HexByte(upper: bool, h: byte, l: byte)

  function X(upper: bool): byte {
    if upper then 0x58 else 0x78
  }

  predicate UnitOk(u: Unit) {
    match u
    case Plain(c) => c != 0x5c
    case Doubled => true
    case Unknown(c) => c != 0x5c && c != 0x58 && c != 0x78
    case NoDigit(_, c) => !TakenForHex(c)
    case OneDigit(_, h, c) => TakenForHex(h) && !TakenForHex(c)
    case HexByte(_, h, l) => HexValue(h).Some? && HexValue(l).Some?
  }

  function UnitText(u: Unit): seq<byte> {
    match u
    case Plain(c) => [c]
    case Doubled => [0x5c, 0x5c]
    case Unknown(c) => [0x5c, c]
    case NoDigit(upper, c) => [0x5c, X(upper), c]
    case OneDigit(upper, h, c) => [0x5c, X(upper), h, c]
    case HexByte(upper, h, l) => [0x5c, X(upper), h, l]
  }

  /** Unknown escapes stay as they are, but that an upper-case `X` becomes a lower-case one. */
  function UnitValue(u: Unit): seq<byte>
    requires UnitOk(u)
  {
    match u
    case Plain(c) => [c]
    case Doubled => [0x5c]
    case Unknown(c) => [0x5c, c]
    case NoDigit(_, c) => [0x5c, 0x78, c]
    case OneDigit(_, h, c) => [0x5c, 0x78, h, c]
    case HexByte(_, h, l) => [16 * HexValue(h).value + HexValue(l).value]
  }

  predicate UnitsOk(us: seq<Unit>) {
    forall i :: 0 <= i < |us| ==> UnitOk(us[i])
  }

  function Text(us: seq<Unit>): seq<byte> {
    if us == [] then [] else UnitText(us[0]) + Text(us[1..])
  }

  function Value(us: seq<Unit>): seq<byte>
    requires UnitsOk(us)
  {
    if us == [] then [] else UnitValue(us[0]) + Value(us[1..])
  }

  /** An escape that the end of the text leaves open. */
  predicate OpenEscape(tail: seq<byte>) {
    || tail == []
    || tail == [0x5c]
    || (|tail| == 2 && tail[0] == 0x5c && tail[1] in {0x58, 0x78})
    || (|tail| == 3 && tail[0] == 0x5c && tail[1] in {0x58, 0x78} && TakenForHex(tail[2]))
  }

  lemma UnitDecodes(u: Unit, rest: seq<byte>, out: seq<byte>)
    requires UnitOk(u)
    ensures DecodeFrom(UnitText(u) + rest, Decoder(out, Normal)) ==
      DecodeFrom(rest, Decoder(out + UnitValue(u), Normal))
  {
    hide DecodeFrom;
    var d := Decoder(out, Normal);
    match u {
      case Plain(c) => DecodeCons(c, rest, d);
      case Doubled =>
        assert UnitText(u) + rest == [0x5c] + ([0x5c] + rest);
        DecodeCons(0x5c, [0x5c] + rest, d);
        DecodeCons(0x5c, rest, d.(mode := Slash));
      case Unknown(c) =>
        assert UnitText(u) + rest == [0x5c] + ([c] + rest);
        DecodeCons(0x5c, [c] + rest, d);
        DecodeCons(c, rest, d.(mode := Slash));
      case NoDigit(upper, c) =>
        assert UnitText(u) + rest == [0x5c] + ([X(upper)] + ([c] + rest));
        DecodeCons(0x5c, [X(upper)] + ([c] + rest), d);
        DecodeCons(X(upper), [c] + rest, d.(mode := Slash));
        DecodeCons(c, rest, d.(mode := SlashX));
      case OneDigit(upper, h, c) =>
        assert UnitText(u) + rest == [0x5c] + ([X(upper)] + ([h] + ([c] + rest)));
        DigitsDecode(upper, h, c, rest, d);
      case HexByte(upper, h, l) =>
        HexDigitsAre(h);
        HexDigitsAre(l);
        assert UnitText(u) + rest == [0x5c] + ([X(upper)] + ([h] + ([l] + rest)));
        DigitsDecode(upper, h, l, rest, d);
    }
  }

  lemma DigitsDecode(upper: bool, h: byte, c: byte, rest: seq<byte>, d: Decoder)
    requires d.Decoder? && d.mode == Normal && TakenForHex(h)
    ensures DecodeFrom([0x5c] + ([X(upper)] + ([h] + ([c] + rest))), d) == DecodeFrom(rest, Take(d.(mode := Hex(h)), c))
  {
    hide DecodeFrom;
    DecodeCons(0x5c, [X(upper)] + ([h] + ([c] + rest)), d);
    DecodeCons(X(upper), [h] + ([c] + rest), d.(mode := Slash));
    DecodeCons(h, [c] + rest, d.(mode := SlashX));
    DecodeCons(c, rest, d.(mode := Hex(h)));
  }

  /** An open escape adds nothing. */
  lemma OpenDecodes(tail: seq<byte>, out: seq<byte>)
    requires OpenEscape(tail)
    ensures var d := DecodeFrom(tail, Decoder(out, Normal)); d.Decoder? && d.out == out
  {
    hide DecodeFrom;
    var d := Decoder(out, Normal);
    DecodeNothing(d);
    DecodeNothing(d.(mode := Slash));
    DecodeNothing(d.(mode := SlashX));
    if tail != [] {
      assert tail == [tail[0]] + tail[1..];
      DecodeCons(tail[0], tail[1..], d);
      if |tail| > 1 {
        assert tail[1..] == [tail[1]] + tail[2..];
        DecodeCons(tail[1], tail[2..], d.(mode := Slash));
        if |tail| > 2 {
          assert tail[2..] == [tail[2]] + [];
          DecodeCons(tail[2], [], d.(mode := SlashX));
          DecodeNothing(d.(mode := Hex(tail[2])));
        } else {
          assert tail[2..] == [];
        }
      } else {
        assert tail[1..] == [];
      }
    }
  }

  lemma {:induction false} UnitsDecode(us: seq<Unit>, tail: seq<byte>, out: seq<byte>)
    requires UnitsOk(us) && OpenEscape(tail)
    ensures var d := DecodeFrom(Text(us) + tail, Decoder(out, Normal)); d.Decoder? && d.out == out + Value(us)
    decreases |us|
  {
    hide DecodeFrom, UnitText, UnitValue, UnitOk, OpenEscape;
    if us == [] {
      assert Text(us) + tail == tail && out + Value(us) == out;
      OpenDecodes(tail, out);
    } else {
      Associative(UnitText(us[0]), Text(us[1..]), tail);
      Associative(out, UnitValue(us[0]), Value(us[1..]));
      UnitDecodes(us[0], Text(us[1..]) + tail, out);
      UnitsDecode(us[1..], tail, out + UnitValue(us[0]));
    }
  }

  /** A text is decoded unit by unit, and an escape that is open at its end is dropped. */
  lemma TextDecodes(us: seq<Unit>, tail: seq<byte>)
    requires UnitsOk(us) && OpenEscape(tail)
    ensures Decode(Text(us) + tail) == Some(Value(us))
  {
    hide DecodeFrom, Text, Value;
    UnitsDecode(us, tail, []);
    assert [] + Value(us) == Value(us);
  }
}
