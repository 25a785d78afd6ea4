/**
 * The text form of packet values: printable bytes as they are, the backslash doubled, and every other byte as
 * `\x` with two hex digits; and the decoder's state machine.
 */
module UartCodec {
  import opened Bytes

  const BACKSLASH: byte := 0x5c
  const LOWER_X: byte := 0x78
  const UPPER_X: byte := 0x58

  predicate IsWord(c: byte) {
    0x20 <= c < 0x7F
  }

  /** A lower-case hex digit. */
  function HexDigit(n: int): byte
    requires 0 <= n < 16
  {
    if n < 10 then 0x30 + n else 0x61 + n - 10
  }

  /** The value of a hex digit in either case. */
  function HexValue(c: byte): Option<nat> {
    if 0x30 <= c <= 0x39 then Some(c - 0x30)
    else if 0x61 <= c <= 0x66 then Some(c - 0x61 + 10)
    else if 0x41 <= c <= 0x46 then Some(c - 0x41 + 10)
    else None
  }

  /** What the decoder takes for a hex digit: `0` to `?`, `a` to `h` and `A` to `H`. */
  predicate TakenForHex(c: byte) {
    0x30 <= c < 0x40 || 0x61 <= c < 0x69 || 0x41 <= c < 0x49
  }

  function EncodeByte(c: byte): seq<byte> {
    if !IsWord(c) then [BACKSLASH, LOWER_X, HexDigit(c / 16), HexDigit(c % 16)]
    else if c == BACKSLASH then [BACKSLASH, BACKSLASH]
    else [c]
  }

  function Encode(raw: seq<byte>): seq<byte> {
    if raw == [] then [] else EncodeByte(raw[0]) + Encode(raw[1..])
  }

  /** The decoder between two bytes; `Failed` is the exception of `bytes.fromhex`. */
  datatype Mode = Normal | Slash | SlashX | Hex(first: byte)
  datatype Decoder = Decoder(out: seq<byte>, mode: Mode) | Failed

  function Take(d: Decoder, c: byte): Decoder
    requires d.Decoder?
  {
    match d.mode
    case Normal => if c == BACKSLASH then d.(mode := Slash) else Decoder(d.out + [c], Normal)
    case Slash =>
      if c == BACKSLASH then Decoder(d.out + [c], Normal)
      else if c == UPPER_X || c == LOWER_X then d.(mode := SlashX)
      else Decoder(d.out + [BACKSLASH, c], Normal)
    case SlashX =>
      if TakenForHex(c) then d.(mode := Hex(c)) else Decoder(d.out + [BACKSLASH, LOWER_X, c], Normal)
    case Hex(h) =>
      if !TakenForHex(c) then Decoder(d.out + [BACKSLASH, LOWER_X, h, c], Normal)
      else match (HexValue(h), HexValue(c))
        case (Some(x), Some(y)) => Decoder(d.out + [16 * x + y], Normal)
        case _ => Failed
  }

  function DecodeFrom(raw: seq<byte>, d: Decoder): Decoder {
    if raw == [] || d.Failed? then d else DecodeFrom(raw[1..], Take(d, raw[0]))
  }

  const START: Decoder := Decoder([], Normal)

  /** An escape that is not finished at the end is dropped. */
  function Decode(raw: seq<byte>): Option<seq<byte>> {
    match DecodeFrom(raw, START)
    case Decoder(out, _) => Some(out)
    case Failed => None
  }

  // ---------------------------------------------------------------- round trip

  lemma {:induction false} DecodeAppend(xs: seq<byte>, ys: seq<byte>, d: Decoder)
    ensures DecodeFrom(xs + ys, d) == DecodeFrom(ys, DecodeFrom(xs, d))
  {
    if xs == [] {
      assert xs + ys == ys;
    } else if d.Decoder? {
      assert (xs + ys)[1..] == xs[1..] + ys;
      DecodeAppend(xs[1..], ys, Take(d, xs[0]));
    }
  }

  lemma HexRoundTrip(c: byte)
    ensures HexValue(HexDigit(c / 16)) == Some(c / 16) && HexValue(HexDigit(c % 16)) == Some(c % 16)
    ensures TakenForHex(HexDigit(c / 16)) && TakenForHex(HexDigit(c % 16))
  {
  }

  lemma DecodeCons(c: byte, rest: seq<byte>, d: Decoder)
    requires d.Decoder?
    ensures DecodeFrom([c] + rest, d) == DecodeFrom(rest, Take(d, c))
  {
    assert ([c] + rest)[1..] == rest;
  }

  lemma EncodedByteDecodes(c: byte, out: seq<byte>)
    ensures DecodeFrom(EncodeByte(c), Decoder(out, Normal)) == Decoder(out + [c], Normal)
  {
    hide DecodeFrom;
    var d := Decoder(out, Normal);
    DecodeNothing(Decoder(out + [c], Normal));
    if !IsWord(c) {
      HexRoundTrip(c);
      var h, l := HexDigit(c / 16), HexDigit(c % 16);
      assert EncodeByte(c) == [BACKSLASH] + ([LOWER_X] + ([h] + ([l] + [])));
      DecodeCons(BACKSLASH, [LOWER_X] + ([h] + ([l] + [])), d);
      DecodeCons(LOWER_X, [h] + ([l] + []), d.(mode := Slash));
      DecodeCons(h, [l] + [], d.(mode := SlashX));
      DecodeCons(l, [], d.(mode := Hex(h)));
      assert 16 * (c / 16) + c % 16 == c;
    } else if c == BACKSLASH {
      assert EncodeByte(c) == [BACKSLASH] + ([BACKSLASH] + []);
      DecodeCons(BACKSLASH, [BACKSLASH] + [], d);
      DecodeCons(BACKSLASH, [], d.(mode := Slash));
    } else {
      assert EncodeByte(c) == [c] + [];
      DecodeCons(c, [], d);
    }
  }

  lemma DecodeNothing(d: Decoder)
    ensures DecodeFrom([], d) == d
  {
  }

  lemma {:induction false} EncodedDecodes(raw: seq<byte>, out: seq<byte>)
    ensures DecodeFrom(Encode(raw), Decoder(out, Normal)) == Decoder(out + raw, Normal)
    decreases |raw|
  {
    if raw == [] {
      assert out + raw == out;
    } else {
      EncodedByteDecodes(raw[0], out);
      DecodeAppend(EncodeByte(raw[0]), Encode(raw[1..]), Decoder(out, Normal));
      EncodedDecodes(raw[1..], out + [raw[0]]);
      assert out + [raw[0]] + raw[1..] == out + raw;
    }
  }

  /** Decoding what was encoded gives the bytes back. */
  lemma DecodeEncode(raw: seq<byte>)
    ensures Decode(Encode(raw)) == Some(raw)
  {
    EncodedDecodes(raw, []);
    assert [] + raw == raw;
  }

  /** What travels is printable. */
  lemma {:induction false} EncodedIsPrintable(raw: seq<byte>)
    ensures forall i :: 0 <= i < |Encode(raw)| ==> IsWord(Encode(raw)[i])
  {
    if raw != [] {
      EncodedIsPrintable(raw[1..]);
    }
  }

  /** Two values never share a text form. */
  lemma EncodeInjective(a: seq<byte>, b: seq<byte>)
    requires Encode(a) == Encode(b)
    ensures a == b
  {
    DecodeEncode(a);
    DecodeEncode(b);
  }

  // ---------------------------------------------------------------- when decoding raises

  /** After `i` bytes no escape is open. */
  predicate Between(raw: seq<byte>, i: int)
    requires 0 <= i <= |raw|
  {
    var d := DecodeFrom(raw[..i], START);
    d.Decoder? && d.mode == Normal
  }

  /** The two digits of a hex escape, one of which `fromhex` does not know. */
  predicate BadDigits(h: byte, l: byte) {
    TakenForHex(h) && TakenForHex(l) && (HexValue(h).None? || HexValue(l).None?)
  }

  predicate HexEscapeAt(raw: seq<byte>, i: int) {
    0 <= i && i + 4 <= |raw| && raw[i] == BACKSLASH && (raw[i + 1] == LOWER_X || raw[i + 1] == UPPER_X)
  }

  /** Outside any other escape, `\x` or `\X` is followed by digits that are taken for hex and are not. */
  predicate BadEscapeAt(raw: seq<byte>, i: int) {
    HexEscapeAt(raw, i) && Between(raw, i) && BadDigits(raw[i + 2], raw[i + 3])
  }

  lemma DecodeSnoc(raw: seq<byte>, n: nat)
    requires n < |raw|
    ensures var d := DecodeFrom(raw[..n], START);
      DecodeFrom(raw[..n + 1], START) == if d.Failed? then d else Take(d, raw[n])
  {
    var d := DecodeFrom(raw[..n], START);
    assert raw[..n + 1] == raw[..n] + [raw[n]];
    DecodeAppend(raw[..n], [raw[n]], START);
    if d.Failed? {
      DecodeFailed([raw[n]]);
    } else {
      assert [raw[n]] == [raw[n]] + [];
      DecodeCons(raw[n], [], d);
    }
  }

  /** The bytes that led to an open escape. */
  ghost predicate OpenSince(raw: seq<byte>, n: nat)
    requires n <= |raw|
  {
    var d := DecodeFrom(raw[..n], START);
    d.Decoder? ==>
      match d.mode
      case Normal => true
      case Slash => n >= 1 && raw[n - 1] == BACKSLASH && Between(raw, n - 1)
      case SlashX =>
        && n >= 2 && raw[n - 2] == BACKSLASH && (raw[n - 1] == LOWER_X || raw[n - 1] == UPPER_X)
        && Between(raw, n - 2)
      case Hex(h) =>
        && n >= 3 && raw[n - 3] == BACKSLASH && (raw[n - 2] == LOWER_X || raw[n - 2] == UPPER_X)
        && raw[n - 1] == h && TakenForHex(h) && Between(raw, n - 3)
  }

  lemma {:induction false} OpenHistory(raw: seq<byte>, n: nat)
    requires n <= |raw|
    ensures OpenSince(raw, n)
    decreases n
  {
    if n > 0 {
      OpenHistory(raw, n - 1);
      DecodeSnoc(raw, n - 1);
    }
    hide DecodeFrom;
  }

  /** A bad escape makes decoding fail, whatever follows. */
  lemma BadEscapeFails(raw: seq<byte>, i: nat)
    requires BadEscapeAt(raw, i)
    ensures DecodeFrom(raw, START) == Failed
  {
    hide DecodeFrom;
    DecodeSnoc(raw, i);
    DecodeSnoc(raw, i + 1);
    DecodeSnoc(raw, i + 2);
    DecodeSnoc(raw, i + 3);
    assert raw == raw[..i + 4] + raw[i + 4..];
    DecodeAppend(raw[..i + 4], raw[i + 4..], START);
    DecodeFailed(raw[i + 4..]);
  }

  lemma {:induction false} FailureHasEscape(raw: seq<byte>, n: nat) returns (i: nat)
    requires n <= |raw| && DecodeFrom(raw[..n], START).Failed?
    ensures BadEscapeAt(raw, i)
    decreases n
  {
    if n == 0 {
      DecodeNothing(START);
    } else {
      hide DecodeFrom;
      DecodeSnoc(raw, n - 1);
      if DecodeFrom(raw[..n - 1], START).Failed? {
        i := FailureHasEscape(raw, n - 1);
      } else {
        OpenHistory(raw, n - 1);
        i := n - 4;
      }
    }
  }

  /** Decoding raises exactly when some escape, met outside any other, has two digits of which one is no hex digit. */
  lemma DecodeRaisesIff(raw: seq<byte>)
    ensures Decode(raw) == None <==> exists i :: BadEscapeAt(raw, i)
  {
    hide BadEscapeAt;
    if Decode(raw) == None {
      assert raw[..|raw|] == raw;
      var i := FailureHasEscape(raw, |raw|);
    }
    forall i: int | BadEscapeAt(raw, i)
      ensures Decode(raw) == None
    {
      BadEscapeNatural(raw, i);
      BadEscapeFails(raw, i);
    }
  }

  lemma BadEscapeNatural(raw: seq<byte>, i: int)
    requires BadEscapeAt(raw, i)
    ensures i >= 0
  {
  }

  /** Bytes that are taken for hex digits and are not: `:` to `?`, and `g` and `h` in either case. */
  lemma TakenWrongly(c: byte)
    ensures TakenForHex(c) && HexValue(c).None? <==> 0x3a <= c <= 0x3f || c in {0x67, 0x68, 0x47, 0x48}
  {
  }

  /** Where none of them occurs decoding never raises. */
  lemma NoWrongDigitNoRaise(raw: seq<byte>)
    requires forall i :: 0 <= i < |raw| && TakenForHex(raw[i]) ==> HexValue(raw[i]).Some?
    ensures Decode(raw).Some?
  {
    DecodeRaisesIff(raw);
    hide Decode, Between;
  }

  /** The shortest kind of input that raises: `\x:0`. */
  lemma ColonRaises()
    ensures Decode([BACKSLASH, LOWER_X, 0x3a, 0x30]) == None
  {
    var raw := [BACKSLASH, LOWER_X, 0x3a, 0x30];
    DecodeNothing(START);
    assert raw[..0] == [];
    assert BadEscapeAt(raw, 0);
    DecodeRaisesIff(raw);
  }

  // ---------------------------------------------------------------- the loops

  lemma {:induction false} EncodeSnoc(raw: seq<byte>, c: byte)
    ensures Encode(raw + [c]) == Encode(raw) + EncodeByte(c)
  {
    if raw == [] {
      assert Encode([c]) == EncodeByte(c) + Encode([]);
    } else {
      assert (raw + [c])[1..] == raw[1..] + [c];
      EncodeSnoc(raw[1..], c);
    }
  }

  /** `bytes_encode`. */
  method BytesEncode(rawBytes: seq<byte>) returns (newRaw: seq<byte>)
    ensures newRaw == Encode(rawBytes)
  {
    newRaw := [];
    for i := 0 to |rawBytes|
      invariant newRaw == Encode(rawBytes[..i])
    {
      var r := rawBytes[i];
      EncodeSnoc(rawBytes[..i], r);
      assert rawBytes[..i + 1] == rawBytes[..i] + [r];
      if !IsWord(r) {
        newRaw := newRaw + [BACKSLASH, LOWER_X, HexDigit(r / 16), HexDigit(r % 16)];
      } else if r == BACKSLASH {
        newRaw := newRaw + [BACKSLASH, BACKSLASH];
      } else {
        newRaw := newRaw + [r];
      }
    }
    assert rawBytes[..|rawBytes|] == rawBytes;
  }

  /** The integer states of `bytes_decode`. */
  function ModeOf(state: int, hex1: byte): Mode {
    if state == 1 then Slash else if state == 2 then SlashX else if state == 3 then Hex(hex1) else Normal
  }

  lemma DecodeStepAt(raw: seq<byte>, i: nat, d: Decoder)
    requires i < |raw| && d.Decoder?
    ensures DecodeFrom(raw[i..], d) == DecodeFrom(raw[i + 1..], Take(d, raw[i]))
  {
    assert raw[i..][1..] == raw[i + 1..];
  }

  /** `bytes_decode`; None is the exception. */
  method BytesDecode(rawBytes: seq<byte>) returns (r: Option<seq<byte>>)
    ensures r == Decode(rawBytes)
  {
    hide DecodeFrom;
    var newRaw: seq<byte>, state: int, hex1: byte := [], 0, 0;
    assert rawBytes[0..] == rawBytes;
    for i := 0 to |rawBytes|
      invariant 0 <= state <= 3
      invariant DecodeFrom(rawBytes, START) ==
        DecodeFrom(rawBytes[i..], Decoder(newRaw, ModeOf(state, hex1)))
    {
      var c := rawBytes[i];
      DecodeStepAt(rawBytes, i, Decoder(newRaw, ModeOf(state, hex1)));
      if state == 1 {
        if c == BACKSLASH {
          newRaw := newRaw + [c];
          state := 0;
        } else if c == UPPER_X || c == LOWER_X {
          state := 2;
        } else {
          newRaw := newRaw + [BACKSLASH, c];
          state := 0;
        }
      } else if state == 2 {
        if TakenForHex(c) {
          hex1 := c;
          state := 3;
        } else {
          newRaw := newRaw + [BACKSLASH, LOWER_X, c];
          state := 0;
        }
      } else if state == 3 {
        if TakenForHex(c) {
          var hexBytes := FromHex(hex1, c);
          if hexBytes.None? {
            DecodeFailed(rawBytes[i + 1..]);
            return None;
          }
          newRaw := newRaw + hexBytes.value;
          state := 0;
        } else {
          newRaw := newRaw + [BACKSLASH, LOWER_X, hex1, c];
          state := 0;
        }
      } else {
        if c == BACKSLASH {
          state := 1;
        } else {
          newRaw := newRaw + [c];
          state := 0;
        }
      }
    }
    assert rawBytes[|rawBytes|..] == [];
    DecodeNothing(Decoder(newRaw, ModeOf(state, hex1)));
    return Some(newRaw);
  }

  /** `bytes.fromhex` of two characters. */
  function FromHex(h: byte, l: byte): Option<seq<byte>> {
    match (HexValue(h), HexValue(l))
    case (Some(x), Some(y)) => Some([16 * x + y])
    case _ => None
  }

  lemma DecodeFailed(raw: seq<byte>)
    ensures DecodeFrom(raw, Failed) == Failed
  {
  }
}
