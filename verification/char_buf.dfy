/**
 * The character layer of the URI parser: logical characters, their classes
 * (RFC 3986 sections 2.1 to 2.3 as this code implements them), their textual
 * rendering, and the decoder that turns a byte source into logical characters.
 */
module CharBuf {

  /** An unsigned byte, Rust's `u8`. */
  newtype u8 = x: int | 0 <= x < 256

  datatype Option<T> = None | Some(value: T)

  /** The two ways a percent escape can be malformed. */
  datatype DecodeError = InvalidEscape | TruncatedEscape

  /** The crate's `Result`: a value or a decode failure. */
  datatype Result<T> = Ok(value: T) | Err(error: DecodeError)
  {
    predicate IsFailure() { Err? }

    function PropagateFailure<U>(): Result<U>
      requires Err?
    {
      Err(error)
    }

    function Extract(): T
      requires Ok?
    {
      value
    }
  }

  /** A logical URI character: a literal byte, or a percent escape that keeps its two hex bytes as written. */
  datatype Char = Ascii(b: u8) | PctEncoded(hi: u8, lo: u8)
  {
    predicate Is(byte: u8) {
      match this
      case Ascii(b) => b == byte
      case _ => false
    }

    /** pchar = unreserved / pct-encoded / sub-delims / ":" / "@" */
    predicate IsPchar() {
      IsUnreserved() || IsPctEncoded() || IsSubDelim() || Is(':' as u8) || Is('@' as u8)
    }

    predicate IsPctEncoded() {
      match this
      case Ascii(_) => false
      case PctEncoded(_, _) => true
    }

    predicate IsUnreserved() {
      match this
      case Ascii(b) => IsAlphaByte(b) || IsDigitByte(b) || b in {'-' as u8, '.' as u8, '_' as u8, '~' as u8}
      case _ => false
    }

    predicate IsReserved() {
      IsGenDelim() || IsSubDelim()
    }

    /** The gen-delims as this code lists them: '|' stands where RFC 3986 has '/'. */
    predicate IsGenDelim() {
      match this
      case Ascii(b) => b in {':' as u8, '|' as u8, '?' as u8, '#' as u8, '[' as u8, ']' as u8, '@' as u8}
      case _ => false
    }

    predicate IsSubDelim() {
      match this
      case Ascii(b) =>
        b in {'!' as u8, '$' as u8, '&' as u8, '\'' as u8, '(' as u8, ')' as u8,
              '*' as u8, '+' as u8, ',' as u8, ';' as u8, '=' as u8}
      case _ => false
    }

    predicate IsDigit() {
      match this
      case Ascii(b) => IsDigitByte(b)
      case _ => false
    }

    predicate IsHex() {
      match this
      case Ascii(b) => IsHexByte(b)
      case _ => false
    }
  }

  // Byte classifiers

  /** Letters A-F and a-f only: decimal digits are not accepted. */
  predicate IsHexByte(b: u8) {
    (b >= 65 && b <= 70) || (b >= 97 && b <= 102)
  }

  predicate IsAlphaByte(b: u8) {
    IsLowAlphaByte(b) || IsUpAlphaByte(b)
  }

  predicate IsLowAlphaByte(b: u8) {
    b >= 97 && b <= 122
  }

  predicate IsUpAlphaByte(b: u8) {
    b >= 65 && b <= 90
  }

  predicate IsDigitByte(b: u8) {
    b >= 48 && b <= 57
  }

  const PERCENT: u8 := '%' as u8

  // Rendering (Display for Char): each byte is written as the character with that code point.

  function Render(c: Char): string {
    match c
    case Ascii(b) => [b as char]
    case PctEncoded(hi, lo) => ['%', hi as char, lo as char]
  }

  function RenderAll(cs: seq<Char>): string {
    if cs == [] then [] else Render(cs[0]) + RenderAll(cs[1..])
  }

  /** The text whose characters carry the code points of the given bytes. */
  function Latin1(bs: seq<u8>): (s: string)
    ensures |s| == |bs|
    ensures forall i :: 0 <= i < |bs| ==> s[i] == bs[i] as char
  {
    seq(|bs|, i requires 0 <= i < |bs| => bs[i] as char)
  }

  /** The bytes a character was decoded from. */
  function Encode(c: Char): seq<u8> {
    match c
    case Ascii(b) => [b]
    case PctEncoded(hi, lo) => [PERCENT, hi, lo]
  }

  function EncodeAll(cs: seq<Char>): seq<u8> {
    if cs == [] then [] else Encode(cs[0]) + EncodeAll(cs[1..])
  }

  /** A character the decoder can produce: a literal other than '%', or an escape of two `IsHex` bytes. */
  predicate Decodable(c: Char) {
    match c
    case Ascii(b) => b != PERCENT
    case PctEncoded(hi, lo) => IsHexByte(hi) && IsHexByte(lo)
  }

  predicate AllDecodable(cs: seq<Char>) {
    forall i :: 0 <= i < |cs| ==> Decodable(cs[i])
  }

  // Decoding (CharStream::next)

  /** One call of the decoder on the unread bytes: end of input, a character and the bytes it used,
      or an error and the bytes read before it was detected. */
  datatype Step = EndOfInput | Emit(c: Char, used: nat) | Reject(error: DecodeError, used: nat)

  function StepAt(bs: seq<u8>): (s: Step)
    ensures s.EndOfInput? <==> bs == []
    ensures s.Emit? ==> 1 <= s.used <= |bs| && bs[..s.used] == Encode(s.c) && Decodable(s.c)
    ensures s.Reject? ==> 1 <= s.used <= |bs| && bs[0] == PERCENT
    ensures s.Reject? ==> (s.error == TruncatedEscape <==> |bs| < 3 && (|bs| == 2 ==> IsHexByte(bs[1])))
  {
    if bs == [] then EndOfInput
    else if bs[0] != PERCENT then Emit(Ascii(bs[0]), 1)
    else if |bs| < 2 then Reject(TruncatedEscape, 1)
    else if !IsHexByte(bs[1]) then Reject(InvalidEscape, 2)
    else if |bs| < 3 then Reject(TruncatedEscape, 2)
    else if !IsHexByte(bs[2]) then Reject(InvalidEscape, 3)
    else Emit(PctEncoded(bs[1], bs[2]), 3)
  }

  /** How a decoded byte string ends: cleanly, or at a malformed escape. */
  datatype Ending = Clean | Broken(error: DecodeError)

  /** Everything repeated calls of the decoder yield: the characters, then the ending. */
  datatype Decoding = Decoding(chars: seq<Char>, ending: Ending)

  /** The decoder called until it reports end of input or an error (its properties are in CharFacts). */
  function Decode(bs: seq<u8>): Decoding
    decreases |bs|
  {
    match StepAt(bs)
    case EndOfInput => Decoding([], Clean)
    case Reject(e, _) => Decoding([], Broken(e))
    case Emit(c, n) =>
      var rest := Decode(bs[n..]);
      Decoding([c] + rest.chars, rest.ending)
  }

  /** The byte source under the decoder: a byte string and a read position. */
  class CharStream {
    const bytes: seq<u8>
    var pos: nat

    ghost predicate Valid()
      reads this
    {
      pos <= |bytes|
    }

    /** The bytes not yet read. */
    ghost function Remaining(): seq<u8>
      reads this
      requires Valid()
    {
      bytes[pos..]
    }

    constructor (bytes: seq<u8>)
      ensures Valid() && this.bytes == bytes && pos == 0
    {
      this.bytes := bytes;
      pos := 0;
    }

    /** The underlying byte stream's `next`. */
    method NextByte() returns (b: Option<u8>)
      requires Valid()
      modifies this`pos
      ensures Valid()
      ensures old(pos) < |bytes| ==> b == Some(bytes[old(pos)]) && pos == old(pos) + 1
      ensures old(pos) == |bytes| ==> b == None && pos == old(pos)
    {
      if pos < |bytes| {
        b := Some(bytes[pos]);
        pos := pos + 1;
      } else {
        b := None;
      }
    }

    /** CharStream::next: one logical character, end of input, or a malformed escape. */
    method Next() returns (r: Result<Option<Char>>)
      requires Valid()
      modifies this`pos
      ensures Valid()
      ensures StepAt(old(Remaining())).EndOfInput? ==> r == Ok(None) && pos == old(pos)
      ensures StepAt(old(Remaining())).Emit? ==>
        r == Ok(Some(StepAt(old(Remaining())).c)) && pos == old(pos) + StepAt(old(Remaining())).used
      ensures StepAt(old(Remaining())).Reject? ==>
        r == Err(StepAt(old(Remaining())).error) && pos == old(pos) + StepAt(old(Remaining())).used
    {
      ghost var bs := Remaining();
      var b := NextByte();
      if b.None? {
        return Ok(None);
      }
      var c: Char;
      if b.value == PERCENT {
        var b2 := NextByte();
        if b2.None? {
          return Err(TruncatedEscape);
        }
        if !IsHexByte(b2.value) {
          return Err(InvalidEscape);
        }
        var b3 := NextByte();
        if b3.None? {
          return Err(TruncatedEscape);
        }
        if !IsHexByte(b3.value) {
          return Err(InvalidEscape);
        }
        c := PctEncoded(b2.value, b3.value);
      } else {
        c := Ascii(b.value);
      }
      r := Ok(Some(c));
    }
  }
}
