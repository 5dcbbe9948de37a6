/**
 * Properties of the character layer: what one decoder step yields, how the
 * character classes relate, and the round trips between bytes, logical
 * characters and their rendering.
 */
module CharFacts {
  import opened CharBuf

  // One decoder step

  lemma LiteralStep(b: u8, rest: seq<u8>)
    requires b != PERCENT
    ensures StepAt([b] + rest) == Emit(Ascii(b), 1)
  {
  }

  lemma EscapeStep(hi: u8, lo: u8, rest: seq<u8>)
    requires IsHexByte(hi) && IsHexByte(lo)
    ensures StepAt([PERCENT, hi, lo] + rest) == Emit(PctEncoded(hi, lo), 3)
  {
  }

  /** A '%' followed by a byte that is not `IsHexByte`, in either position, or by too few bytes, is an error. */
  lemma MalformedEscapes(x: u8, y: u8, rest: seq<u8>)
    ensures !IsHexByte(x) ==> StepAt([PERCENT, x] + rest) == Reject(InvalidEscape, 2)
    ensures IsHexByte(x) && !IsHexByte(y) ==> StepAt([PERCENT, x, y] + rest) == Reject(InvalidEscape, 3)
    ensures StepAt([PERCENT]) == Reject(TruncatedEscape, 1)
    ensures IsHexByte(x) ==> StepAt([PERCENT, x]) == Reject(TruncatedEscape, 2)
  {
  }

  /** `IsHexByte` holds for exactly the letters A-F and a-f, so no decimal digit is hex. */
  lemma HexBytesAreLetters(b: u8)
    ensures IsHexByte(b) <==> b as char in "ABCDEFabcdef"
    ensures IsDigitByte(b) ==> !IsHexByte(b)
    ensures Ascii(b).IsDigit() ==> !Ascii(b).IsHex()
  {
  }

  /** Unlike HEXDIG of RFC 5234, a digit after '%' is rejected: "%20" does not decode. */
  lemma DigitEscapeRejected()
    ensures StepAt(['%' as u8, '2' as u8, '0' as u8]) == Reject(InvalidEscape, 2)
    ensures Decode(['%' as u8, '2' as u8, '0' as u8]) == Decoding([], Broken(InvalidEscape))
  {
  }

  // Character classes

  /** An escape belongs to no literal class but is pct-encoded and a pchar. */
  lemma PctEncodedClasses(c: Char, byte: u8)
    requires c.PctEncoded?
    ensures !c.Is(byte) && !c.IsDigit() && !c.IsHex()
    ensures !c.IsUnreserved() && !c.IsSubDelim() && !c.IsGenDelim() && !c.IsReserved()
    ensures c.IsPctEncoded() && c.IsPchar()
  {
  }

  /** '/', '?' and '#' are never pchar, nor is any other delimiter outside ':' and '@'. */
  lemma PcharExcludesDelimiters(c: Char)
    ensures c.IsPchar() ==> !c.Is('/' as u8) && !c.Is('?' as u8) && !c.Is('#' as u8)
    ensures c.IsPchar() ==> !c.Is('[' as u8) && !c.Is(']' as u8) && !c.Is('|' as u8) && !c.Is('%' as u8)
    ensures c.IsGenDelim() ==> (c.IsPchar() <==> c.Is(':' as u8) || c.Is('@' as u8))
  {
  }

  /** Reserved characters split into gen-delims and sub-delims, which do not overlap and are not unreserved. */
  lemma ReservedSplit(c: Char)
    ensures c.IsReserved() <==> c.IsGenDelim() || c.IsSubDelim()
    ensures !(c.IsGenDelim() && c.IsSubDelim())
    ensures c.IsReserved() ==> !c.IsUnreserved() && !c.IsPctEncoded()
  {
  }

  /** The gen-delims as listed in char_buf.rs: ':' '|' '?' '#' '[' ']' '@', with '|' where RFC 3986 has '/'. */
  lemma GenDelimsListed(b: u8)
    ensures Ascii(b).IsGenDelim() <==> b as char in ":|?#[]@"
    ensures !Ascii('/' as u8).IsGenDelim() && Ascii('|' as u8).IsGenDelim()
  {
  }

  // Round trips

  lemma {:induction false} RenderAllAppend(a: seq<Char>, b: seq<Char>)
    ensures RenderAll(a + b) == RenderAll(a) + RenderAll(b)
    decreases |a|
  {
    if a != [] {
      assert (a + b)[1..] == a[1..] + b;
      RenderAllAppend(a[1..], b);
    } else {
      assert a + b == b;
    }
  }

  lemma {:induction false} EncodeAllAppend(a: seq<Char>, b: seq<Char>)
    ensures EncodeAll(a + b) == EncodeAll(a) + EncodeAll(b)
    decreases |a|
  {
    if a != [] {
      assert (a + b)[1..] == a[1..] + b;
      EncodeAllAppend(a[1..], b);
    } else {
      assert a + b == b;
    }
  }

  /** Rendering a character writes the Latin-1 text of the bytes it was decoded from. */
  lemma {:induction false} RenderIsLatin1(cs: seq<Char>)
    ensures RenderAll(cs) == Latin1(EncodeAll(cs))
    decreases |cs|
  {
    if cs != [] {
      RenderIsLatin1(cs[1..]);
      assert Render(cs[0]) == Latin1(Encode(cs[0]));
      Latin1Append(Encode(cs[0]), EncodeAll(cs[1..]));
    }
  }

  lemma Latin1Append(a: seq<u8>, b: seq<u8>)
    ensures Latin1(a + b) == Latin1(a) + Latin1(b)
  {
  }

  /** The decoder yields only characters it can decode again. */
  lemma {:induction false} DecodeYieldsDecodable(bs: seq<u8>)
    ensures AllDecodable(Decode(bs).chars)
    decreases |bs|
  {
    match StepAt(bs) {
      case EndOfInput =>
      case Reject(_, _) =>
      case Emit(c, n) =>
        var rest := Decode(bs[n..]);
        DecodeYieldsDecodable(bs[n..]);
        var cs := [c] + rest.chars;
        assert Decode(bs).chars == cs;
        forall i | 0 <= i < |cs| ensures Decodable(cs[i]) {
          if i > 0 { assert cs[i] == rest.chars[i - 1]; }
        }
    }
  }

  /** Re-encoding the decoded characters gives a prefix of the input, and the whole input when it ends cleanly. */
  lemma {:induction false} DecodeIsPrefix(bs: seq<u8>)
    ensures EncodeAll(Decode(bs).chars) <= bs
    ensures Decode(bs).ending.Clean? ==> EncodeAll(Decode(bs).chars) == bs
    decreases |bs|
  {
    match StepAt(bs) {
      case EndOfInput =>
      case Reject(_, _) =>
      case Emit(c, n) =>
        var rest := Decode(bs[n..]);
        DecodeIsPrefix(bs[n..]);
        var cs := [c] + rest.chars;
        assert Decode(bs) == Decoding(cs, rest.ending);
        assert cs[1..] == rest.chars;
        assert EncodeAll(cs) == Encode(c) + EncodeAll(rest.chars);
        JoinPrefix(bs, n, Encode(c), EncodeAll(rest.chars));
    }
  }

  lemma JoinPrefix(bs: seq<u8>, n: nat, head: seq<u8>, tail: seq<u8>)
    requires n <= |bs| && bs[..n] == head && tail <= bs[n..]
    ensures head + tail <= bs
    ensures tail == bs[n..] ==> head + tail == bs
  {
    assert bs == bs[..n] + bs[n..];
  }

  /** Rendering every character decoded from a well-formed byte string gives back that text. */
  lemma DecodeThenRender(bs: seq<u8>)
    requires Decode(bs).ending.Clean?
    ensures RenderAll(Decode(bs).chars) == Latin1(bs)
  {
    DecodeIsPrefix(bs);
    RenderIsLatin1(Decode(bs).chars);
  }

  /** Decoding the bytes of decodable characters gives back exactly those characters. */
  lemma {:induction false} EncodeThenDecode(cs: seq<Char>)
    requires AllDecodable(cs)
    ensures Decode(EncodeAll(cs)) == Decoding(cs, Clean)
    decreases |cs|
  {
    if cs != [] {
      var bs := EncodeAll(cs);
      var c := cs[0];
      assert Decodable(c);
      assert bs == Encode(c) + EncodeAll(cs[1..]);
      match c {
        case Ascii(b) => LiteralStep(b, EncodeAll(cs[1..]));
        case PctEncoded(hi, lo) => EscapeStep(hi, lo, EncodeAll(cs[1..]));
      }
      assert bs[|Encode(c)|..] == EncodeAll(cs[1..]);
      EncodeThenDecode(cs[1..]);
      assert [c] + cs[1..] == cs;
    }
  }

  /** The examples of char_buf.rs: "%FF" decodes to one escape, "%GG" and "%F" are errors. */
  lemma EscapeExamples()
    ensures Decode(['%' as u8, 'F' as u8, 'F' as u8]) == Decoding([PctEncoded('F' as u8, 'F' as u8)], Clean)
    ensures Decode(['%' as u8, 'G' as u8, 'G' as u8]) == Decoding([], Broken(InvalidEscape))
    ensures Decode(['%' as u8, 'F' as u8]) == Decoding([], Broken(TruncatedEscape))
  {
    var bs := ['%' as u8, 'F' as u8, 'F' as u8];
    assert StepAt(bs) == Emit(PctEncoded('F' as u8, 'F' as u8), 3);
    assert bs[3..] == [];
  }
}
