/**
 * The syntax nodes of the grammar engine, their `Display` renderers, and the
 * logical characters each node stands for.
 */
module UriNodes {
  import opened CharBuf
  import CharFacts

  /** Four hex characters (h16 of RFC 3986 section 3.2.2). */
  datatype H16 = H16(c0: Char, c1: Char, c2: Char, c3: Char)

  /** The digits of one dec-octet, kept as read. */
  datatype DecOctet = DecOctet(digits: seq<Char>)

  datatype Ipv4Address = Ipv4Address(d1: DecOctet, d2: DecOctet, d3: DecOctet, d4: DecOctet)

  datatype Segment = Segment(chars: seq<Char>)

  /** A path: its segments, and whether the text began with '/'. */
  datatype Path = Path(segments: seq<Segment>, absolute: bool)

  datatype Query = Query(chars: seq<Char>)

  datatype Fragment = Fragment(chars: seq<Char>)

  const SLASH: Char := Ascii('/' as u8)
  const DOT: Char := Ascii('.' as u8)

  // Display renderers

  function RenderH16(h: H16): string {
    Render(h.c0) + Render(h.c1) + Render(h.c2) + Render(h.c3)
  }

  function RenderDecOctet(d: DecOctet): string {
    RenderAll(d.digits)
  }

  function RenderIpv4(a: Ipv4Address): string {
    RenderDecOctet(a.d1) + "." + RenderDecOctet(a.d2) + "." + RenderDecOctet(a.d3) + "." + RenderDecOctet(a.d4)
  }

  function RenderSegment(s: Segment): string {
    RenderAll(s.chars)
  }

  /** The segments from index i on, each after a '/' except the very first. */
  function RenderSegmentsFrom(segments: seq<Segment>, i: nat): string
    decreases |segments| - i
  {
    if i >= |segments| then ""
    else (if i > 0 then "/" else "") + RenderSegment(segments[i]) + RenderSegmentsFrom(segments, i + 1)
  }

  function RenderPath(p: Path): string {
    (if p.absolute then "/" else "") + RenderSegmentsFrom(p.segments, 0)
  }

  function RenderQuery(q: Query): string {
    RenderAll(q.chars)
  }

  function RenderFragment(f: Fragment): string {
    RenderAll(f.chars)
  }

  // The logical characters a node stands for

  function H16Text(h: H16): seq<Char> {
    [h.c0, h.c1, h.c2, h.c3]
  }

  function Ipv4Text(a: Ipv4Address): seq<Char> {
    a.d1.digits + [DOT] + a.d2.digits + [DOT] + a.d3.digits + [DOT] + a.d4.digits
  }

  /** "/" segment, repeated. */
  function SlashText(segments: seq<Segment>): seq<Char> {
    if segments == [] then [] else [SLASH] + segments[0].chars + SlashText(segments[1..])
  }

  function PathText(p: Path): seq<Char> {
    (if p.absolute then [SLASH] else [])
    + (if p.segments == [] then [] else p.segments[0].chars + SlashText(p.segments[1..]))
  }

  // Each renderer writes exactly the text of its node

  lemma RenderH16IsText(h: H16)
    ensures RenderH16(h) == RenderAll(H16Text(h))
  {
    assert RenderAll([h.c3]) == Render(h.c3);
    assert RenderAll([h.c2, h.c3]) == Render(h.c2) + RenderAll([h.c3]);
    assert RenderAll([h.c1, h.c2, h.c3]) == Render(h.c1) + RenderAll([h.c2, h.c3]);
    assert RenderAll(H16Text(h)) == Render(h.c0) + RenderAll([h.c1, h.c2, h.c3]);
  }

  lemma RenderIpv4IsText(a: Ipv4Address)
    ensures RenderIpv4(a) == RenderAll(Ipv4Text(a))
  {
    var d1, d2, d3, d4 := a.d1.digits, a.d2.digits, a.d3.digits, a.d4.digits;
    assert RenderAll([DOT]) == ".";
    CharFacts.RenderAllAppend(d1 + [DOT] + d2 + [DOT] + d3 + [DOT], d4);
    CharFacts.RenderAllAppend(d1 + [DOT] + d2 + [DOT] + d3, [DOT]);
    CharFacts.RenderAllAppend(d1 + [DOT] + d2 + [DOT], d3);
    CharFacts.RenderAllAppend(d1 + [DOT] + d2, [DOT]);
    CharFacts.RenderAllAppend(d1 + [DOT], d2);
    CharFacts.RenderAllAppend(d1, [DOT]);
  }

  lemma {:induction false} RenderSlashText(segments: seq<Segment>, i: nat)
    requires 1 <= i <= |segments|
    ensures RenderSegmentsFrom(segments, i) == RenderAll(SlashText(segments[i..]))
    decreases |segments| - i
  {
    if i < |segments| {
      var rest := segments[i..];
      RenderSlashText(segments, i + 1);
      assert rest[1..] == segments[i + 1..];
      assert RenderAll([SLASH]) == "/";
      CharFacts.RenderAllAppend([SLASH] + rest[0].chars, SlashText(rest[1..]));
      CharFacts.RenderAllAppend([SLASH], rest[0].chars);
    } else {
      assert segments[i..] == [];
    }
  }

  lemma RenderPathIsText(p: Path)
    ensures RenderPath(p) == RenderAll(PathText(p))
  {
    var body := PathText(Path(p.segments, false));
    RenderSegmentsIsText(p.segments);
    if p.absolute {
      assert PathText(p) == [SLASH] + body;
      assert RenderAll([SLASH]) == "/";
      CharFacts.RenderAllAppend([SLASH], body);
    } else {
      assert PathText(p) == body;
    }
  }

  lemma RenderSegmentsIsText(segments: seq<Segment>)
    ensures RenderSegmentsFrom(segments, 0) == RenderAll(PathText(Path(segments, false)))
  {
    if segments != [] {
      RenderSlashText(segments, 1);
      assert RenderSegmentsFrom(segments, 0) == RenderSegment(segments[0]) + RenderSegmentsFrom(segments, 1);
      assert PathText(Path(segments, false)) == segments[0].chars + SlashText(segments[1..]);
      CharFacts.RenderAllAppend(segments[0].chars, SlashText(segments[1..]));
    }
  }
}
