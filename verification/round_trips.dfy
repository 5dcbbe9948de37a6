/**
 * The two round trips of the grammar engine. Reading the text of a node
 * gives that node back, leaving what follows unread. And the `Display` of a
 * parsed node, followed by what was left unread, writes back the input text.
 */
module RoundTrips {
  import opened CharBuf
  import CharFacts
  import opened UriNodes
  import opened UriGrammar
  import opened GrammarFacts

  /** rest ends a run of class k: the input ends cleanly there, or a character outside k comes next. */
  predicate Stops(k: CharClass, rest: seq<Char>, e: Ending) {
    (rest == [] && e.Clean?) || (rest != [] && !InClass(k, rest[0]))
  }

  /** rest ends a path: the input ends cleanly there, or a character that is neither pchar nor '/' comes next. */
  predicate PathStops(rest: seq<Char>, e: Ending) {
    (rest == [] && e.Clean?) || (rest != [] && !rest[0].IsPchar() && !rest[0].Is('/' as u8))
  }

  // Reading the text of a node gives the node back

  lemma SegmentParsesBack(s: Segment, rest: seq<Char>, e: Ending)
    requires AllIn(PcharClass, s.chars) && Stops(PcharClass, rest, e)
    ensures SegmentMatch(s.chars + rest, e) == Ok(Parsed(s, rest))
  {
    MunchStops(PcharClass, s.chars + rest, s.chars, rest, e);
    DropPrefix(s.chars + rest, s.chars, rest);
  }

  lemma FragmentParsesBack(f: Fragment, rest: seq<Char>, e: Ending)
    requires AllIn(QueryClass, f.chars) && Stops(QueryClass, rest, e)
    ensures FragmentMatch(f.chars + rest, e) == Ok(Parsed(f, rest))
  {
    MunchStops(QueryClass, f.chars + rest, f.chars, rest, e);
    DropPrefix(f.chars + rest, f.chars, rest);
  }

  lemma QueryParsesBack(q: Query, rest: seq<Char>, e: Ending)
    requires AllIn(QueryClass, q.chars) && Stops(QueryClass, rest, e)
    ensures QueryMatch(q.chars + rest, e) == Ok(Parsed(q, rest))
  {
    FragmentParsesBack(Fragment(q.chars), rest, e);
  }

  /** A valid dec-octet reads back when its digits are followed by a non-digit, the clean end, or nothing more can be read (three digits). */
  lemma DecOctetParsesBack(d: DecOctet, rest: seq<Char>, e: Ending)
    requires ValidDecOctet(d) && (|d.digits| == 3 || Stops(DigitClass, rest, e))
    ensures DecOctetMatch(d.digits + rest, e) == Ok(Parsed(Some(d), rest))
  {
    RunStops(DigitClass, d.digits + rest, d.digits, rest, e, 3);
    ParseU8Digits(d.digits);
    DropPrefix(d.digits + rest, d.digits, rest);
  }

  lemma H16ParsesBack(h: H16, rest: seq<Char>, e: Ending)
    requires AllIn(HexClass, H16Text(h))
    ensures H16Match(H16Text(h) + rest, e) == Ok(Parsed(Some(h), rest))
  {
    RunStops(HexClass, H16Text(h) + rest, H16Text(h), rest, e, 4);
    DropPrefix(H16Text(h) + rest, H16Text(h), rest);
  }

  lemma DottedOctetParsesBack(d: DecOctet, rest: seq<Char>, e: Ending)
    requires ValidDecOctet(d) && (|d.digits| == 3 || Stops(DigitClass, rest, e))
    ensures DottedOctetMatch([DOT] + (d.digits + rest), e) == Ok(Parsed(Some(d), rest))
  {
    assert ([DOT] + (d.digits + rest))[1..] == d.digits + rest;
    DecOctetParsesBack(d, rest, e);
  }

  lemma Ipv4ParsesBack(a: Ipv4Address, rest: seq<Char>, e: Ending)
    requires ValidIpv4(a) && (|a.d4.digits| == 3 || Stops(DigitClass, rest, e))
    ensures Ipv4Match(Ipv4Text(a) + rest, e) == Ok(Parsed(Some(a), rest))
  {
    var r3 := [DOT] + (a.d4.digits + rest);
    var r2 := [DOT] + (a.d3.digits + r3);
    var r1 := [DOT] + (a.d2.digits + r2);
    Ipv4Concat(a.d1.digits + r1, a, r1, r2, r3, rest);
    DecOctetParsesBack(a.d1, r1, e);
    DottedOctetParsesBack(a.d2, r2, e);
    DottedOctetParsesBack(a.d3, r3, e);
    DottedOctetParsesBack(a.d4, rest, e);
  }

  lemma AllPcharTail(segments: seq<Segment>)
    requires segments != [] && AllPchar(segments)
    ensures AllIn(PcharClass, segments[0].chars) && AllPchar(segments[1..])
  {
    forall i | 0 <= i < |segments[1..]| ensures AllIn(PcharClass, segments[1..][i].chars) {
      assert segments[1..][i] == segments[i + 1];
    }
  }

  /** The text of "/" segment repeated reads back as the same segments. */
  lemma {:induction false} SlashSegmentsParseBack(segments: seq<Segment>, rest: seq<Char>, e: Ending)
    requires AllPchar(segments) && PathStops(rest, e)
    ensures SlashSegmentsMatch(SlashText(segments) + rest, e) == Ok(Parsed(segments, rest))
    decreases |segments|
  {
    if segments == [] {
      assert SlashText(segments) + rest == rest;
    } else {
      AllPcharTail(segments);
      SlashSegmentsParseBack(segments[1..], rest, e);
      SlashSegmentsConsBack(segments[0], segments[1..], rest, e);
      assert [segments[0]] + segments[1..] == segments;
    }
  }

  /** One more "/" segment in front of text that reads back reads back too. */
  lemma SlashSegmentsConsBack(s: Segment, more: seq<Segment>, rest: seq<Char>, e: Ending)
    requires AllIn(PcharClass, s.chars) && PathStops(rest, e)
    requires SlashSegmentsMatch(SlashText(more) + rest, e) == Ok(Parsed(more, rest))
    ensures SlashSegmentsMatch(SlashText([s] + more) + rest, e) == Ok(Parsed([s] + more, rest))
  {
    var tail := SlashText(more) + rest;
    SlashTextStops(more, rest, e);
    SegmentParsesBack(s, tail, e);
    SlashTextCons(s, more, rest);
    SlashSegmentRead(SlashText([s] + more) + rest, s, more, tail, rest, e);
  }

  lemma SlashTextCons(s: Segment, more: seq<Segment>, rest: seq<Char>)
    ensures SlashText([s] + more) + rest == [SLASH] + (s.chars + (SlashText(more) + rest))
  {
    assert ([s] + more)[1..] == more;
  }

  lemma SlashSegmentRead(u: seq<Char>, s: Segment, more: seq<Segment>, tail: seq<Char>, rest: seq<Char>, e: Ending)
    requires u == [SLASH] + (s.chars + tail)
    requires SegmentMatch(s.chars + tail, e) == Ok(Parsed(s, tail))
    requires SlashSegmentsMatch(tail, e) == Ok(Parsed(more, rest))
    ensures SlashSegmentsMatch(u, e) == Ok(Parsed([s] + more, rest))
  {
    assert u[1..] == s.chars + tail;
  }

  /** The text of a path whose first segment is not empty reads back as path-rootless. */
  lemma RootlessParsesBack(segments: seq<Segment>, rest: seq<Char>, e: Ending)
    requires segments != [] && segments[0].chars != [] && AllPchar(segments) && PathStops(rest, e)
    ensures RootlessMatch(PathText(Path(segments, false)) + rest, e) == Ok(Parsed(Some(Path(segments, false)), rest))
  {
    AllPcharTail(segments);
    var tail := SlashText(segments[1..]) + rest;
    SlashTextStops(segments[1..], rest, e);
    var u := PathText(Path(segments, false)) + rest;
    assert u == segments[0].chars + tail;
    SegmentParsesBack(segments[0], tail, e);
    SlashSegmentsParseBack(segments[1..], rest, e);
    FirstSegmentRead(u, segments, tail, rest, e);
  }

  lemma SlashTextStops(segments: seq<Segment>, rest: seq<Char>, e: Ending)
    requires PathStops(rest, e)
    ensures Stops(PcharClass, SlashText(segments) + rest, e)
  {
    if segments != [] {
      assert (SlashText(segments) + rest)[0] == SLASH;
    }
  }

  lemma FirstSegmentRead(u: seq<Char>, segments: seq<Segment>, tail: seq<Char>, rest: seq<Char>, e: Ending)
    requires segments != [] && segments[0].chars != []
    requires SegmentMatch(u, e) == Ok(Parsed(segments[0], tail))
    requires SlashSegmentsMatch(tail, e) == Ok(Parsed(segments[1..], rest))
    ensures RootlessMatch(u, e) == Ok(Parsed(Some(Path(segments, false)), rest))
  {
    assert [segments[0]] + segments[1..] == segments;
  }

  /** Where a path stops, path-rootless reads nothing. */
  lemma RootlessReadsNothing(rest: seq<Char>, e: Ending)
    requires PathStops(rest, e)
    ensures RootlessMatch(rest, e) == Ok(Parsed(None, rest))
  {
    MunchStops(PcharClass, rest, [], rest, e);
  }

  /** Reading the text of a path built as parse_path builds it gives back that path. */
  lemma PathParsesBack(p: Path, rest: seq<Char>, e: Ending)
    requires WellFormedPath(p) && PathStops(rest, e)
    ensures PathMatch(PathText(p) + rest, e) == Ok(Parsed(p, rest))
  {
    if p.segments[0].chars == [] {
      EmptyFirstParsesBack(p, rest, e);
    } else {
      NonEmptyFirstParsesBack(p, rest, e);
    }
  }

  lemma EmptyFirstParsesBack(p: Path, rest: seq<Char>, e: Ending)
    requires WellFormedPath(p) && PathStops(rest, e) && p.segments[0].chars == []
    ensures PathMatch(PathText(p) + rest, e) == Ok(Parsed(p, rest))
  {
    var u := PathText(p) + rest;
    assert p.segments == [Segment([])];
    RootlessReadsNothing(rest, e);
    if p.absolute {
      assert u == [SLASH] + rest && u[1..] == rest;
      AbsoluteAfterSlash(u, e, Parsed(None, rest));
    } else {
      assert u == rest;
      PathNeither(u, e);
    }
  }

  lemma NonEmptyFirstParsesBack(p: Path, rest: seq<Char>, e: Ending)
    requires WellFormedPath(p) && PathStops(rest, e) && p.segments[0].chars != []
    ensures PathMatch(PathText(p) + rest, e) == Ok(Parsed(p, rest))
  {
    var u := PathText(p) + rest;
    var body := PathText(Path(p.segments, false));
    RootlessParsesBack(p.segments, rest, e);
    if p.absolute {
      SlashPathText(p.segments);
      assert u == [SLASH] + (body + rest) && u[1..] == body + rest;
      AbsoluteAfterSlash(u, e, Parsed(Some(Path(p.segments, false)), rest));
    } else {
      assert u == body + rest && u[0] == p.segments[0].chars[0];
      assert InClass(PcharClass, p.segments[0].chars[0]);
      PathRootless(u, e);
    }
  }

  lemma AbsoluteAfterSlash(u: seq<Char>, e: Ending, q: Parsed<Option<Path>>)
    requires u != [] && u[0] == SLASH && RootlessMatch(u[1..], e) == Ok(q)
    ensures PathMatch(u, e) ==
      Ok(Parsed(if q.node.Some? then Path(q.node.value.segments, true) else Path([Segment([])], true), q.rest))
  {
  }

  lemma PathNeither(u: seq<Char>, e: Ending)
    requires PathStops(u, e) && RootlessMatch(u, e) == Ok(Parsed(None, u))
    ensures PathMatch(u, e) == Ok(Parsed(Path([Segment([])], false), u))
  {
  }

  lemma PathRootless(u: seq<Char>, e: Ending)
    requires u != [] && u[0].IsPchar() && RootlessMatch(u, e).Ok?
    ensures var q := RootlessMatch(u, e).value; q.node.Some? ==> PathMatch(u, e) == Ok(Parsed(q.node.value, q.rest))
  {
  }

  // Display writes back the input

  /** When a parse splits the decoded input into text and rest, rendering both gives back the input text. */
  lemma RenderSplit(bs: seq<u8>, text: seq<Char>, rest: seq<Char>)
    requires Decode(bs) == Decoding(text + rest, Clean)
    ensures RenderAll(text) + RenderAll(rest) == Latin1(bs)
  {
    CharFacts.DecodeThenRender(bs);
    CharFacts.RenderAllAppend(text, rest);
  }

  lemma PathDisplayIsInput(bs: seq<u8>)
    requires Decode(bs).ending.Clean?
    ensures var r := PathMatch(Decode(bs).chars, Clean); r.Ok? && RenderPath(r.value.node) + RenderAll(r.value.rest) == Latin1(bs)
  {
    var d := Decode(bs);
    PathMatchSpec(d.chars, Clean);
    var p := PathMatch(d.chars, Clean).value;
    RenderPathIsText(p.node);
    RenderSplit(bs, PathText(p.node), p.rest);
  }

  lemma Ipv4DisplayIsInput(bs: seq<u8>)
    requires Decode(bs).ending.Clean?
    ensures var r := Ipv4Match(Decode(bs).chars, Clean);
      r.Ok? && (r.value.node.Some? ==> RenderIpv4(r.value.node.value) + RenderAll(r.value.rest) == Latin1(bs))
  {
    var d := Decode(bs);
    Ipv4MatchSpec(d.chars, Clean);
    var p := Ipv4Match(d.chars, Clean).value;
    if p.node.Some? {
      RenderIpv4IsText(p.node.value);
      RenderSplit(bs, Ipv4Text(p.node.value), p.rest);
    }
  }

  lemma H16DisplayIsInput(bs: seq<u8>)
    requires Decode(bs).ending.Clean?
    ensures var r := H16Match(Decode(bs).chars, Clean);
      r.Ok? && (r.value.node.Some? ==> RenderH16(r.value.node.value) + RenderAll(r.value.rest) == Latin1(bs))
  {
    var d := Decode(bs);
    H16MatchSpec(d.chars, Clean);
    var p := H16Match(d.chars, Clean).value;
    if p.node.Some? {
      RenderH16IsText(p.node.value);
      RenderSplit(bs, H16Text(p.node.value), p.rest);
    }
  }

  lemma DecOctetDisplayIsInput(bs: seq<u8>)
    requires Decode(bs).ending.Clean?
    ensures var r := DecOctetMatch(Decode(bs).chars, Clean);
      r.Ok? && (r.value.node.Some? ==> RenderDecOctet(r.value.node.value) + RenderAll(r.value.rest) == Latin1(bs))
  {
    var d := Decode(bs);
    DecOctetMatchSpec(d.chars, Clean);
    var p := DecOctetMatch(d.chars, Clean).value;
    if p.node.Some? {
      RenderSplit(bs, p.node.value.digits, p.rest);
    }
  }

  lemma SegmentDisplayIsInput(bs: seq<u8>)
    requires Decode(bs).ending.Clean?
    ensures var r := SegmentMatch(Decode(bs).chars, Clean);
      r.Ok? && RenderSegment(r.value.node) + RenderAll(r.value.rest) == Latin1(bs)
  {
    var d := Decode(bs);
    SegmentMatchSpec(d.chars, Clean);
    var p := SegmentMatch(d.chars, Clean).value;
    RenderSplit(bs, p.node.chars, p.rest);
  }

  lemma QueryDisplayIsInput(bs: seq<u8>)
    requires Decode(bs).ending.Clean?
    ensures var r := QueryMatch(Decode(bs).chars, Clean);
      r.Ok? && RenderQuery(r.value.node) + RenderAll(r.value.rest) == Latin1(bs)
  {
    var d := Decode(bs);
    QueryMatchSpec(d.chars, Clean);
    var p := QueryMatch(d.chars, Clean).value;
    RenderSplit(bs, p.node.chars, p.rest);
  }

  lemma FragmentDisplayIsInput(bs: seq<u8>)
    requires Decode(bs).ending.Clean?
    ensures var r := FragmentMatch(Decode(bs).chars, Clean);
      r.Ok? && RenderFragment(r.value.node) + RenderAll(r.value.rest) == Latin1(bs)
  {
    var d := Decode(bs);
    FragmentMatchSpec(d.chars, Clean);
    var p := FragmentMatch(d.chars, Clean).value;
    RenderSplit(bs, p.node.chars, p.rest);
  }

  /** parse_path_abempty reads a leading '/' that the Display of the path it returns does not write. */
  lemma AbemptyDisplayDropsSlash(u: seq<Char>, e: Ending)
    requires SlashLoopHalts(u, e)
    ensures var r := AbemptyMatch(u, e); r.Ok? && r.value.node.Some? ==>
      RenderAll(u) == "/" + RenderPath(r.value.node.value) + RenderAll(r.value.rest)
  {
    AbemptyMatchSpec(u, e);
    var r := AbemptyMatch(u, e);
    if r.Ok? && r.value.node.Some? {
      var p := r.value.node.value;
      RenderPathIsText(p);
      assert RenderAll([SLASH]) == "/";
      CharFacts.RenderAllAppend([SLASH] + PathText(p), r.value.rest);
      CharFacts.RenderAllAppend([SLASH], PathText(p));
    }
  }

  /** Encoding a path, then decoding and parsing the bytes, gives back the path; its Display is the Latin-1 text of those bytes. */
  lemma PathBytesRoundTrip(p: Path)
    requires WellFormedPath(p) && AllDecodable(PathText(p))
    ensures var d := Decode(EncodeAll(PathText(p))); PathMatch(d.chars, d.ending) == Ok(Parsed(p, []))
    ensures RenderPath(p) == Latin1(EncodeAll(PathText(p)))
  {
    CharFacts.EncodeThenDecode(PathText(p));
    PathParsesBack(p, [], Clean);
    assert PathText(p) + [] == PathText(p);
    RenderPathIsText(p);
    CharFacts.RenderIsLatin1(PathText(p));
  }
}
