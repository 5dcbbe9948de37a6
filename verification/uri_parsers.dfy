/**
 * The parse functions of the grammar engine. Each reads through a
 * TokenBuffer, returns what the matching `...Match` function of UriGrammar
 * says for the characters it finds unread, and on success leaves exactly that
 * function's remainder unread. A decode error met while popping is returned
 * at once, as the `?` operator does.
 */
module UriParsers {
  import opened CharBuf
  import opened TokenBuf
  import opened UriNodes
  import opened UriGrammar
  import opened GrammarFacts

  /** The body of those pop loops: pop one character and keep it when it is of class k,
      otherwise push it back; None when the loop is to stop. */
  method PopIf(tb: TokenBuffer, k: CharClass) returns (r: Result<Option<Char>>)
    requires tb.Valid()
    modifies tb, tb.stream
    ensures tb.Valid()
    ensures r.Err? ==> old(tb.unread) == [] && old(tb.ending) == Broken(r.error)
    ensures r.Ok? ==> tb.ending == old(tb.ending)
    ensures r.Ok? && r.value.Some? ==>
      old(tb.unread) == [r.value.value] + tb.unread && InClass(k, r.value.value)
    ensures r == Ok(None) ==> tb.unread == old(tb.unread)
    ensures r == Ok(None) ==>
      (tb.unread == [] && tb.ending.Clean?) || (tb.unread != [] && !InClass(k, tb.unread[0]))
  {
    ghost var before := tb.unread;
    var p := tb.Pop();
    if p.Err? {
      return Err(p.error);
    }
    if p.value.Some? {
      var c := p.value.value;
      if InClass(k, c) {
        assert before == [c] + tb.unread;
        return Ok(Some(c));
      }
      tb.Push(c);
      assert tb.unread == before;
    }
    r := Ok(None);
  }

  /** The pop loop of parse_segment, parse_segment_nz, parse_segment_nz_nc and parse_fragment:
      keep popping while the character is of class k, push back the first one that is not. */
  method PopWhile(tb: TokenBuffer, k: CharClass) returns (r: Result<seq<Char>>)
    requires tb.Valid()
    modifies tb, tb.stream
    ensures tb.Valid()
    ensures r == Munch(k, old(tb.unread), old(tb.ending))
    ensures r.Ok? ==> old(tb.unread) == r.value + tb.unread && tb.ending == old(tb.ending)
    ensures r.Ok? ==> tb.unread == old(tb.unread)[|r.value|..]
  {
    ghost var u0, e0 := tb.unread, tb.ending;
    var tokens: seq<Char> := [];
    while true
      invariant tb.Valid() && tb.ending == e0
      invariant u0 == tokens + tb.unread && AllIn(k, tokens)
      decreases |tb.unread|
    {
      var p := PopIf(tb, k);
      if p.Err? {
        assert u0 == tokens;
        MunchSpec(k, u0, e0);
        return Err(p.error);
      }
      if p.value.None? {
        assert StoppedAfter(k, u0, tokens, tb.unread, e0);
        break;
      }
      tokens := tokens + [p.value.value];
    }
    MunchStops(k, u0, tokens, tb.unread, e0);
    DropPrefix(u0, tokens, tb.unread);
    r := Ok(tokens);
  }

  /** The bounded pop loop of parse_dec_octet and parse_h16: at most max characters of class k. */
  method PopUpTo(tb: TokenBuffer, k: CharClass, max: nat) returns (r: Result<seq<Char>>)
    requires tb.Valid()
    modifies tb, tb.stream
    ensures tb.Valid()
    ensures r == Run(k, old(tb.unread), old(tb.ending), max)
    ensures r.Ok? ==> old(tb.unread) == r.value + tb.unread && tb.ending == old(tb.ending)
    ensures r.Ok? ==> tb.unread == old(tb.unread)[|r.value|..]
  {
    ghost var u0, e0 := tb.unread, tb.ending;
    var tokens: seq<Char> := [];
    for i := 0 to max
      invariant tb.Valid() && tb.ending == e0
      invariant u0 == tokens + tb.unread && AllIn(k, tokens) && |tokens| == i
    {
      var p := PopIf(tb, k);
      if p.Err? {
        assert u0 == tokens;
        RunBroken(k, u0, e0, max);
        return Err(p.error);
      }
      if p.value.None? {
        break;
      }
      tokens := tokens + [p.value.value];
    }
    RunStops(k, u0, tokens, tb.unread, e0, max);
    DropPrefix(u0, tokens, tb.unread);
    r := Ok(tokens);
  }

  // segment, segment-nz, segment-nz-nc, query, fragment

  method ParseSegment(tb: TokenBuffer) returns (r: Result<Segment>)
    requires tb.Valid()
    modifies tb, tb.stream
    ensures tb.Valid()
    ensures r == NodeOf(SegmentMatch(old(tb.unread), old(tb.ending)))
    ensures r.Ok? ==> tb.unread == SegmentMatch(old(tb.unread), old(tb.ending)).value.rest && tb.ending == old(tb.ending)
  {
    var tokens :- PopWhile(tb, PcharClass);
    r := Ok(Segment(tokens));
  }

  method ParseSegmentNz(tb: TokenBuffer) returns (r: Result<Option<Segment>>)
    requires tb.Valid()
    modifies tb, tb.stream
    ensures tb.Valid()
    ensures r == NodeOf(SegmentNzMatch(old(tb.unread), old(tb.ending)))
    ensures r.Ok? ==> tb.unread == SegmentNzMatch(old(tb.unread), old(tb.ending)).value.rest && tb.ending == old(tb.ending)
  {
    var tokens :- PopWhile(tb, PcharClass);
    if tokens == [] {
      r := Ok(None);
    } else {
      r := Ok(Some(Segment(tokens)));
    }
  }

  method ParseSegmentNzNc(tb: TokenBuffer) returns (r: Result<Option<Segment>>)
    requires tb.Valid()
    modifies tb, tb.stream
    ensures tb.Valid()
    ensures r == NodeOf(SegmentNzNcMatch(old(tb.unread), old(tb.ending)))
    ensures r.Ok? ==> tb.unread == SegmentNzNcMatch(old(tb.unread), old(tb.ending)).value.rest && tb.ending == old(tb.ending)
  {
    var tokens :- PopWhile(tb, NoColonClass);
    if tokens == [] {
      r := Ok(None);
    } else {
      r := Ok(Some(Segment(tokens)));
    }
  }

  method ParseFragment(tb: TokenBuffer) returns (r: Result<Fragment>)
    requires tb.Valid()
    modifies tb, tb.stream
    ensures tb.Valid()
    ensures r == NodeOf(FragmentMatch(old(tb.unread), old(tb.ending)))
    ensures r.Ok? ==> tb.unread == FragmentMatch(old(tb.unread), old(tb.ending)).value.rest && tb.ending == old(tb.ending)
  {
    var tokens :- PopWhile(tb, QueryClass);
    r := Ok(Fragment(tokens));
  }

  method ParseQuery(tb: TokenBuffer) returns (r: Result<Query>)
    requires tb.Valid()
    modifies tb, tb.stream
    ensures tb.Valid()
    ensures r == NodeOf(QueryMatch(old(tb.unread), old(tb.ending)))
    ensures r.Ok? ==> tb.unread == QueryMatch(old(tb.unread), old(tb.ending)).value.rest && tb.ending == old(tb.ending)
  {
    var f :- ParseFragment(tb);
    r := Ok(Query(f.chars));
  }

  // dec-octet, h16, IPv4address

  method ParseDecOctet(tb: TokenBuffer) returns (r: Result<Option<DecOctet>>)
    requires tb.Valid()
    modifies tb, tb.stream
    ensures tb.Valid()
    ensures r == NodeOf(DecOctetMatch(old(tb.unread), old(tb.ending)))
    ensures r.Ok? ==> tb.unread == DecOctetMatch(old(tb.unread), old(tb.ending)).value.rest && tb.ending == old(tb.ending)
  {
    var tokens :- PopUpTo(tb, DigitClass, 3);
    if ParseU8(RenderAll(tokens)).Some? {
      r := Ok(Some(DecOctet(tokens)));
    } else {
      tb.PushTokens(tokens);
      r := Ok(None);
    }
  }

  method ParseH16(tb: TokenBuffer) returns (r: Result<Option<H16>>)
    requires tb.Valid()
    modifies tb, tb.stream
    ensures tb.Valid()
    ensures r == NodeOf(H16Match(old(tb.unread), old(tb.ending)))
    ensures r.Ok? ==> tb.unread == H16Match(old(tb.unread), old(tb.ending)).value.rest && tb.ending == old(tb.ending)
  {
    var tokens :- PopUpTo(tb, HexClass, 4);
    if |tokens| == 4 {
      r := Ok(Some(H16(tokens[0], tokens[1], tokens[2], tokens[3])));
    } else {
      tb.PushTokens(tokens);
      r := Ok(None);
    }
  }

  /** The block parse_ipv4_address repeats after each of the first three dec-octets:
      pop one character, keep it if it is '.', else push it back. */
  method PopDot(tb: TokenBuffer) returns (r: Result<Option<Char>>)
    requires tb.Valid()
    modifies tb, tb.stream
    ensures tb.Valid()
    ensures r == NodeOf(DotMatch(old(tb.unread), old(tb.ending)))
    ensures r.Ok? ==> tb.unread == DotMatch(old(tb.unread), old(tb.ending)).value.rest && tb.ending == old(tb.ending)
  {
    var p :- tb.Pop();
    if p.Some? {
      if p.value.Is('.' as u8) {
        r := Ok(Some(p.value));
      } else {
        tb.Push(p.value);
        r := Ok(None);
      }
    } else {
      r := Ok(None);
    }
  }

  /** "." dec-octet as parse_ipv4_address reads it after a dec-octet: when the dec-octet is
      missing, the dot is pushed back and nothing has been consumed. */
  method ParseDottedOctet(tb: TokenBuffer) returns (r: Result<Option<DecOctet>>)
    requires tb.Valid()
    modifies tb, tb.stream
    ensures tb.Valid()
    ensures r == NodeOf(DottedOctetMatch(old(tb.unread), old(tb.ending)))
    ensures r.Ok? ==> tb.unread == DottedOctetMatch(old(tb.unread), old(tb.ending)).value.rest && tb.ending == old(tb.ending)
  {
    var dot :- PopDot(tb);
    if dot.None? {
      return Ok(None);
    }
    var d :- ParseDecOctet(tb);
    if d.None? {
      tb.Push(dot.value);
      return Ok(None);
    }
    r := Ok(d);
  }

  /** Four dec-octets separated by '.', all or nothing: on a mismatch everything read is pushed back. */
  method ParseIpv4Address(tb: TokenBuffer) returns (r: Result<Option<Ipv4Address>>)
    requires tb.Valid()
    modifies tb, tb.stream
    ensures tb.Valid()
    ensures r == NodeOf(Ipv4Match(old(tb.unread), old(tb.ending)))
    ensures r.Ok? ==> tb.unread == Ipv4Match(old(tb.unread), old(tb.ending)).value.rest && tb.ending == old(tb.ending)
  {
    ghost var u0, e0 := tb.unread, tb.ending;
    DecOctetRest(u0, e0);
    var d1 :- ParseDecOctet(tb);
    if d1.None? {
      return Ok(None);
    }
    ghost var u1 := tb.unread;
    DottedOctetRest(u1, e0);
    var d2 :- ParseDottedOctet(tb);
    if d2.None? {
      tb.PushTokens(d1.value.digits);
      return Ok(None);
    }
    ghost var u2 := tb.unread;
    DottedOctetRest(u2, e0);
    var d3 :- ParseDottedOctet(tb);
    if d3.None? {
      tb.PushTokens(d2.value.digits);
      tb.Push(DOT);
      tb.PushTokens(d1.value.digits);
      return Ok(None);
    }
    ghost var u3 := tb.unread;
    DottedOctetRest(u3, e0);
    var d4 :- ParseDottedOctet(tb);
    if d4.None? {
      tb.PushTokens(d3.value.digits);
      tb.Push(DOT);
      tb.PushTokens(d2.value.digits);
      tb.Push(DOT);
      tb.PushTokens(d1.value.digits);
      return Ok(None);
    }
    r := Ok(Some(Ipv4Address(d1.value, d2.value, d3.value, d4.value)));
  }

  // Paths

  /** The "/" segment loop of parse_path_abempty and parse_path_noscheme. When a pop finds the
      input ended cleanly, that loop pops again forever; SlashLoopHalts excludes that case. */
  method PopSlashSegments(tb: TokenBuffer) returns (r: Result<seq<Segment>>)
    requires tb.Valid() && SlashLoopHalts(tb.unread, tb.ending)
    modifies tb, tb.stream
    ensures tb.Valid()
    ensures r == NodeOf(SlashSegmentsMatch(old(tb.unread), old(tb.ending)))
    ensures r.Ok? ==> tb.unread == SlashSegmentsMatch(old(tb.unread), old(tb.ending)).value.rest && tb.ending == old(tb.ending)
  {
    ghost var u0, e0 := tb.unread, tb.ending;
    var segments: seq<Segment> := [];
    ExtendedNothing(SlashSegmentsMatch(u0, e0));
    while true
      invariant tb.Valid() && tb.ending == e0 && SlashLoopHalts(tb.unread, e0)
      invariant SlashSegmentsMatch(u0, e0) == Extended(segments, SlashSegmentsMatch(tb.unread, e0))
      decreases |tb.unread|
    {
      ghost var before := tb.unread;
      var t :- tb.Pop();
      if t.Some? {
        if t.value.Is('/' as u8) {
          SlashSegmentsStep(before, e0);
          var s :- ParseSegment(tb);
          ExtendedTwice(segments, [s], SlashSegmentsMatch(tb.unread, e0));
          segments := segments + [s];
          continue;
        }
        tb.Push(t.value);
        break;
      }
      assert false;
    }
    assert segments + [] == segments;
    r := Ok(segments);
  }

  method ParsePathAbempty(tb: TokenBuffer) returns (r: Result<Option<Path>>)
    requires tb.Valid() && SlashLoopHalts(tb.unread, tb.ending)
    modifies tb, tb.stream
    ensures tb.Valid()
    ensures r == NodeOf(AbemptyMatch(old(tb.unread), old(tb.ending)))
    ensures r.Ok? ==> tb.unread == AbemptyMatch(old(tb.unread), old(tb.ending)).value.rest && tb.ending == old(tb.ending)
  {
    ghost var u0, e0 := tb.unread, tb.ending;
    SlashSegmentsMatchSpec(u0, e0);
    var segments :- PopSlashSegments(tb);
    if segments == [] {
      r := Ok(None);
    } else {
      r := Ok(Some(Path(segments, false)));
    }
  }

  method ParsePathNoscheme(tb: TokenBuffer) returns (r: Result<Option<Path>>)
    requires tb.Valid() && NoschemeHalts(tb.unread, tb.ending)
    modifies tb, tb.stream
    ensures tb.Valid()
    ensures r == NodeOf(NoschemeMatch(old(tb.unread), old(tb.ending)))
    ensures r.Ok? ==> tb.unread == NoschemeMatch(old(tb.unread), old(tb.ending)).value.rest && tb.ending == old(tb.ending)
  {
    var first :- ParseSegmentNzNc(tb);
    if first.None? {
      return Ok(None);
    }
    var more :- PopSlashSegments(tb);
    r := Ok(Some(Path([first.value] + more, false)));
  }

  /** The "/" segment loop of parse_path_rootless, which stops when a pop finds the end of input. */
  method PopSlashSegmentsToEnd(tb: TokenBuffer) returns (r: Result<seq<Segment>>)
    requires tb.Valid()
    modifies tb, tb.stream
    ensures tb.Valid()
    ensures r == NodeOf(SlashSegmentsMatch(old(tb.unread), old(tb.ending)))
    ensures r.Ok? ==> tb.unread == SlashSegmentsMatch(old(tb.unread), old(tb.ending)).value.rest && tb.ending == old(tb.ending)
  {
    ghost var u0, e0 := tb.unread, tb.ending;
    var segments: seq<Segment> := [];
    ExtendedNothing(SlashSegmentsMatch(u0, e0));
    while true
      invariant tb.Valid() && tb.ending == e0
      invariant SlashSegmentsMatch(u0, e0) == Extended(segments, SlashSegmentsMatch(tb.unread, e0))
      decreases |tb.unread|
    {
      ghost var before := tb.unread;
      var t :- tb.Pop();
      if t.Some? {
        if t.value.Is('/' as u8) {
          SlashSegmentsStep(before, e0);
          var s :- ParseSegment(tb);
          ExtendedTwice(segments, [s], SlashSegmentsMatch(tb.unread, e0));
          segments := segments + [s];
          continue;
        }
        tb.Push(t.value);
      }
      break;
    }
    assert segments + [] == segments;
    r := Ok(segments);
  }

  method ParsePathRootless(tb: TokenBuffer) returns (r: Result<Option<Path>>)
    requires tb.Valid()
    modifies tb, tb.stream
    ensures tb.Valid()
    ensures r == NodeOf(RootlessMatch(old(tb.unread), old(tb.ending)))
    ensures r.Ok? ==> tb.unread == RootlessMatch(old(tb.unread), old(tb.ending)).value.rest && tb.ending == old(tb.ending)
  {
    var first :- ParseSegmentNz(tb);
    if first.None? {
      return Ok(None);
    }
    var more :- PopSlashSegmentsToEnd(tb);
    r := Ok(Some(Path([first.value] + more, false)));
  }

  method ParsePathAbsolute(tb: TokenBuffer) returns (r: Result<Option<Path>>)
    requires tb.Valid()
    modifies tb, tb.stream
    ensures tb.Valid()
    ensures r == NodeOf(AbsoluteMatch(old(tb.unread), old(tb.ending)))
    ensures r.Ok? ==> tb.unread == AbsoluteMatch(old(tb.unread), old(tb.ending)).value.rest && tb.ending == old(tb.ending)
  {
    var t :- tb.Pop();
    if t.Some? {
      if t.value.Is('/' as u8) {
        var rootless :- ParsePathRootless(tb);
        if rootless.Some? {
          r := Ok(Some(Path(rootless.value.segments, true)));
        } else {
          r := Ok(Some(Path([Segment([])], true)));
        }
      } else {
        tb.Push(t.value);
        r := Ok(None);
      }
    } else {
      r := Ok(None);
    }
  }

  method ParsePath(tb: TokenBuffer) returns (r: Result<Path>)
    requires tb.Valid()
    modifies tb, tb.stream
    ensures tb.Valid()
    ensures r == NodeOf(PathMatch(old(tb.unread), old(tb.ending)))
    ensures r.Ok? ==> tb.unread == PathMatch(old(tb.unread), old(tb.ending)).value.rest && tb.ending == old(tb.ending)
  {
    ghost var u0, e0 := tb.unread, tb.ending;
    AbsoluteMatchSpec(u0, e0);
    RootlessMatchSpec(u0, e0);
    var absolute :- ParsePathAbsolute(tb);
    if absolute.Some? {
      return Ok(absolute.value);
    }
    var rootless :- ParsePathRootless(tb);
    if rootless.Some? {
      return Ok(rootless.value);
    }
    r := Ok(Path([Segment([])], false));
  }

  method ParsePathEmpty(tb: TokenBuffer) returns (r: Result<Option<Path>>)
    requires tb.Valid()
    modifies tb, tb.stream
    ensures tb.Valid()
    ensures r == NodeOf(PathEmptyMatch(old(tb.unread), old(tb.ending)))
    ensures r.Ok? ==> tb.unread == PathEmptyMatch(old(tb.unread), old(tb.ending)).value.rest && tb.ending == old(tb.ending)
  {
    var t :- tb.Pop();
    var path: Option<Path>;
    if t.Some? {
      if t.value.IsPchar() {
        path := None;
      } else {
        path := Some(Path([], false));
      }
      tb.Push(t.value);
    } else {
      path := Some(Path([Segment([])], false));
    }
    r := Ok(path);
  }
}
