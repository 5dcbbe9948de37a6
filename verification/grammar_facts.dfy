/**
 * What each grammar function of UriGrammar reads: the characters it consumes,
 * where it stops, when it fails, and the shape of the node it builds.
 */
module GrammarFacts {
  import opened CharBuf
  import opened UriNodes
  import opened UriGrammar

  // Class runs

  lemma AllInTail(k: CharClass, t: seq<Char>)
    requires t != [] && AllIn(k, t)
    ensures InClass(k, t[0]) && AllIn(k, t[1..])
  {
    forall i | 0 <= i < |t[1..]| ensures InClass(k, t[1..][i]) {
      assert t[1..][i] == t[i + 1];
    }
  }

  lemma AllInCons(k: CharClass, c: Char, t: seq<Char>)
    requires InClass(k, c) && AllIn(k, t)
    ensures AllIn(k, [c] + t)
  {
    var s := [c] + t;
    forall i | 0 <= i < |s| ensures InClass(k, s[i]) {
      if i > 0 { assert s[i] == t[i - 1]; }
    }
  }

  lemma DropPrefix<T>(u: seq<T>, t: seq<T>, rest: seq<T>)
    requires u == t + rest
    ensures |t| <= |u| && u[|t|..] == rest
  {
  }

  /** Lead counts class-k characters from the front and stops only at max, the end, or a character outside k. */
  lemma {:induction false} LeadIsLongest(k: CharClass, u: seq<Char>, max: nat)
    ensures AllIn(k, u[..Lead(k, u, max)])
    ensures Lead(k, u, max) < max && Lead(k, u, max) < |u| ==> !InClass(k, u[Lead(k, u, max)])
    decreases max
  {
    if max > 0 && u != [] && InClass(k, u[0]) {
      LeadIsLongest(k, u[1..], max - 1);
      var n := Lead(k, u[1..], max - 1);
      assert u[..n + 1] == [u[0]] + u[1..][..n];
      AllInCons(k, u[0], u[1..][..n]);
      if n + 1 < |u| {
        assert u[n + 1] == u[1..][n];
      }
    }
  }

  /** Run reads the longest prefix of class k up to max characters, or fails when the input breaks off before. */
  lemma {:induction false} RunReadsLead(k: CharClass, u: seq<Char>, e: Ending, max: nat)
    ensures Run(k, u, e, max).Ok? ==> Run(k, u, e, max).value == u[..Lead(k, u, max)]
    ensures Run(k, u, e, max).Err? <==> Lead(k, u, max) == |u| < max && e.Broken?
    ensures Run(k, u, e, max).Err? ==> e == Broken(Run(k, u, e, max).error)
    decreases max
  {
    if max > 0 && u != [] && InClass(k, u[0]) {
      RunReadsLead(k, u[1..], e, max - 1);
      var n := Lead(k, u[1..], max - 1);
      assert Lead(k, u, max) == 1 + n;
      assert u[..1 + n] == [u[0]] + u[1..][..n];
    }
  }

  /** Run reads exactly up to max characters or the first character outside k. */
  lemma {:induction false} RunStops(k: CharClass, u: seq<Char>, t: seq<Char>, rest: seq<Char>, e: Ending, max: nat)
    requires u == t + rest && AllIn(k, t) && |t| <= max
    requires |t| == max || (rest == [] && e.Clean?) || (rest != [] && !InClass(k, rest[0]))
    ensures Run(k, u, e, max) == Ok(t)
    decreases |t|
  {
    if t != [] {
      assert u == [t[0]] + (t[1..] + rest);
      AllInTail(k, t);
      RunStops(k, t[1..] + rest, t[1..], rest, e, max - 1);
      assert u[1..] == t[1..] + rest;
      assert [t[0]] + t[1..] == t;
    }
  }

  /** A run that reaches a broken end of input before max characters fails with that error. */
  lemma {:induction false} RunBroken(k: CharClass, u: seq<Char>, e: Ending, max: nat)
    requires AllIn(k, u) && |u| < max && e.Broken?
    ensures Run(k, u, e, max) == Err(e.error)
    decreases |u|
  {
    if u != [] {
      AllInTail(k, u);
      RunBroken(k, u[1..], e, max - 1);
    }
  }

  /** Munch reads the longest class-k prefix, and fails exactly when the input breaks off inside it. */
  lemma {:induction false} MunchSpec(k: CharClass, u: seq<Char>, e: Ending)
    ensures var r := Munch(k, u, e); r.Ok? ==> StoppedAfter(k, u, r.value, u[|r.value|..], e)
    ensures var r := Munch(k, u, e); r.Err? <==> AllIn(k, u) && e.Broken?
    ensures var r := Munch(k, u, e); r.Err? ==> e == Broken(r.error)
    decreases |u|
  {
    if u != [] && InClass(k, u[0]) {
      MunchSpec(k, u[1..], e);
      assert u == [u[0]] + u[1..];
      MunchCons(k, u[0], u[1..], e);
    } else if u != [] {
      assert u[0..] == u;
    }
  }

  /** The inductive step of MunchSpec: one more character of class k in front. */
  lemma MunchCons(k: CharClass, c: Char, tail: seq<Char>, e: Ending)
    requires InClass(k, c)
    requires var m := Munch(k, tail, e); m.Ok? ==> StoppedAfter(k, tail, m.value, tail[|m.value|..], e)
    requires var m := Munch(k, tail, e); m.Err? <==> AllIn(k, tail) && e.Broken?
    requires var m := Munch(k, tail, e); m.Err? ==> e == Broken(m.error)
    ensures var r := Munch(k, [c] + tail, e); r.Ok? ==> StoppedAfter(k, [c] + tail, r.value, ([c] + tail)[|r.value|..], e)
    ensures var r := Munch(k, [c] + tail, e); r.Err? <==> AllIn(k, [c] + tail) && e.Broken?
    ensures var r := Munch(k, [c] + tail, e); r.Err? ==> e == Broken(r.error)
  {
    var u := [c] + tail;
    assert u[0] == c && u[1..] == tail;
    var m := Munch(k, tail, e);
    if m.Ok? {
      var t := m.value;
      assert Munch(k, u, e) == Ok([c] + t);
      AllInCons(k, c, t);
      assert tail[|t|..] == u[|[c] + t|..];
      if AllIn(k, u) {
        AllInTail(k, u);
      }
    } else {
      AllInCons(k, c, tail);
    }
  }

  /** Munch reads exactly up to the first character outside k: any split that stops there is its result. */
  lemma {:induction false} MunchStops(k: CharClass, u: seq<Char>, t: seq<Char>, rest: seq<Char>, e: Ending)
    requires StoppedAfter(k, u, t, rest, e)
    ensures Munch(k, u, e) == Ok(t)
    decreases |t|
  {
    if t != [] {
      AllInTail(k, t);
      assert u[0] == t[0];
      assert u[1..] == t[1..] + rest;
      MunchStops(k, u[1..], t[1..], rest, e);
      assert [t[0]] + t[1..] == t;
    } else {
      assert u == rest;
    }
  }

  // segment, segment-nz, segment-nz-nc, query, fragment

  /** segment: every pchar up to the first character that is not one. */
  lemma SegmentMatchSpec(u: seq<Char>, e: Ending)
    ensures var r := SegmentMatch(u, e); r.Ok? ==> StoppedAfter(PcharClass, u, r.value.node.chars, r.value.rest, e)
    ensures var r := SegmentMatch(u, e); r.Err? <==> AllIn(PcharClass, u) && e.Broken?
    ensures var r := SegmentMatch(u, e); r.Err? ==> e == Broken(r.error)
  {
    MunchSpec(PcharClass, u, e);
  }

  /** segment-nz: a segment, absent (and nothing consumed) when it would be empty. */
  lemma SegmentNzMatchSpec(u: seq<Char>, e: Ending)
    ensures var r := SegmentNzMatch(u, e); r.Ok? ==> (r.value.node.None? <==> u == [] || !u[0].IsPchar())
    ensures var r := SegmentNzMatch(u, e); r.Ok? && r.value.node.None? ==> r.value.rest == u
    ensures var r := SegmentNzMatch(u, e); r.Ok? && r.value.node.Some? ==>
      r.value.node.value.chars != [] && StoppedAfter(PcharClass, u, r.value.node.value.chars, r.value.rest, e)
    ensures var r := SegmentNzMatch(u, e); r.Err? <==> AllIn(PcharClass, u) && e.Broken?
    ensures var r := SegmentNzMatch(u, e); r.Err? ==> e == Broken(r.error)
  {
    MunchSpec(PcharClass, u, e);
    var m := Munch(PcharClass, u, e);
    if m.Ok? && m.value != [] {
      assert u[0] == m.value[0];
    }
  }

  /** segment-nz-nc: like segment-nz, over the characters of NoColonClass. */
  lemma SegmentNzNcMatchSpec(u: seq<Char>, e: Ending)
    ensures var r := SegmentNzNcMatch(u, e); r.Ok? ==> (r.value.node.None? <==> u == [] || !InClass(NoColonClass, u[0]))
    ensures var r := SegmentNzNcMatch(u, e); r.Ok? && r.value.node.None? ==> r.value.rest == u
    ensures var r := SegmentNzNcMatch(u, e); r.Ok? && r.value.node.Some? ==>
      r.value.node.value.chars != [] && StoppedAfter(NoColonClass, u, r.value.node.value.chars, r.value.rest, e)
    ensures var r := SegmentNzNcMatch(u, e); r.Err? <==> AllIn(NoColonClass, u) && e.Broken?
    ensures var r := SegmentNzNcMatch(u, e); r.Err? ==> e == Broken(r.error)
  {
    MunchSpec(NoColonClass, u, e);
    var m := Munch(NoColonClass, u, e);
    if m.Ok? && m.value != [] {
      assert u[0] == m.value[0];
    }
  }

  /** The class of segment-nz-nc is pchar without ':'. */
  lemma NoColonIsPcharButColon(c: Char)
    ensures InClass(NoColonClass, c) <==> c.IsPchar() && !c.Is(':' as u8)
  {
  }

  /** The class of query and fragment is pchar, '/' and '?'. */
  lemma QueryClassIsPcharSlashQuestion(c: Char)
    ensures InClass(QueryClass, c) <==> c.IsPchar() || c.Is('/' as u8) || c.Is('?' as u8)
    ensures InClass(QueryClass, c) ==> !c.Is('#' as u8)
  {
  }

  /** fragment: every pchar, '/' and '?' up to the first other character. */
  lemma FragmentMatchSpec(u: seq<Char>, e: Ending)
    ensures var r := FragmentMatch(u, e); r.Ok? ==> StoppedAfter(QueryClass, u, r.value.node.chars, r.value.rest, e)
    ensures var r := FragmentMatch(u, e); r.Err? <==> AllIn(QueryClass, u) && e.Broken?
    ensures var r := FragmentMatch(u, e); r.Err? ==> e == Broken(r.error)
  {
    MunchSpec(QueryClass, u, e);
  }

  /** query reads exactly what fragment reads. */
  lemma QueryMatchSpec(u: seq<Char>, e: Ending)
    ensures var r := QueryMatch(u, e); r.Ok? ==> StoppedAfter(QueryClass, u, r.value.node.chars, r.value.rest, e)
    ensures var r := QueryMatch(u, e); r.Ok? <==> FragmentMatch(u, e).Ok?
    ensures var r := QueryMatch(u, e); r.Ok? ==>
      r.value.node.chars == FragmentMatch(u, e).value.node.chars && r.value.rest == FragmentMatch(u, e).value.rest
    ensures var r := QueryMatch(u, e); r.Err? ==> e == Broken(r.error)
  {
    FragmentMatchSpec(u, e);
  }

  // dec-octet, h16, IPv4address

  lemma {:induction false} HornerGrows(acc: nat, cs: seq<Char>)
    ensures Horner(acc, cs) >= acc
    decreases |cs|
  {
    if cs != [] {
      HornerGrows(acc * 10 + DigitOf(cs[0]), cs[1..]);
    }
  }

  lemma {:induction false} AccumulateDigits(t: seq<Char>, acc: u8)
    requires AllIn(DigitClass, t)
    ensures Accumulate(RenderAll(t), acc) == if Horner(acc as nat, t) <= 255 then Some(Horner(acc as nat, t) as u8) else None
    decreases |t|
  {
    if t != [] {
      var s := RenderAll(t);
      AllInTail(DigitClass, t);
      assert s == [t[0].b as char] + RenderAll(t[1..]);
      assert s[0] as int - '0' as int == DigitOf(t[0]);
      var next := acc as nat * 10 + DigitOf(t[0]);
      HornerGrows(next, t[1..]);
      if next <= 255 {
        AccumulateDigits(t[1..], next as u8);
      }
    }
  }

  /** On a run of digit characters, `str::parse::<u8>` succeeds exactly when the run is non-empty and its value is at most 255. */
  lemma ParseU8Digits(t: seq<Char>)
    requires AllIn(DigitClass, t)
    ensures ParseU8(RenderAll(t)).Some? <==> 0 < |t| && DecimalValue(t) <= 255
  {
    if t != [] {
      assert InClass(DigitClass, t[0]);
      assert RenderAll(t)[0] == t[0].b as char;
      AccumulateDigits(t, 0);
    }
  }

  /** dec-octet: the longest run of up to three digits, accepted when its value fits in a byte; otherwise nothing is consumed. */
  lemma DecOctetMatchSpec(u: seq<Char>, e: Ending)
    ensures var r := DecOctetMatch(u, e); r.Err? <==> Lead(DigitClass, u, 3) == |u| < 3 && e.Broken?
    ensures var r := DecOctetMatch(u, e); r.Err? ==> e == Broken(r.error)
    ensures var r := DecOctetMatch(u, e); var n := Lead(DigitClass, u, 3);
      r.Ok? ==> (r.value.node.Some? <==> 0 < n && DecimalValue(u[..n]) <= 255)
    ensures var r := DecOctetMatch(u, e); var n := Lead(DigitClass, u, 3);
      r.Ok? && r.value.node.Some? ==> r.value.node.value.digits == u[..n] && r.value.rest == u[n..]
    ensures var r := DecOctetMatch(u, e);
      r.Ok? && r.value.node.Some? ==> u == r.value.node.value.digits + r.value.rest && ValidDecOctet(r.value.node.value)
    ensures var r := DecOctetMatch(u, e); r.Ok? && r.value.node.None? ==> r.value.rest == u
  {
    RunReadsLead(DigitClass, u, e, 3);
    LeadIsLongest(DigitClass, u, 3);
    var t := Run(DigitClass, u, e, 3);
    if t.Ok? {
      DigitRun(u, t.value, Lead(DigitClass, u, 3));
    }
  }

  lemma DigitRun(u: seq<Char>, t: seq<Char>, n: nat)
    requires n <= 3 && n <= |u| && t == u[..n] && AllIn(DigitClass, t)
    ensures ParseU8(RenderAll(t)).Some? <==> 0 < n && DecimalValue(t) <= 255
    ensures ParseU8(RenderAll(t)).Some? ==> ValidDecOctet(DecOctet(t))
    ensures u == t + u[n..] && u[|t|..] == u[n..]
  {
    ParseU8Digits(t);
  }

  /** h16: exactly four hex characters, or nothing consumed. */
  lemma H16MatchSpec(u: seq<Char>, e: Ending)
    ensures var r := H16Match(u, e); r.Err? <==> Lead(HexClass, u, 4) == |u| < 4 && e.Broken?
    ensures var r := H16Match(u, e); r.Err? ==> e == Broken(r.error)
    ensures var r := H16Match(u, e); r.Ok? ==> (r.value.node.Some? <==> 4 <= |u| && AllIn(HexClass, u[..4]))
    ensures var r := H16Match(u, e); r.Ok? && r.value.node.Some? ==>
      u == H16Text(r.value.node.value) + r.value.rest && AllIn(HexClass, H16Text(r.value.node.value))
    ensures var r := H16Match(u, e); r.Ok? && r.value.node.None? ==> r.value.rest == u
  {
    RunReadsLead(HexClass, u, e, 4);
    FullLead(HexClass, u, 4);
    var t := Run(HexClass, u, e, 4);
    if t.Ok? && |t.value| == 4 {
      LeadIsLongest(HexClass, u, 4);
      QuadText(u, t.value);
    }
  }

  /** When the first max characters are all of class k, Lead counts all of them. */
  lemma FullLead(k: CharClass, u: seq<Char>, max: nat)
    ensures max <= |u| && AllIn(k, u[..max]) ==> Lead(k, u, max) == max
  {
    LeadIsLongest(k, u, max);
  }

  lemma QuadText(u: seq<Char>, t: seq<Char>)
    requires |t| == 4 && |u| >= 4 && t == u[..4]
    ensures u == H16Text(H16(t[0], t[1], t[2], t[3])) + u[4..]
  {
    assert t == [t[0], t[1], t[2], t[3]];
    assert u == t + u[4..];
  }

  /** What a dec-octet consumes is its digits; a missing one consumes nothing. */
  lemma DecOctetRest(u: seq<Char>, e: Ending)
    ensures var r := DecOctetMatch(u, e); r.Ok? && r.value.node.None? ==> r.value.rest == u
    ensures var r := DecOctetMatch(u, e); r.Ok? && r.value.node.Some? ==> u == r.value.node.value.digits + r.value.rest
  {
    RunReadsLead(DigitClass, u, e, 3);
  }

  /** What "." dec-octet consumes is the dot and the digits; a missing one consumes nothing. */
  lemma DottedOctetRest(u: seq<Char>, e: Ending)
    ensures var r := DottedOctetMatch(u, e); r.Ok? && r.value.node.None? ==> r.value.rest == u
    ensures var r := DottedOctetMatch(u, e); r.Ok? && r.value.node.Some? ==> u == [DOT] + (r.value.node.value.digits + r.value.rest)
  {
    var q := DotMatch(u, e);
    if q.Ok? && q.value.node.Some? {
      DecOctetRest(q.value.rest, e);
    }
  }

  /** The dot step of parse_ipv4_address: a '.' is consumed, anything else is put back. */
  lemma DotMatchSpec(u: seq<Char>, e: Ending)
    ensures var r := DotMatch(u, e); r.Ok? && r.value.node.Some? ==>
      u != [] && u[0] == DOT && r.value.node.value == DOT && r.value.rest == u[1..]
    ensures var r := DotMatch(u, e); r.Ok? && r.value.node.None? ==> r.value.rest == u && (u == [] || u[0] != DOT)
    ensures var r := DotMatch(u, e); r.Err? <==> u == [] && e.Broken?
    ensures var r := DotMatch(u, e); r.Err? ==> e == Broken(r.error)
  {
  }

  /** "." dec-octet: both or nothing consumed. */
  lemma DottedOctetMatchSpec(u: seq<Char>, e: Ending)
    ensures var r := DottedOctetMatch(u, e); r.Ok? && r.value.node.None? ==> r.value.rest == u
    ensures var r := DottedOctetMatch(u, e); r.Ok? && r.value.node.Some? ==>
      u == [DOT] + (r.value.node.value.digits + r.value.rest) && ValidDecOctet(r.value.node.value)
    ensures var r := DottedOctetMatch(u, e); r.Err? ==> e == Broken(r.error)
  {
    DottedOctetRest(u, e);
    var q := DotMatch(u, e);
    if q.Ok? && q.value.node.Some? {
      DecOctetValid(q.value.rest, e);
    }
  }

  lemma DecOctetValid(u: seq<Char>, e: Ending)
    ensures var r := DecOctetMatch(u, e); r.Ok? && r.value.node.Some? ==> ValidDecOctet(r.value.node.value)
    ensures var r := DecOctetMatch(u, e); r.Err? ==> e == Broken(r.error)
  {
    DecOctetMatchSpec(u, e);
  }

  lemma Ipv4Concat(u: seq<Char>, a: Ipv4Address, r1: seq<Char>, r2: seq<Char>, r3: seq<Char>, r4: seq<Char>)
    requires u == a.d1.digits + r1
    requires r1 == [DOT] + (a.d2.digits + r2)
    requires r2 == [DOT] + (a.d3.digits + r3)
    requires r3 == [DOT] + (a.d4.digits + r4)
    ensures u == Ipv4Text(a) + r4
  {
  }

  /** IPv4address: four valid dec-octets joined by dots, all consumed, or nothing consumed. */
  lemma Ipv4MatchSpec(u: seq<Char>, e: Ending)
    ensures var r := Ipv4Match(u, e); r.Ok? && r.value.node.None? ==> r.value.rest == u
    ensures var r := Ipv4Match(u, e); r.Ok? && r.value.node.Some? ==>
      u == Ipv4Text(r.value.node.value) + r.value.rest && ValidIpv4(r.value.node.value)
    ensures var r := Ipv4Match(u, e); r.Err? ==> e == Broken(r.error)
  {
    DecOctetMatchSpec(u, e);
    match DecOctetMatch(u, e)
    case Err(_) =>
    case Ok(p1) =>
      if p1.node.Some? {
        DottedOctetMatchSpec(p1.rest, e);
        match DottedOctetMatch(p1.rest, e)
        case Err(_) =>
        case Ok(p2) =>
          if p2.node.Some? {
            DottedOctetMatchSpec(p2.rest, e);
            match DottedOctetMatch(p2.rest, e)
            case Err(_) =>
            case Ok(p3) =>
              if p3.node.Some? {
                DottedOctetMatchSpec(p3.rest, e);
                match DottedOctetMatch(p3.rest, e)
                case Err(_) =>
                case Ok(p4) =>
                  if p4.node.Some? {
                    var a := Ipv4Address(p1.node.value, p2.node.value, p3.node.value, p4.node.value);
                    Ipv4Concat(u, a, p1.rest, p2.rest, p3.rest, p4.rest);
                  }
              }
          }
      }
  }

  // Paths

  lemma SlashCons(u: seq<Char>, s: Segment, mid: seq<Char>, more: seq<Segment>, rest: seq<Char>)
    requires u != [] && u[0] == SLASH && u[1..] == s.chars + mid && AllIn(PcharClass, s.chars)
    requires mid == SlashText(more) + rest && AllPchar(more)
    ensures u == SlashText([s] + more) + rest && AllPchar([s] + more)
  {
    var segments := [s] + more;
    assert segments[1..] == more;
    assert forall i :: 1 <= i < |segments| ==> segments[i] == more[i - 1];
  }

  lemma ExtendedNothing(r: Result<Parsed<seq<Segment>>>)
    ensures Extended([], r) == r
  {
    if r.Ok? {
      assert [] + r.value.node == r.value.node;
    }
  }

  lemma ExtendedTwice(a: seq<Segment>, b: seq<Segment>, r: Result<Parsed<seq<Segment>>>)
    ensures Extended(a, Extended(b, r)) == Extended(a + b, r)
  {
    if r.Ok? {
      assert a + (b + r.value.node) == (a + b) + r.value.node;
    }
  }

  /** After a '/', the loop reads a segment and goes on from where that segment stopped. */
  lemma SlashSegmentsStep(u: seq<Char>, e: Ending)
    requires u != [] && u[0].Is('/' as u8)
    ensures SegmentMatch(u[1..], e).Err? ==> SlashSegmentsMatch(u, e) == Err(SegmentMatch(u[1..], e).error)
    ensures SegmentMatch(u[1..], e).Ok? ==>
      SlashSegmentsMatch(u, e) ==
      Extended([SegmentMatch(u[1..], e).value.node], SlashSegmentsMatch(SegmentMatch(u[1..], e).value.rest, e))
  {
  }

  /** *( "/" segment ): reads "/" segment while a '/' comes next, and stops in front of the first other character. */
  lemma {:induction false} SlashSegmentsMatchSpec(u: seq<Char>, e: Ending)
    ensures var r := SlashSegmentsMatch(u, e); r.Ok? ==> u == SlashText(r.value.node) + r.value.rest && AllPchar(r.value.node)
    ensures var r := SlashSegmentsMatch(u, e); r.Ok? ==>
      (r.value.rest == [] ==> e.Clean?) && (r.value.rest != [] ==> !r.value.rest[0].Is('/' as u8))
    ensures var r := SlashSegmentsMatch(u, e); r.Ok? && r.value.node != [] && r.value.rest != [] ==> !r.value.rest[0].IsPchar()
    ensures var r := SlashSegmentsMatch(u, e); r.Ok? ==> (r.value.node == [] <==> u == [] || !u[0].Is('/' as u8))
    ensures var r := SlashSegmentsMatch(u, e); r.Ok? && r.value.node == [] ==> r.value.rest == u
    ensures var r := SlashSegmentsMatch(u, e); r.Err? ==> e == Broken(r.error)
    decreases |u|
  {
    if u != [] && u[0].Is('/' as u8) {
      SegmentMatchSpec(u[1..], e);
      match SegmentMatch(u[1..], e)
      case Err(_) =>
      case Ok(s) =>
        SlashSegmentsMatchSpec(s.rest, e);
        match SlashSegmentsMatch(s.rest, e)
        case Err(_) =>
        case Ok(more) =>
          SlashCons(u, s.node, s.rest, more.node, more.rest);
    }
  }

  /** The "/" segment loop halts exactly when the input does not end cleanly right after it. */
  lemma {:induction false} SlashLoopHaltsIff(u: seq<Char>, e: Ending)
    ensures SlashLoopHalts(u, e) <==> !(SlashSegmentsMatch(u, e).Ok? && SlashSegmentsMatch(u, e).value.rest == [])
    decreases |u|
  {
    if u != [] && u[0].Is('/' as u8) {
      match SegmentMatch(u[1..], e)
      case Err(_) =>
      case Ok(s) => SlashLoopHaltsIff(s.rest, e);
    }
  }

  lemma SlashTextIsPath(segments: seq<Segment>)
    requires segments != []
    ensures SlashText(segments) == [SLASH] + PathText(Path(segments, false))
  {
  }

  /** path-abempty: one or more "/" segment, kept as segments of a path that is not absolute, which does not end the input. */
  lemma AbemptyMatchSpec(u: seq<Char>, e: Ending)
    requires SlashLoopHalts(u, e)
    ensures var r := AbemptyMatch(u, e); r.Ok? ==> u != [] && (r.value.node.None? <==> !u[0].Is('/' as u8))
    ensures var r := AbemptyMatch(u, e); r.Ok? && r.value.node.None? ==> r.value.rest == u
    ensures var r := AbemptyMatch(u, e); r.Ok? && r.value.node.Some? ==>
      !r.value.node.value.absolute && r.value.node.value.segments != [] && AllPchar(r.value.node.value.segments)
    ensures var r := AbemptyMatch(u, e); r.Ok? && r.value.node.Some? ==> u == [SLASH] + PathText(r.value.node.value) + r.value.rest
    ensures var r := AbemptyMatch(u, e); r.Ok? ==> r.value.rest != [] && !r.value.rest[0].Is('/' as u8)
    ensures var r := AbemptyMatch(u, e); r.Err? ==> e == Broken(r.error)
  {
    SlashSegmentsMatchSpec(u, e);
    SlashLoopHaltsIff(u, e);
    var l := SlashSegmentsMatch(u, e);
    if l.Ok? && l.value.node != [] {
      SlashTextIsPath(l.value.node);
    }
  }

  /** A first segment, then "/" segment repeated, read as a path. */
  lemma FirstThenSlashes(u: seq<Char>, first: Segment, mid: seq<Char>, more: seq<Segment>, rest: seq<Char>)
    requires u == first.chars + mid && mid == SlashText(more) + rest
    ensures u == PathText(Path([first] + more, false)) + rest
  {
    assert ([first] + more)[1..] == more;
  }

  lemma WellFormedCons(first: Segment, more: seq<Segment>)
    requires first.chars != [] && AllIn(PcharClass, first.chars) && AllPchar(more)
    ensures WellFormedPath(Path([first] + more, false))
  {
    var segments := [first] + more;
    assert forall i :: 1 <= i < |segments| ==> segments[i] == more[i - 1];
  }

  /** path-noscheme: a segment-nz-nc, then "/" segment repeated. */
  lemma NoschemeMatchSpec(u: seq<Char>, e: Ending)
    requires NoschemeHalts(u, e)
    ensures var r := NoschemeMatch(u, e); r.Ok? ==> (r.value.node.None? <==> u == [] || !InClass(NoColonClass, u[0]))
    ensures var r := NoschemeMatch(u, e); r.Ok? && r.value.node.None? ==> r.value.rest == u
    ensures var r := NoschemeMatch(u, e); r.Ok? && r.value.node.Some? ==>
      !r.value.node.value.absolute && u == PathText(r.value.node.value) + r.value.rest
    ensures var r := NoschemeMatch(u, e); r.Ok? && r.value.node.Some? ==>
      r.value.node.value.segments != [] && r.value.node.value.segments[0].chars != []
      && AllIn(NoColonClass, r.value.node.value.segments[0].chars) && AllPchar(r.value.node.value.segments[1..])
    ensures var r := NoschemeMatch(u, e); r.Ok? && r.value.node.Some? ==> r.value.rest != [] && !r.value.rest[0].Is('/' as u8)
    ensures var r := NoschemeMatch(u, e); r.Err? ==> e == Broken(r.error)
  {
    SegmentNzNcMatchSpec(u, e);
    match SegmentNzNcMatch(u, e)
    case Err(_) =>
    case Ok(f) =>
      if f.node.Some? {
        SlashSegmentsMatchSpec(f.rest, e);
        SlashLoopHaltsIff(f.rest, e);
        match SlashSegmentsMatch(f.rest, e)
        case Err(_) =>
        case Ok(l) =>
          FirstThenSlashes(u, f.node.value, f.rest, l.node, l.rest);
          assert ([f.node.value] + l.node)[1..] == l.node;
      }
  }

  /** path-rootless: a segment-nz, then "/" segment repeated, stopping in front of the first character that is neither pchar nor '/'. */
  lemma RootlessMatchSpec(u: seq<Char>, e: Ending)
    ensures var r := RootlessMatch(u, e); r.Ok? ==> (r.value.node.None? <==> u == [] || !u[0].IsPchar())
    ensures var r := RootlessMatch(u, e); r.Ok? && r.value.node.None? ==> r.value.rest == u
    ensures var r := RootlessMatch(u, e); r.Ok? && r.value.node.Some? ==>
      !r.value.node.value.absolute && u == PathText(r.value.node.value) + r.value.rest
    ensures var r := RootlessMatch(u, e); r.Ok? && r.value.node.Some? ==>
      WellFormedPath(r.value.node.value) && r.value.node.value.segments[0].chars != []
    ensures var r := RootlessMatch(u, e); r.Ok? && r.value.node.Some? ==>
      (r.value.rest == [] ==> e.Clean?) && (r.value.rest != [] ==> !r.value.rest[0].Is('/' as u8) && !r.value.rest[0].IsPchar())
    ensures var r := RootlessMatch(u, e); r.Err? ==> e == Broken(r.error)
  {
    SegmentNzMatchSpec(u, e);
    match SegmentNzMatch(u, e)
    case Err(_) =>
    case Ok(f) =>
      if f.node.Some? {
        SlashSegmentsMatchSpec(f.rest, e);
        match SlashSegmentsMatch(f.rest, e)
        case Err(_) =>
        case Ok(l) =>
          FirstThenSlashes(u, f.node.value, f.rest, l.node, l.rest);
          WellFormedCons(f.node.value, l.node);
      }
  }

  /** The text of an absolute path is '/' and then the text of the same segments. */
  lemma SlashPathText(segments: seq<Segment>)
    ensures PathText(Path(segments, true)) == [SLASH] + PathText(Path(segments, false))
  {
  }

  /** path-absolute: a '/' and then a path-rootless, or one empty segment when no pchar follows the '/'. */
  lemma AbsoluteMatchSpec(u: seq<Char>, e: Ending)
    ensures var r := AbsoluteMatch(u, e); r.Ok? ==> (r.value.node.None? <==> u == [] || !u[0].Is('/' as u8))
    ensures var r := AbsoluteMatch(u, e); r.Ok? && r.value.node.None? ==> r.value.rest == u
    ensures var r := AbsoluteMatch(u, e); r.Ok? && r.value.node.Some? ==>
      r.value.node.value.absolute && u == PathText(r.value.node.value) + r.value.rest && WellFormedPath(r.value.node.value)
    ensures var r := AbsoluteMatch(u, e); r.Ok? && r.value.node.Some? && (|u| == 1 || !u[1].IsPchar()) ==>
      r.value.node.value.segments == [Segment([])] && r.value.rest == u[1..]
    ensures var r := AbsoluteMatch(u, e); r.Err? ==> e == Broken(r.error)
  {
    if u != [] && u[0].Is('/' as u8) {
      RootlessMatchSpec(u[1..], e);
      match RootlessMatch(u[1..], e)
      case Err(_) =>
      case Ok(q) =>
        var p := if q.node.Some? then Path(q.node.value.segments, true) else Path([Segment([])], true);
        AbsoluteText(u, p, q.node, q.rest);
    }
  }

  lemma AbsoluteText(u: seq<Char>, p: Path, q: Option<Path>, rest: seq<Char>)
    requires u != [] && u[0] == SLASH
    requires q.Some? ==> u[1..] == PathText(q.value) + rest && !q.value.absolute && WellFormedPath(q.value)
    requires q.None? ==> rest == u[1..]
    requires p == if q.Some? then Path(q.value.segments, true) else Path([Segment([])], true)
    ensures u == PathText(p) + rest && WellFormedPath(p)
  {
    assert u == [SLASH] + u[1..];
    if q.None? {
      assert PathText(p) == [SLASH];
    } else {
      SlashPathText(q.value.segments);
    }
  }

  /** path: path-absolute, else path-rootless, else a path of one empty segment that consumes nothing. */
  lemma PathMatchSpec(u: seq<Char>, e: Ending)
    ensures var r := PathMatch(u, e); r.Ok? ==> u == PathText(r.value.node) + r.value.rest && WellFormedPath(r.value.node)
    ensures var r := PathMatch(u, e); r.Ok? ==> (r.value.node.absolute <==> u != [] && u[0].Is('/' as u8))
    ensures var r := PathMatch(u, e); r.Ok? && (u == [] || (!u[0].Is('/' as u8) && !u[0].IsPchar())) ==>
      r.value.node == Path([Segment([])], false) && r.value.rest == u
    ensures var r := PathMatch(u, e); r.Err? ==> e == Broken(r.error)
  {
    AbsoluteMatchSpec(u, e);
    RootlessMatchSpec(u, e);
    assert PathText(Path([Segment([])], false)) == [];
  }

  /** path-empty: consumes nothing; a path with no segments in front of a character that is not pchar, one empty segment at the end of input. */
  lemma PathEmptyMatchSpec(u: seq<Char>, e: Ending)
    ensures var r := PathEmptyMatch(u, e); r.Ok? ==> r.value.rest == u
    ensures var r := PathEmptyMatch(u, e); r.Ok? ==> (r.value.node.None? <==> u != [] && u[0].IsPchar())
    ensures var r := PathEmptyMatch(u, e); r.Ok? && u != [] && !u[0].IsPchar() ==> r.value.node == Some(Path([], false))
    ensures var r := PathEmptyMatch(u, e); r.Ok? && u == [] ==> r.value.node == Some(Path([Segment([])], false))
    ensures var r := PathEmptyMatch(u, e); r.Err? <==> u == [] && e.Broken?
    ensures var r := PathEmptyMatch(u, e); r.Err? ==> e == Broken(r.error)
  {
  }
}
