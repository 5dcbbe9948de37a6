/**
 * Concrete inputs from the crate's test suite, and inputs on which the code
 * departs from the ABNF of RFC 3986, each stated on the grammar functions.
 */
module Examples {
  import opened CharBuf
  import opened UriNodes
  import opened UriGrammar
  import opened RoundTrips

  /** The literal characters of an ASCII string. */
  function Text(s: string): seq<Char>
    decreases |s|
  {
    if s == [] then [] else [Ascii((s[0] as int % 256) as u8)] + Text(s[1..])
  }

  // dec-octet

  lemma DecOctetEmpty()
    ensures DecOctetMatch([], Clean) == Ok(Parsed(None, []))
  {
  }

  lemma DecOctetStopsAtDot()
    ensures DecOctetMatch(Text("1."), Clean) == Ok(Parsed(Some(DecOctet(Text("1"))), Text(".")))
  {
    var u := Text("1.");
    assert u == [Ascii('1' as u8), DOT] && u[1..] == [DOT];
    assert Run(DigitClass, u[1..], Clean, 2) == Ok([]);
    assert RenderAll([u[0]]) == "1";
  }

  lemma DecOctetLargest()
    ensures DecOctetMatch(Text("255"), Clean) == Ok(Parsed(Some(DecOctet(Text("255"))), []))
  {
    var u := Text("255");
    assert Run(DigitClass, u, Clean, 3) == Ok(u);
    assert RenderAll(u) == "255";
  }

  lemma DecOctetOverflow()
    ensures DecOctetMatch(Text("256"), Clean) == Ok(Parsed(None, Text("256")))
  {
    var u := Text("256");
    assert Run(DigitClass, u, Clean, 3) == Ok(u);
    assert RenderAll(u) == "256";
  }

  lemma DecOctetThreeDigits()
    ensures DecOctetMatch(Text("2555"), Clean) == Ok(Parsed(Some(DecOctet(Text("255"))), Text("5")))
  {
    var u := Text("2555");
    assert u == Text("255") + Text("5");
    assert Run(DigitClass, u, Clean, 3) == Ok(Text("255"));
    assert RenderAll(Text("255")) == "255";
  }

  /** RFC 3986 section 3.2.2 admits no leading zero in a dec-octet; this code keeps "012" as one. */
  lemma LeadingZeroAccepted()
    ensures DecOctetMatch(Text("012"), Clean) == Ok(Parsed(Some(DecOctet(Text("012"))), []))
  {
    var u := Text("012");
    assert Run(DigitClass, u, Clean, 3) == Ok(u);
    assert RenderAll(u) == "012";
  }

  lemma {:induction false} TextAppend(s: string, t: string)
    ensures Text(s + t) == Text(s) + Text(t)
    decreases |s|
  {
    if s != [] {
      assert (s + t)[1..] == s[1..] + t;
      TextAppend(s[1..], t);
    } else {
      assert s + t == t;
    }
  }

  // query, fragment

  /** "foo}bar" reads the fragment "foo" and leaves "}bar": '}' is outside the fragment class. */
  lemma FragmentStopsAtBrace()
    ensures FragmentMatch(Text("foo}bar"), Clean) == Ok(Parsed(Fragment(Text("foo")), Text("}bar")))
    ensures QueryMatch(Text("foo}bar"), Clean) == Ok(Parsed(Query(Text("foo")), Text("}bar")))
  {
    var foo, rest := Text("foo"), Text("}bar");
    TextAppend("foo", "}bar");
    assert "foo" + "}bar" == "foo}bar";
    assert foo == [Ascii('f' as u8), Ascii('o' as u8), Ascii('o' as u8)];
    assert AllIn(QueryClass, foo);
    assert rest[0] == Ascii('}' as u8);
    QueryParsesBack(Query(Text("foo")), Text("}bar"), Clean);
  }

  // path

  /** The "/" segment loop of parse_path_abempty never stops on "/a" at the clean end of input. */
  lemma AbemptyLoopsAtEnd()
    ensures !SlashLoopHalts(Text("/a"), Clean)
  {
    var u := Text("/a");
    assert u[1..] == Text("a");
    assert SegmentMatch(u[1..], Clean) == Ok(Parsed(Segment(Text("a")), []));
  }
}
