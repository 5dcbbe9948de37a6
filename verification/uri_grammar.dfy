/**
 * What each grammar function does, as a function of what it will read: the
 * characters still unread `u` and how the input ends after them `e`. Each
 * `...Match` function gives the node a parse function returns together with
 * the characters it leaves unread, or the decode error it runs into.
 */
module UriGrammar {
  import opened CharBuf
  import opened UriNodes

  /** A node and the characters left unread after it. */
  datatype Parsed<T> = Parsed(node: T, rest: seq<Char>)

  function NodeOf<T>(r: Result<Parsed<T>>): Result<T> {
    match r
    case Ok(p) => Ok(p.node)
    case Err(e) => Err(e)
  }

  // Character classes the parse loops accept

  datatype CharClass = PcharClass | NoColonClass | QueryClass | DigitClass | HexClass

  predicate InClass(k: CharClass, c: Char) {
    match k
    case PcharClass => c.IsPchar()
    case NoColonClass => c.IsUnreserved() || c.IsPctEncoded() || c.IsSubDelim() || c.Is('@' as u8)
    case QueryClass => c.IsPchar() || c.Is('/' as u8) || c.Is('?' as u8)
    case DigitClass => c.IsDigit()
    case HexClass => c.IsHex()
  }

  predicate AllIn(k: CharClass, cs: seq<Char>) {
    forall i :: 0 <= i < |cs| ==> InClass(k, cs[i])
  }

  /** The length of the longest prefix of u, at most max long, whose characters are all in class k. */
  function Lead(k: CharClass, u: seq<Char>, max: nat): (n: nat)
    ensures n <= max && n <= |u|
  {
    if max == 0 || u == [] || !InClass(k, u[0]) then 0 else 1 + Lead(k, u[1..], max - 1)
  }

  /** A run result with t put in front of what it read. */
  function Prefixed<T>(t: seq<T>, r: Result<seq<T>>): Result<seq<T>> {
    match r
    case Ok(v) => Ok(t + v)
    case Err(x) => Err(x)
  }

  /** Pop up to max characters while they are in class k, pushing back the first one that is not. */
  function Run(k: CharClass, u: seq<Char>, e: Ending, max: nat): (r: Result<seq<Char>>)
    ensures r.Ok? ==> |r.value| <= |u|
    decreases max
  {
    if max == 0 then Ok([])
    else if u == [] then (if e.Clean? then Ok([]) else Err(e.error))
    else if !InClass(k, u[0]) then Ok([])
    else Prefixed([u[0]], Run(k, u[1..], e, max - 1))
  }

  /** u is t followed by rest, t is all of class k, and reading stopped cleanly right after t. */
  predicate StoppedAfter(k: CharClass, u: seq<Char>, t: seq<Char>, rest: seq<Char>, e: Ending) {
    && u == t + rest
    && AllIn(k, t)
    && (rest == [] ==> e.Clean?)
    && (rest != [] ==> !InClass(k, rest[0]))
  }

  /** Pop characters while they are in class k, with no bound. */
  function Munch(k: CharClass, u: seq<Char>, e: Ending): (r: Result<seq<Char>>)
    ensures r.Ok? ==> |r.value| <= |u|
    decreases |u|
  {
    if u == [] then (if e.Clean? then Ok([]) else Err(e.error))
    else if !InClass(k, u[0]) then Ok([])
    else Prefixed([u[0]], Munch(k, u[1..], e))
  }

  // segment, segment-nz, segment-nz-nc (RFC 3986 section 3.3)

  function SegmentMatch(u: seq<Char>, e: Ending): (r: Result<Parsed<Segment>>)
    ensures r.Ok? ==> |r.value.rest| <= |u|
  {
    var t :- Munch(PcharClass, u, e);
    Ok(Parsed(Segment(t), u[|t|..]))
  }

  function SegmentNzMatch(u: seq<Char>, e: Ending): Result<Parsed<Option<Segment>>> {
    var t :- Munch(PcharClass, u, e);
    if t == [] then Ok(Parsed(None, u)) else Ok(Parsed(Some(Segment(t)), u[|t|..]))
  }

  function SegmentNzNcMatch(u: seq<Char>, e: Ending): Result<Parsed<Option<Segment>>> {
    var t :- Munch(NoColonClass, u, e);
    if t == [] then Ok(Parsed(None, u)) else Ok(Parsed(Some(Segment(t)), u[|t|..]))
  }

  // query, fragment (RFC 3986 sections 3.4 and 3.5)

  function FragmentMatch(u: seq<Char>, e: Ending): Result<Parsed<Fragment>> {
    var t :- Munch(QueryClass, u, e);
    Ok(Parsed(Fragment(t), u[|t|..]))
  }

  /** parse_query is parse_fragment with its node re-wrapped. */
  function QueryMatch(u: seq<Char>, e: Ending): Result<Parsed<Query>> {
    var f :- FragmentMatch(u, e);
    Ok(Parsed(Query(f.node.chars), f.rest))
  }

  // dec-octet, h16, IPv4address (RFC 3986 section 3.2.2)

  /** The decimal value of a run of digit characters. */
  function DecimalValue(cs: seq<Char>): nat {
    Horner(0, cs)
  }

  function Horner(acc: nat, cs: seq<Char>): nat
    decreases |cs|
  {
    if cs == [] then acc else Horner(acc * 10 + DigitOf(cs[0]), cs[1..])
  }

  function DigitOf(c: Char): nat {
    if c.Ascii? && c.b >= 48 then c.b as int - 48 else 0
  }

  /** `str::parse::<u8>` of Rust's standard library: an optional '+', then decimal digits, without overflow. */
  function ParseU8(s: string): Option<u8> {
    if s == [] then None
    else if s[0] == '+' then (if |s| == 1 then None else Accumulate(s[1..], 0))
    else Accumulate(s, 0)
  }

  /** The digit loop of `str::parse::<u8>`: `checked_mul(10)` then `checked_add(digit)`. */
  function Accumulate(s: string, acc: u8): Option<u8>
    decreases |s|
  {
    if s == [] then Some(acc)
    else if !('0' <= s[0] <= '9') then None
    else if acc as int * 10 > 255 then None
    else if acc as int * 10 + (s[0] as int - '0' as int) > 255 then None
    else Accumulate(s[1..], (acc as int * 10 + (s[0] as int - '0' as int)) as u8)
  }

  /** A dec-octet as parse_dec_octet accepts it: one to three digits of value at most 255 (leading zeros allowed). */
  predicate ValidDecOctet(d: DecOctet) {
    1 <= |d.digits| <= 3 && AllIn(DigitClass, d.digits) && DecimalValue(d.digits) <= 255
  }

  /** Up to three digits, kept when `str::parse::<u8>` accepts them, else all pushed back. */
  function DecOctetMatch(u: seq<Char>, e: Ending): Result<Parsed<Option<DecOctet>>> {
    var t :- Run(DigitClass, u, e, 3);
    if ParseU8(RenderAll(t)).Some? then Ok(Parsed(Some(DecOctet(t)), u[|t|..])) else Ok(Parsed(None, u))
  }

  /** Up to four hex characters, kept when there are four, else all pushed back. */
  function H16Match(u: seq<Char>, e: Ending): Result<Parsed<Option<H16>>> {
    var t :- Run(HexClass, u, e, 4);
    if |t| == 4 then Ok(Parsed(Some(H16(t[0], t[1], t[2], t[3])), u[4..])) else Ok(Parsed(None, u))
  }

  /** Pop one character and keep it if it is '.', else push it back. */
  function DotMatch(u: seq<Char>, e: Ending): Result<Parsed<Option<Char>>> {
    if u == [] then (if e.Clean? then Ok(Parsed(None, [])) else Err(e.error))
    else if u[0].Is('.' as u8) then Ok(Parsed(Some(u[0]), u[1..]))
    else Ok(Parsed(None, u))
  }

  predicate ValidIpv4(a: Ipv4Address) {
    ValidDecOctet(a.d1) && ValidDecOctet(a.d2) && ValidDecOctet(a.d3) && ValidDecOctet(a.d4)
  }

  /** "." dec-octet, read all or nothing. */
  function DottedOctetMatch(u: seq<Char>, e: Ending): Result<Parsed<Option<DecOctet>>> {
    match DotMatch(u, e)
    case Err(x) => Err(x)
    case Ok(q) =>
      if q.node.None? then Ok(Parsed(None, u))
      else
        match DecOctetMatch(q.rest, e)
        case Err(x) => Err(x)
        case Ok(p) => if p.node.None? then Ok(Parsed(None, u)) else Ok(p)
  }

  /** dec-octet "." dec-octet "." dec-octet "." dec-octet, read all or nothing. */
  function Ipv4Match(u: seq<Char>, e: Ending): Result<Parsed<Option<Ipv4Address>>> {
    match DecOctetMatch(u, e)
    case Err(x) => Err(x)
    case Ok(p1) =>
      if p1.node.None? then Ok(Parsed(None, u)) else
      match DottedOctetMatch(p1.rest, e)
      case Err(x) => Err(x)
      case Ok(p2) =>
        if p2.node.None? then Ok(Parsed(None, u)) else
        match DottedOctetMatch(p2.rest, e)
        case Err(x) => Err(x)
        case Ok(p3) =>
          if p3.node.None? then Ok(Parsed(None, u)) else
          match DottedOctetMatch(p3.rest, e)
          case Err(x) => Err(x)
          case Ok(p4) =>
            if p4.node.None? then Ok(Parsed(None, u)) else
            Ok(Parsed(Some(Ipv4Address(p1.node.value, p2.node.value, p3.node.value, p4.node.value)), p4.rest))
  }

  // Paths (RFC 3986 section 3.3)

  predicate AllPchar(segments: seq<Segment>) {
    forall i :: 0 <= i < |segments| ==> AllIn(PcharClass, segments[i].chars)
  }

  /** A segment-loop result with segs put in front of the segments it read. */
  function Extended(segs: seq<Segment>, r: Result<Parsed<seq<Segment>>>): Result<Parsed<seq<Segment>>> {
    match r
    case Ok(p) => Ok(Parsed(segs + p.node, p.rest))
    case Err(x) => Err(x)
  }

  /** *( "/" segment ), stopping at the first character other than '/' or at the end of input. */
  function SlashSegmentsMatch(u: seq<Char>, e: Ending): Result<Parsed<seq<Segment>>>
    decreases |u|
  {
    if u == [] then (if e.Clean? then Ok(Parsed([], [])) else Err(e.error))
    else if !u[0].Is('/' as u8) then Ok(Parsed([], u))
    else
      match SegmentMatch(u[1..], e)
      case Err(x) => Err(x)
      case Ok(s) => Extended([s.node], SlashSegmentsMatch(s.rest, e))
  }

  /** Whether the "/" segment loop of parse_path_abempty and parse_path_noscheme stops: it does not at a clean end of input. */
  predicate SlashLoopHalts(u: seq<Char>, e: Ending)
    decreases |u|
  {
    if u == [] then e.Broken?
    else if !u[0].Is('/' as u8) then true
    else
      match SegmentMatch(u[1..], e)
      case Err(_) => true
      case Ok(s) => SlashLoopHalts(s.rest, e)
  }

  /** path-abempty as parse_path_abempty reads it: one or more "/" segment, returned as a path that is not absolute. */
  function AbemptyMatch(u: seq<Char>, e: Ending): Result<Parsed<Option<Path>>>
    requires SlashLoopHalts(u, e)
  {
    var l :- SlashSegmentsMatch(u, e);
    if l.node == [] then Ok(Parsed(None, u)) else Ok(Parsed(Some(Path(l.node, false)), l.rest))
  }

  /** Whether parse_path_noscheme stops: its first segment is missing, or the loop after it stops. */
  predicate NoschemeHalts(u: seq<Char>, e: Ending) {
    match SegmentNzNcMatch(u, e)
    case Ok(Parsed(Some(_), rest)) => SlashLoopHalts(rest, e)
    case _ => true
  }

  /** path-noscheme = segment-nz-nc *( "/" segment ) */
  function NoschemeMatch(u: seq<Char>, e: Ending): Result<Parsed<Option<Path>>>
    requires NoschemeHalts(u, e)
  {
    var f :- SegmentNzNcMatch(u, e);
    if f.node.None? then Ok(Parsed(None, u))
    else
      var l :- SlashSegmentsMatch(f.rest, e);
      Ok(Parsed(Some(Path([f.node.value] + l.node, false)), l.rest))
  }

  /** A path as parse_path builds it: at least one segment, all pchar, and a first segment that is empty only if it is the only one. */
  predicate WellFormedPath(p: Path) {
    && |p.segments| >= 1
    && AllPchar(p.segments)
    && (p.segments[0].chars == [] ==> |p.segments| == 1)
  }

  /** path-rootless = segment-nz *( "/" segment ); unlike the loops above, this one stops at the end of input. */
  function RootlessMatch(u: seq<Char>, e: Ending): Result<Parsed<Option<Path>>> {
    var f :- SegmentNzMatch(u, e);
    if f.node.None? then Ok(Parsed(None, u))
    else
      var l :- SlashSegmentsMatch(f.rest, e);
      Ok(Parsed(Some(Path([f.node.value] + l.node, false)), l.rest))
  }

  /** path-absolute = "/" [ segment-nz *( "/" segment ) ], with one empty segment when nothing follows the '/'. */
  function AbsoluteMatch(u: seq<Char>, e: Ending): Result<Parsed<Option<Path>>> {
    if u == [] then (if e.Clean? then Ok(Parsed(None, [])) else Err(e.error))
    else if !u[0].Is('/' as u8) then Ok(Parsed(None, u))
    else
      var q :- RootlessMatch(u[1..], e);
      if q.node.Some? then Ok(Parsed(Some(Path(q.node.value.segments, true)), q.rest))
      else Ok(Parsed(Some(Path([Segment([])], true)), q.rest))
  }

  /** path: path-absolute, else path-rootless, else a path of one empty segment. */
  function PathMatch(u: seq<Char>, e: Ending): Result<Parsed<Path>> {
    var a :- AbsoluteMatch(u, e);
    if a.node.Some? then Ok(Parsed(a.node.value, a.rest))
    else
      var q :- RootlessMatch(u, e);
      if q.node.Some? then Ok(Parsed(q.node.value, q.rest))
      else Ok(Parsed(Path([Segment([])], false), u))
  }

  /** path-empty: looks at one character and puts it back. */
  function PathEmptyMatch(u: seq<Char>, e: Ending): Result<Parsed<Option<Path>>> {
    if u == [] then (if e.Clean? then Ok(Parsed(Some(Path([Segment([])], false)), [])) else Err(e.error))
    else if u[0].IsPchar() then Ok(Parsed(None, u))
    else Ok(Parsed(Some(Path([], false)), u))
  }
}
