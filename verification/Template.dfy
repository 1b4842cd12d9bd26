/** Path templates: the segment types and their printers. */
module Templates {
  import opened Strings

  datatype Segment =
    | Wildcard
    | DeepWildcard
    | Literal(text: string)
    | Variable(path: string, segments: seq<Segment>)

  datatype Template = Template(segments: seq<Segment>, verb: string, template: string)

  // ----- character classes -----

  predicate IsAlpha(c: char) { 'A' <= c <= 'Z' || 'a' <= c <= 'z' }

  predicate IsDigit(c: char) { '0' <= c <= '9' }

  predicate IsHexDigit(c: char) { IsDigit(c) || 'A' <= c <= 'F' || 'a' <= c <= 'f' }

  /** A pchar of section 3.3 of RFC 3986, percent-encoding aside. */
  predicate IsSimplePChar(c: char) {
    IsAlpha(c) || IsDigit(c) || c in "-._~" || c in "!$&'()*+,;=" || c in ":@"
  }

  /** The grammar `*pchar` of section 3.3 of RFC 3986. */
  predicate IsPChars(t: string) {
    t == ""
    || (IsSimplePChar(t[0]) && IsPChars(t[1..]))
    || (t[0] == '%' && |t| >= 3 && IsHexDigit(t[1]) && IsHexDigit(t[2]) && IsPChars(t[3..]))
  }

  predicate IsIdent(t: string) {
    && t != ""
    && !IsDigit(t[0])
    && forall i | 0 <= i < |t| :: IsAlpha(t[i]) || IsDigit(t[i]) || t[i] == '_'
  }

  predicate IsFieldPath(path: string) {
    var idents := Split(path, '.');
    forall i | 0 <= i < |idents| :: IsIdent(idents[i])
  }

  // ----- printers -----

  function PrintSegment(s: Segment): string
    decreases s, 1
  {
    match s
    case Wildcard => "*"
    case DeepWildcard => "**"
    case Literal(text) => text
    case Variable(path, segments) => "{" + path + "=" + Join(PrintAll(segments), '/') + "}"
  }

  function PrintAll(segments: seq<Segment>): (texts: seq<string>)
    ensures |texts| == |segments|
    ensures forall i | 0 <= i < |segments| :: texts[i] == PrintSegment(segments[i])
    decreases segments, 0
  {
    if segments == [] then [] else [PrintSegment(segments[0])] + PrintAll(segments[1..])
  }

  function Print(segments: seq<Segment>, verb: string): string {
    "/" + Join(PrintAll(segments), '/') + (if verb == "" then "" else ":" + verb)
  }

  lemma {:induction false} PrintAllAppend(a: seq<Segment>, b: seq<Segment>)
    ensures PrintAll(a + b) == PrintAll(a) + PrintAll(b)
  {
    if a == [] {
      assert a + b == b;
    } else {
      assert (a + b)[1..] == a[1..] + b;
      PrintAllAppend(a[1..], b);
    }
  }

  /** `String` of each segment kind, building the slice of printed parts in a loop. */
  method SegmentString(s: Segment) returns (str: string)
    ensures str == PrintSegment(s)
    decreases s, 1
  {
    match s {
      case Wildcard => str := "*";
      case DeepWildcard => str := "**";
      case Literal(text) => str := text;
      case Variable(path, segments) =>
        var segs := SegmentStrings(segments);
        str := "{" + path + "=" + Join(segs, '/') + "}";
    }
  }

  method SegmentStrings(segments: seq<Segment>) returns (segs: seq<string>)
    ensures segs == PrintAll(segments)
    decreases segments, 0
  {
    segs := [];
    for i := 0 to |segments|
      invariant segs == PrintAll(segments[..i])
    {
      var str := SegmentString(segments[i]);
      segs := segs + [str];
      assert segments[..i + 1] == segments[..i] + [segments[i]];
      PrintAllAppend(segments[..i], [segments[i]]);
    }
    assert segments[..|segments|] == segments;
  }

  method TemplateString(t: Template) returns (str: string)
    ensures str == Print(t.segments, t.verb)
  {
    var segs := SegmentStrings(t.segments);
    str := Join(segs, '/');
    if t.verb != "" {
      str := str + ":" + t.verb;
    }
    str := "/" + str;
    assert t.verb != "" ==>
      "/" + (Join(segs, '/') + ":" + t.verb) == "/" + Join(segs, '/') + (":" + t.verb);
  }

  // ----- the templates that printing and parsing preserve -----

  predicate IsPlain(s: Segment) {
    match s
    case Wildcard => true
    case DeepWildcard => true
    case Literal(text) => text != "" && text != "*" && text != "**" && IsPChars(text)
    case Variable(_, _) => false
  }

  predicate AllPlain(segments: seq<Segment>) {
    forall i | 0 <= i < |segments| :: IsPlain(segments[i])
  }

  /** A variable holds a field path and a non-empty list of segments, none of them a variable. */
  predicate IsWellFormedSegment(s: Segment) {
    IsPlain(s) || (s.Variable? && IsFieldPath(s.path) && s.segments != [] && AllPlain(s.segments))
  }

  predicate AllWellFormed(segments: seq<Segment>) {
    forall i | 0 <= i < |segments| :: IsWellFormedSegment(segments[i])
  }

  /** A colon in a final literal would be read as the start of a verb. */
  predicate ColonSafe(segments: seq<Segment>, verb: string) {
    verb == "" && segments != [] && segments[|segments| - 1].Literal?
    ==> ':' !in segments[|segments| - 1].text
  }

  predicate IsVerb(verb: string) {
    ':' !in verb && '/' !in verb && '{' !in verb
  }

  predicate WellFormed(segments: seq<Segment>, verb: string) {
    segments != [] && AllWellFormed(segments) && IsVerb(verb) && ColonSafe(segments, verb)
  }

  lemma {:induction false} PCharsExclude(t: string)
    requires IsPChars(t)
    ensures forall i | 0 <= i < |t| :: t[i] !in {'/', '{', '}', '\0'}
  {
    if t != "" {
      if IsSimplePChar(t[0]) && IsPChars(t[1..]) {
        PCharsExclude(t[1..]);
      } else {
        PCharsExclude(t[3..]);
        assert forall i | 3 <= i < |t| :: t[i] == t[3..][i - 3];
      }
    }
  }
}
