/** The recursive-descent parser of `parse.go`. */
module Parser {
  import opened Wrappers
  import opened Strings
  import opened Templates
  import opened Tokenizer

  datatype ParseError =
    | NoLeadingSlash
    | SegmentExpected
    | IdentExpected
    | UnterminatedVariable
    | TrailingToken

  datatype Term = Sym(s: string) | TypeEOF | TypeIdent | TypeLiteral

  /** What `accept` takes: a slash passes for every symbol. */
  predicate Matches(term: Term, t: string) {
    match term
    case Sym(s) => t == s || t == "/"
    case TypeEOF => t == EOF
    case TypeIdent => IsIdent(t)
    case TypeLiteral => IsPChars(t)
  }

  // ----- the grammar as a function on token lists -----

  datatype Parsed<T> = Ok(value: T, rest: seq<string>) | Err(error: ParseError)

  predicate Terminated(ts: seq<string>) {
    ts != [] && ts[|ts| - 1] == EOF
  }

  function ParseSegments(ts: seq<string>): (r: Parsed<seq<Segment>>)
    requires Terminated(ts)
    ensures r.Ok? ==> Terminated(r.rest) && |r.rest| < |ts| && r.value != [] && r.rest[0] != "/"
    decreases |ts|, 2
  {
    match ParseSegment(ts)
    case Err(e) => Err(e)
    case Ok(s, rest) => Continue([s], rest)
  }

  /** What is parsed from `ts` once the segments `segs` have been read. */
  function Continue(segs: seq<Segment>, ts: seq<string>): (r: Parsed<seq<Segment>>)
    requires Terminated(ts)
    ensures r.Ok? ==> Terminated(r.rest) && |r.rest| <= |ts| && |r.value| >= |segs| && r.rest[0] != "/"
    decreases |ts|, 0
  {
    if Matches(Sym("/"), ts[0]) then
      match ParseSegments(ts[1..])
      case Err(e) => Err(e)
      case Ok(more, rest) => Ok(segs + more, rest)
    else
      Ok(segs, ts)
  }

  function ParseSegment(ts: seq<string>): (r: Parsed<Segment>)
    requires Terminated(ts)
    ensures r.Ok? ==> Terminated(r.rest) && |r.rest| < |ts|
    decreases |ts|, 1
  {
    var t := ts[0];
    if Matches(Sym("*"), t) then Ok(Wildcard, ts[1..])
    else if Matches(Sym("**"), t) then Ok(DeepWildcard, ts[1..])
    else if Matches(TypeLiteral, t) then Ok(Literal(t), ts[1..])
    else ParseVariable(ts)
  }

  function ParseVariable(ts: seq<string>): (r: Parsed<Segment>)
    requires Terminated(ts)
    ensures r.Ok? ==> Terminated(r.rest) && |r.rest| < |ts|
    decreases |ts|, 0
  {
    if !Matches(Sym("{"), ts[0]) then Err(SegmentExpected) else
    match ParseIdents(ts[1..])
    case Err(e) => Err(e)
    case Ok(components, rest) =>
      var path := Join(components, '.');
      var body := if Matches(Sym("="), rest[0]) then ParseSegments(rest[1..]) else Ok([Wildcard], rest);
      match body
      case Err(e) => Err(e)
      case Ok(segs, rest') =>
        if Matches(Sym("}"), rest'[0]) then Ok(Variable(path, segs), rest'[1..])
        else Err(UnterminatedVariable)
  }

  function ParseIdents(ts: seq<string>): (r: Parsed<seq<string>>)
    requires Terminated(ts)
    ensures r.Ok? ==> Terminated(r.rest) && |r.rest| < |ts| && r.value != []
    decreases |ts|
  {
    if !Matches(TypeIdent, ts[0]) then Err(IdentExpected)
    else if !Matches(Sym("."), ts[1]) then Ok([ts[0]], ts[1..])
    else
      match ParseIdents(ts[2..])
      case Err(e) => Err(e)
      case Ok(more, rest) => Ok([ts[0]] + more, rest)
  }

  function ParseTokens(ts: seq<string>): Result<seq<Segment>, ParseError>
    requires Terminated(ts)
  {
    match ParseSegments(ts)
    case Err(e) => Failure(e)
    case Ok(segs, rest) => if rest[0] == EOF then Success(segs) else Failure(TrailingToken)
  }

  function ParseTemplate(tmpl: string): Result<Template, ParseError>
  {
    if tmpl == "" || tmpl[0] != '/' then Failure(NoLeadingSlash) else
    var (tokens, verb) := Tokenize(tmpl[1..]);
    match ParseTokens(tokens)
    case Failure(e) => Failure(e)
    case Success(segs) => Success(Template(segs, verb, tmpl))
  }

  // ----- the code -----

  /** The states of the percent-encoding check; what is left must complete the state. */
  datatype PctState = Plain | Pct1 | Pct2

  ghost predicate Completes(st: PctState, t: string) {
    match st
    case Plain => IsPChars(t)
    case Pct1 => |t| >= 2 && IsHexDigit(t[0]) && IsHexDigit(t[1]) && IsPChars(t[2..])
    case Pct2 => |t| >= 1 && IsHexDigit(t[0]) && IsPChars(t[1..])
  }

  method ExpectPChars(t: string) returns (ok: bool)
    ensures ok <==> IsPChars(t)
  {
    var st := Plain;
    for i := 0 to |t|
      invariant IsPChars(t) <==> Completes(st, t[i..])
    {
      var r := t[i];
      assert t[i..][0] == r && t[i..][1..] == t[i + 1..];
      assert |t[i..]| >= 3 ==> t[i..][3..] == t[i..][1..][2..];
      if st != Plain {
        if !IsHexDigit(r) {
          return false;
        }
        assert st == Pct1 && |t[i..]| >= 2 ==> t[i..][2..] == t[i + 1..][1..];
        st := if st == Pct1 then Pct2 else Plain;
        continue;
      }
      if IsAlpha(r) || IsDigit(r) {
        continue;
      }
      if r in "-._~" || r in "!$&'()*+,;=" || r in ":@" {
      } else if r == '%' {
        st := Pct1;
      } else {
        return false;
      }
    }
    return st == Plain;
  }

  method ExpectIdent(ident: string) returns (ok: bool)
    ensures ok <==> IsIdent(ident)
  {
    if ident == "" {
      return false;
    }
    for pos := 0 to |ident|
      invariant pos > 0 ==> !IsDigit(ident[0])
      invariant forall i | 0 <= i < pos :: IsAlpha(ident[i]) || IsDigit(ident[i]) || ident[i] == '_'
    {
      var r := ident[pos];
      if IsDigit(r) {
        if pos == 0 {
          return false;
        }
      } else if IsAlpha(r) || r == '_' {
      } else {
        return false;
      }
    }
    return true;
  }

  class TokenParser {
    var tokens: seq<string>
    var accepted: seq<string>

    constructor (tokens: seq<string>)
      ensures this.tokens == tokens && accepted == []
    {
      this.tokens := tokens;
      this.accepted := [];
    }

    /** Nothing is dropped or invented: accepted and remaining tokens always add up to the input. */
    twostate predicate Conserves()
      reads this
    {
      accepted + tokens == old(accepted + tokens)
    }

    method Accept(term: Term) returns (r: Option<string>)
      requires tokens != []
      modifies this
      ensures Conserves()
      ensures Matches(term, old(tokens[0])) ==> r == Some(old(tokens[0])) && tokens == old(tokens[1..])
      ensures !Matches(term, old(tokens[0])) ==> r == None && tokens == old(tokens)
    {
      var t := tokens[0];
      match term {
        case Sym(s) =>
          if t != s && t != "/" {
            return None;
          }
        case TypeEOF =>
          if t != EOF {
            return None;
          }
        case TypeIdent =>
          var ok := ExpectIdent(t);
          if !ok {
            return None;
          }
        case TypeLiteral =>
          var ok := ExpectPChars(t);
          if !ok {
            return None;
          }
      }
      tokens := tokens[1..];
      accepted := accepted + [t];
      return Some(t);
    }

    method Segments() returns (r: Result<seq<Segment>, ParseError>)
      requires Terminated(tokens)
      modifies this
      ensures Conserves()
      ensures match ParseSegments(old(tokens))
              case Ok(segs, rest) => r == Success(segs) && tokens == rest
              case Err(e) => r == Failure(e)
      decreases |tokens|, 3
    {
      ghost var start := tokens;
      var first := Segment();
      if first.Failure? {
        return Failure(first.error);
      }
      var segs := [first.value];
      while true
        invariant Conserves()
        invariant Terminated(tokens) && |tokens| < |start|
        invariant ParseSegments(start) == Continue(segs, tokens)
        decreases |tokens|
      {
        var slash := Accept(Sym("/"));
        if slash.None? {
          return Success(segs);
        }
        ghost var ts := tokens;
        var next := Segment();
        if next.Failure? {
          return Failure(next.error);
        }
        ContinueAppend(segs, [next.value], tokens);
        segs := segs + [next.value];
      }
    }

    method Segment() returns (r: Result<Segment, ParseError>)
      requires Terminated(tokens)
      modifies this
      ensures Conserves()
      ensures match ParseSegment(old(tokens))
              case Ok(s, rest) => r == Success(s) && tokens == rest
              case Err(e) => r == Failure(e)
      decreases |tokens|, 2
    {
      var star := Accept(Sym("*"));
      if star.Some? {
        return Success(Wildcard);
      }
      var deep := Accept(Sym("**"));
      if deep.Some? {
        return Success(DeepWildcard);
      }
      var lit := Accept(TypeLiteral);
      if lit.Some? {
        return Success(Literal(lit.value));
      }
      r := Variable();
    }

    method Variable() returns (r: Result<Segment, ParseError>)
      requires Terminated(tokens)
      modifies this
      ensures Conserves()
      ensures match ParseVariable(old(tokens))
              case Ok(s, rest) => r == Success(s) && tokens == rest
              case Err(e) => r == Failure(e)
      decreases |tokens|, 1
    {
      var open := Accept(Sym("{"));
      if open.None? {
        return Failure(SegmentExpected);
      }
      var path := FieldPath();
      if path.Failure? {
        return Failure(path.error);
      }
      var segs := [Wildcard];
      var eq := Accept(Sym("="));
      if eq.Some? {
        var body := Segments();
        if body.Failure? {
          return Failure(body.error);
        }
        segs := body.value;
      }
      var close := Accept(Sym("}"));
      if close.None? {
        return Failure(UnterminatedVariable);
      }
      return Success(Templates.Variable(path.value, segs));
    }

    method FieldPath() returns (r: Result<string, ParseError>)
      requires Terminated(tokens)
      modifies this
      ensures Conserves()
      ensures match ParseIdents(old(tokens))
              case Ok(components, rest) => r == Success(Join(components, '.')) && tokens == rest
              case Err(e) => r == Failure(e)
    {
      ghost var start := tokens;
      var c := Accept(TypeIdent);
      if c.None? {
        return Failure(IdentExpected);
      }
      var components := [c.value];
      while true
        invariant Conserves()
        invariant Terminated(tokens)
        invariant components != []
        invariant ParseIdents(start) == ContinueIdents(components, tokens)
        decreases |tokens|
      {
        var dot := Accept(Sym("."));
        if dot.None? {
          return Success(Join(components, '.'));
        }
        ghost var ts := tokens;
        c := Accept(TypeIdent);
        if c.None? {
          return Failure(IdentExpected);
        }
        ContinueIdentsAppend(components, ts);
        components := components + [c.value];
      }
    }
  }

  ghost function ContinueIdents(components: seq<string>, ts: seq<string>): Parsed<seq<string>>
    requires Terminated(ts)
  {
    if !Matches(Sym("."), ts[0]) then Ok(components, ts) else
    match ParseIdents(ts[1..])
    case Err(e) => Err(e)
    case Ok(more, rest) => Ok(components + more, rest)
  }

  lemma ContinueIdentsAppend(components: seq<string>, ts: seq<string>)
    requires Terminated(ts) && Matches(TypeIdent, ts[0])
    ensures ContinueIdents(components + [ts[0]], ts[1..])
         == match ParseIdents(ts) { case Err(e) => Err(e) case Ok(more, rest) => Ok(components + more, rest) }
  {
    assert ts[1..][1..] == ts[2..];
    if Matches(Sym("."), ts[1]) && ParseIdents(ts[2..]).Ok? {
      var more := ParseIdents(ts[2..]).value;
      assert components + [ts[0]] + more == components + ([ts[0]] + more);
    }
  }

  lemma ContinueAppend(a: seq<Segment>, b: seq<Segment>, ts: seq<string>)
    requires Terminated(ts)
    ensures Continue(a + b, ts)
         == match Continue(b, ts) { case Err(e) => Err(e) case Ok(more, rest) => Ok(a + more, rest) }
  {
    if Matches(Sym("/"), ts[0]) && ParseSegments(ts[1..]).Ok? {
      var more := ParseSegments(ts[1..]).value;
      assert a + b + more == a + (b + more);
    }
  }

  method Parse(tmpl: string) returns (r: Result<Template, ParseError>)
    ensures r == ParseTemplate(tmpl)
  {
    if !("/" <= tmpl) {
      return Failure(NoLeadingSlash);
    }
    var tokens, verb := TokenizePath(tmpl[1..]);
    var p := new TokenParser(tokens);
    var segs := p.Segments();
    if segs.Failure? {
      return Failure(segs.error);
    }
    var end := p.Accept(TypeEOF);
    if end.None? {
      return Failure(TrailingToken);
    }
    return Success(Template(segs.value, verb, tmpl));
  }
}
