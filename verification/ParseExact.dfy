/**
 * Exactly what the parser accepts, and with which result: the grammar, in which a slash may also stand for a
 * wildcard and the verb is any text without delimiters.
 */
module ParseExact {
  import opened Wrappers
  import opened Strings
  import opened Templates
  import opened Tokenizer
  import opened Lexing
  import opened Parser
  import opened RoundTrip
  import opened ParseSound
  import opened Grammar
  import opened GrammarExact

  // ----- the texts of a template, as the parser reads them -----

  predicate PlainRead(s: Segment, x: string) {
    match s
    case Wildcard => x == "*" || x == "/"
    case DeepWildcard => x == "**"
    case Literal(text) => x == text
    case Variable(_, _) => false
  }

  ghost predicate PlainReads(segs: seq<Segment>, x: string)
    decreases |segs|
  {
    && segs != []
    && if |segs| == 1 then PlainRead(segs[0], x)
       else exists a, b :: x == a + ("/" + b) && PlainRead(segs[0], a) && PlainReads(segs[1..], b)
  }

  ghost predicate SegmentRead(s: Segment, x: string) {
    if s.Variable? then
      || (x == Short(s.path) && s.segments == [Wildcard])
      || exists body :: x == Long(s.path, body) && PlainReads(s.segments, body)
    else PlainRead(s, x)
  }

  ghost predicate SegmentsRead(segs: seq<Segment>, x: string)
    decreases |segs|
  {
    && segs != []
    && if |segs| == 1 then SegmentRead(segs[0], x)
       else exists a, b :: x == a + ("/" + b) && SegmentRead(segs[0], a) && SegmentsRead(segs[1..], b)
  }

  /** A text that is read as these segments and this verb. */
  ghost predicate ReadsAs(segs: seq<Segment>, verb: string, tmpl: string) {
    exists body :: SegmentsRead(segs, body) && EndsAs(segs, verb, body, tmpl)
  }

  /** Behind the segments stands the verb, or nothing if no colon could be taken for the start of one. */
  predicate EndsAs(segs: seq<Segment>, verb: string, body: string, tmpl: string) {
    || tmpl == "/" + (body + (":" + verb))
    || (tmpl == "/" + body && verb == "" && ColonSafe(segs, ""))
  }

  // ----- every such text is accepted -----

  /** `hs` are the tokens of `x`: in front of `tl` for the tokenizer, in front of `pt` for the parser. */
  ghost predicate IsLexedTo(st: State, hs: seq<string>, x: string, tl: seq<string>) {
    hs != [] && Lexed(st, hs + tl) && Concat(hs + tl) == x + Concat(tl)
  }

  lemma OneText(st: State, x: string, tl: seq<string>)
    requires IsText(st, x) && Lexed(st, tl) && (tl != [] ==> IsDelimiter(st, tl[0]))
    ensures IsLexedTo(st, [x], x, tl)
  {
    LexedText(st, x, tl);
  }

  lemma OneSlash(st: State, tl: seq<string>)
    requires st != Field && Lexed(st, tl)
    ensures IsLexedTo(st, ["/"], "/", tl)
  {
    LexedDelimiter(st, "/", tl);
  }

  /** A plain segment is one token. */
  lemma PlainToken(st: State, s: Segment, x: string, tl: seq<string>, pt: seq<string>)
    requires st != Field && IsPlain(s) && PlainRead(s, x) && Lexed(st, tl) && Terminated(pt)
    requires tl != [] && x != "/" ==> IsDelimiter(st, tl[0])
    ensures IsLexedTo(st, [x], x, tl) && Terminated([x] + pt) && ParseSegment([x] + pt) == Ok(s, pt)
  {
    if x == "/" {
      if s.Literal? {
        PCharsExclude(x);
      }
      OneSlash(st, tl);
      assert (["/"] + pt)[1..] == pt;
    } else {
      PlainIsText(s);
      OneText(st, x, tl);
      ParsePlainToken(s, pt);
    }
  }

  lemma Shift(a: seq<string>, b: seq<string>, c: seq<string>)
    ensures a + (b + c) == a + b + c
  {}

  lemma SlashLexed(st: State, tl: seq<string>)
    requires st != Field && Lexed(st, tl)
    ensures Lexed(st, ["/"] + tl) && Concat(["/"] + tl) == "/" + Concat(tl)
  {
    LexedDelimiter(st, "/", tl);
  }

  lemma FirstPlain(segs: seq<Segment>, x: string) returns (a: string, b: string)
    requires PlainReads(segs, x) && |segs| > 1
    ensures x == a + ("/" + b) && PlainRead(segs[0], a) && PlainReads(segs[1..], b)
  {
    a, b :| x == a + ("/" + b) && PlainRead(segs[0], a) && PlainReads(segs[1..], b);
  }

  /** The tokens of the plain segments of a variable. */
  lemma {:induction false} PlainTokens(segs: seq<Segment>, x: string, tl: seq<string>, pt: seq<string>)
      returns (hs: seq<string>)
    requires AllPlain(segs) && PlainReads(segs, x)
    requires Lexed(Nested, tl) && tl != [] && IsDelimiter(Nested, tl[0])
    requires Terminated(pt) && pt[0] != "/"
    ensures IsLexedTo(Nested, hs, x, tl) && Terminated(hs + pt) && ParseSegments(hs + pt) == Ok(segs, pt)
    decreases |segs|
  {
    if |segs| == 1 {
      PlainToken(Nested, segs[0], x, tl, pt);
      ParseOne([x] + pt, segs[0], pt);
      assert segs == [segs[0]];
      hs := [x];
    } else {
      var a, b := FirstPlain(segs, x);
      var hs' := PlainTokens(segs[1..], b, tl, pt);
      hs := JoinPlain(segs, a, b, hs', tl, pt);
      assert x == a + ("/" + b);
    }
  }

  lemma JoinPlain(segs: seq<Segment>, a: string, b: string, hs': seq<string>, tl: seq<string>, pt: seq<string>)
      returns (hs: seq<string>)
    requires |segs| > 1 && IsPlain(segs[0]) && PlainRead(segs[0], a)
    requires IsLexedTo(Nested, hs', b, tl) && Terminated(hs' + pt) && ParseSegments(hs' + pt) == Ok(segs[1..], pt)
    ensures IsLexedTo(Nested, hs, a + ("/" + b), tl) && Terminated(hs + pt) && ParseSegments(hs + pt) == Ok(segs, pt)
  {
    SlashLexed(Nested, hs' + tl);
    PlainToken(Nested, segs[0], a, ["/"] + (hs' + tl), ["/"] + (hs' + pt));
    ParseMore([a] + (["/"] + (hs' + pt)), segs[0], hs' + pt, segs[1..], pt);
    hs := JoinHeads([a], hs', a, b, tl, pt);
    assert segs == [segs[0]] + segs[1..];
  }

  /** Tokens of two parts with a slash between them. */
  lemma JoinHeads(h: seq<string>, hs': seq<string>, a: string, b: string, tl: seq<string>, pt: seq<string>)
      returns (hs: seq<string>)
    ensures hs == h + (["/"] + hs') && hs != []
    ensures hs + tl == h + (["/"] + (hs' + tl)) && hs + pt == h + (["/"] + (hs' + pt))
    ensures a + ("/" + (b + Concat(tl))) == a + ("/" + b) + Concat(tl)
  {
    hs := h + (["/"] + hs');
    SlashThen(a, b, Concat(tl));
  }

  lemma Idents(path: string)
    requires IsFieldPath(path)
    ensures var idents := Split(path, '.');
            && idents != [] && Join(idents, '.') == path
            && (forall i | 0 <= i < |idents| :: IsIdent(idents[i]) && IsText(Field, idents[i]))
  {
    SplitParts(path, '.');
    forall i | 0 <= i < |Split(path, '.')| ensures IsText(Field, Split(path, '.')[i]) {
      IdentIsText(Split(path, '.')[i]);
    }
  }

  /** An opening brace and a field path, in front of the tokens `tl`. */
  lemma PathLexed(path: string, tl: seq<string>)
    requires IsFieldPath(path) && tl != [] && IsDelimiter(Field, tl[0]) && Lexed(Field, tl)
    ensures var ts := ["{"] + Weave(Split(path, '.'), ".", tl);
            Lexed(Init, ts) && Concat(ts) == "{" + (path + Concat(tl))
  {
    Idents(path);
    LexedWeave(Field, Split(path, '.'), ".", tl);
    LexedDelimiter(Init, "{", Weave(Split(path, '.'), ".", tl));
  }

  /** The tokens of a variable without segments. */
  lemma ShortTokens(path: string, tl: seq<string>, pt: seq<string>) returns (hs: seq<string>)
    requires IsFieldPath(path) && Lexed(Init, tl) && Terminated(pt)
    ensures IsLexedTo(Init, hs, Short(path), tl) && hs[|hs| - 1] == "}"
    ensures Terminated(hs + pt) && ParseSegment(hs + pt) == Ok(Variable(path, [Wildcard]), pt)
  {
    var idents := Split(path, '.');
    var inner := Weave(idents, ".", []);
    hs := ["{"] + (inner + ["}"]);
    Idents(path);
    LexedDelimiter(Nested, "}", tl);
    LexedDelimiter(Field, "}", tl);
    PathLexed(path, ["}"] + tl);
    ShortThen(path, Concat(tl));
    HeadTail(idents, inner, ["}"], tl);
    HeadTail(idents, inner, ["}"], pt);
    ParseShort(path, idents, pt);
  }

  /** The tokens of a brace, a field path and what closes it, in front of others. */
  lemma HeadTail(idents: seq<string>, inner: seq<string>, close: seq<string>, tl: seq<string>)
    requires inner == Weave(idents, ".", [])
    ensures ["{"] + (inner + close) + tl == ["{"] + Weave(idents, ".", close + tl)
  {
    WeaveTail(idents, ".", [], close + tl);
    assert [] + (close + tl) == close + tl;
    Shift(inner, close, tl);
    Shift(["{"], inner + close, tl);
  }

  lemma ParseShort(path: string, idents: seq<string>, pt: seq<string>)
    requires IsFieldPath(path) && idents == Split(path, '.') && Terminated(pt)
    ensures var ts := ["{"] + Weave(idents, ".", ["}"] + pt);
            Terminated(ts) && ParseSegment(ts) == Ok(Variable(path, [Wildcard]), pt)
  {
    var ts0 := Weave(idents, ".", ["}"] + pt);
    Idents(path);
    assert Terminated(["}"] + pt);
    ParseIdentsWeave(idents, ["}"] + pt);
    ParseNoBody(path, idents, ts0, pt);
    ParseBrace(["{"] + ts0);
  }

  lemma ParseNoBody(path: string, idents: seq<string>, ts0: seq<string>, pt: seq<string>)
    requires Terminated(ts0) && Terminated(pt)
    requires ParseIdents(ts0) == Ok(idents, ["}"] + pt) && Join(idents, '.') == path
    ensures ParseVariable(["{"] + ts0) == Ok(Variable(path, [Wildcard]), pt)
  {
    assert (["{"] + ts0)[1..] == ts0 && (["}"] + pt)[1..] == pt;
  }

  /** The tokens of a variable with segments. */
  lemma LongTokens(path: string, segs: seq<Segment>, body: string, tl: seq<string>, pt: seq<string>)
      returns (hs: seq<string>)
    requires IsFieldPath(path) && AllPlain(segs) && PlainReads(segs, body) && Lexed(Init, tl) && Terminated(pt)
    ensures IsLexedTo(Init, hs, Long(path, body), tl) && hs[|hs| - 1] == "}"
    ensures Terminated(hs + pt) && ParseSegment(hs + pt) == Ok(Variable(path, segs), pt)
  {
    var idents := Split(path, '.');
    var inner := Weave(idents, ".", []);
    Idents(path);
    LexedDelimiter(Nested, "}", tl);
    var hs' := PlainTokens(segs, body, ["}"] + tl, ["}"] + pt);
    var close := ["="] + (hs' + ["}"]);
    hs := ["{"] + (inner + close);
    CloseTail(hs', tl);
    CloseTail(hs', pt);
    LexedDelimiter(Field, "=", hs' + (["}"] + tl));
    PathLexed(path, close + tl);
    LongThen(path, body, Concat(tl));
    HeadTail(idents, inner, close, tl);
    HeadTail(idents, inner, close, pt);
    ParseLong(path, idents, segs, hs' + (["}"] + pt), pt);
  }

  lemma CloseTail(hs: seq<string>, tl: seq<string>)
    ensures ["="] + (hs + ["}"]) + tl == ["="] + (hs + (["}"] + tl))
  {}

  lemma ParseLong(path: string, idents: seq<string>, segs: seq<Segment>, ts1: seq<string>, pt: seq<string>)
    requires IsFieldPath(path) && idents == Split(path, '.') && Terminated(pt)
    requires Terminated(ts1) && ParseSegments(ts1) == Ok(segs, ["}"] + pt)
    ensures var ts := ["{"] + Weave(idents, ".", ["="] + ts1);
            Terminated(ts) && ParseSegment(ts) == Ok(Variable(path, segs), pt)
  {
    Idents(path);
    assert Terminated(["="] + ts1);
    ParseIdentsWeave(idents, ["="] + ts1);
    var ts0 := Weave(idents, ".", ["="] + ts1);
    ParseBraced(path, idents, segs, ts0, ts1, pt);
    ParseBrace(["{"] + ts0);
  }

  /** The tokens of a segment. */
  lemma SegmentHead(s: Segment, x: string, tl: seq<string>, pt: seq<string>) returns (hs: seq<string>)
    requires IsWellFormedSegment(s) && SegmentRead(s, x) && Lexed(Init, tl) && Terminated(pt)
    requires tl != [] && !s.Variable? && x != "/" ==> IsDelimiter(Init, tl[0])
    ensures IsLexedTo(Init, hs, x, tl) && Terminated(hs + pt) && ParseSegment(hs + pt) == Ok(s, pt)
    ensures if s.Variable? then hs[|hs| - 1] == "}" else hs == [x]
  {
    if s.Variable? {
      if x == Short(s.path) && s.segments == [Wildcard] {
        hs := ShortTokens(s.path, tl, pt);
      } else {
        var body :| x == Long(s.path, body) && PlainReads(s.segments, body);
        hs := LongTokens(s.path, s.segments, body, tl, pt);
      }
    } else {
      PlainToken(Init, s, x, tl, pt);
      hs := [x];
    }
  }

  // ----- the whole path -----

  /** `ts` are the tokens of a body and, if there is one, a verb; `hs` are those that are parsed. */
  ghost predicate IsPathOf(
    segs: seq<Segment>, x: string, has: bool, verb: string, hs: seq<string>, ts: seq<string>)
  {
    && ts != [] && Lexed(Init, ts) && Concat(ts) == x + (if has then ":" + verb else "")
    && CutVerb(ts) == (hs, verb)
    && Terminated(hs + [EOF]) && ParseSegments(hs + [EOF]) == Ok(segs, [EOF])
  }

  lemma LastVerb(s: Segment, x: string, has: bool, verb: string) returns (hs: seq<string>, ts: seq<string>)
    requires IsWellFormedSegment(s) && SegmentRead(s, x) && IsVerb(verb)
    requires has || (verb == "" && ColonSafe([s], ""))
    ensures IsPathOf([s], x, has, verb, hs, ts)
  {
    if s.Variable? || x == "/" {
      hs, ts := DelimitedVerb(s, x, has, verb);
    } else {
      hs, ts := GluedVerb(s, x, has, verb);
    }
  }

  lemma ColonText(verb: string)
    requires IsVerb(verb)
    ensures IsText(Init, ":" + verb)
  {
    assert forall i | 1 <= i < |":" + verb| :: (":" + verb)[i] == verb[i - 1];
  }

  /** Behind a delimiter the verb is a token of its own. */
  lemma DelimitedVerb(s: Segment, x: string, has: bool, verb: string) returns (hs: seq<string>, ts: seq<string>)
    requires IsWellFormedSegment(s) && SegmentRead(s, x) && IsVerb(verb) && (has || verb == "")
    requires s.Variable? || x == "/"
    ensures IsPathOf([s], x, has, verb, hs, ts)
  {
    var v := ":" + verb;
    var tl := if has then [v] else [];
    ColonText(verb);
    OneText(Init, v, []);
    assert [v] + [] == [v] && v + "" == v;
    hs := SegmentHead(s, x, tl, [EOF]);
    ts := hs + tl;
    ParseOne(hs + [EOF], s, [EOF]);
    if has {
      CutWholeVerb(hs, verb);
    } else {
      assert hs + [] == hs;
      CutNoVerb(hs);
    }
  }

  /** Behind a text it is the end of the token. */
  lemma GluedVerb(s: Segment, x: string, has: bool, verb: string) returns (hs: seq<string>, ts: seq<string>)
    requires IsPlain(s) && PlainRead(s, x) && x != "/" && IsVerb(verb)
    requires has || (verb == "" && ColonSafe([s], ""))
    ensures IsPathOf([s], x, has, verb, hs, ts)
  {
    hs := [x];
    PlainToken(Init, s, x, [], [EOF]);
    ParseOne(hs + [EOF], s, [EOF]);
    if has {
      var t := x + ":" + verb;
      Assoc(x, ":", verb);
      PlainIsText(s);
      assert PrintSegment(s) == x;
      GluedIsText(x, verb);
      OneText(Init, t, []);
      ts := [t];
      assert [t] + [] == [t] && t + "" == t;
      CutVerbOn([], x, verb);
      assert [] + [t] == [t] && [] + [x] == [x];
    } else {
      ts := [x];
      assert [x] + [] == [x] && x + "" == x;
      CutNoVerb([x]);
    }
  }

  lemma GluedIsText(x: string, verb: string)
    requires IsText(Init, x) && IsVerb(verb)
    ensures IsText(Init, x + ":" + verb)
  {
    var t := x + ":" + verb;
    assert forall i | 0 <= i < |t| :: t[i] == if i < |x| then x[i] else if i == |x| then ':' else verb[i - |x| - 1];
  }

  lemma FirstRead(segs: seq<Segment>, x: string) returns (a: string, b: string)
    requires SegmentsRead(segs, x) && |segs| > 1
    ensures x == a + ("/" + b) && SegmentRead(segs[0], a) && SegmentsRead(segs[1..], b)
  {
    a, b :| x == a + ("/" + b) && SegmentRead(segs[0], a) && SegmentsRead(segs[1..], b);
  }

  /** Tokens in front of the last ones are not touched by the cut. */
  lemma CutBehind(pre: seq<string>, ts: seq<string>)
    requires ts != []
    ensures CutVerb(pre + ts) == (pre + CutVerb(ts).0, CutVerb(ts).1)
  {
    var all, n := pre + ts, |ts| - 1;
    assert all[|all| - 1] == ts[n] && all[..|all| - 1] == pre + ts[..n];
    var idx := LastIndex(ts[n], ':');
    if idx > 0 {
      Shift(pre, ts[..n], [ts[n][..idx]]);
    }
  }

  lemma MorePath(s: Segment, a: string, segs: seq<Segment>, b: string, has: bool, verb: string,
                 hs: seq<string>, ts: seq<string>) returns (hs': seq<string>, ts': seq<string>)
    requires IsWellFormedSegment(s) && SegmentRead(s, a) && IsPathOf(segs, b, has, verb, hs, ts)
    ensures IsPathOf([s] + segs, a + ("/" + b), has, verb, hs', ts')
  {
    var v := if has then ":" + verb else "";
    SlashLexed(Init, ts);
    var h := SegmentHead(s, a, ["/"] + ts, ["/"] + (hs + [EOF]));
    hs', ts' := h + (["/"] + hs), h + (["/"] + ts);
    SlashThen(a, b, v);
    Shift(h, ["/"], ts);
    Shift(h, ["/"], hs);
    CutBehind(h + ["/"], ts);
    Shift(["/"], hs, [EOF]);
    Shift(h, ["/"] + hs, [EOF]);
    ParseMore(h + (["/"] + (hs + [EOF])), s, hs + [EOF], segs, [EOF]);
  }

  lemma {:induction false} PathTokensOf(segs: seq<Segment>, x: string, has: bool, verb: string)
      returns (hs: seq<string>, ts: seq<string>)
    requires SegmentsRead(segs, x) && AllWellFormed(segs) && IsVerb(verb)
    requires has || (verb == "" && ColonSafe(segs, ""))
    ensures IsPathOf(segs, x, has, verb, hs, ts)
    decreases |segs|
  {
    if |segs| == 1 {
      hs, ts := LastVerb(segs[0], x, has, verb);
      assert segs == [segs[0]];
    } else {
      var a, b := FirstRead(segs, x);
      hs, ts := PathTokensOf(segs[1..], b, has, verb);
      hs, ts := MorePath(segs[0], a, segs[1..], b, has, verb, hs, ts);
      assert segs == [segs[0]] + segs[1..];
    }
  }

  lemma PathParses(segs: seq<Segment>, x: string, has: bool, verb: string, hs: seq<string>, ts: seq<string>,
                   tmpl: string)
    requires IsPathOf(segs, x, has, verb, hs, ts) && tmpl == "/" + (x + if has then ":" + verb else "")
    ensures ParseTemplate(tmpl) == Success(Template(segs, verb, tmpl))
  {
    assert tmpl[1..] == Concat(ts);
    TokenizeTokens(tmpl[1..], ts, hs, verb);
  }

  /** Every text that is read as well-formed segments and a verb parses to them. */
  lemma Accepted(segs: seq<Segment>, verb: string, tmpl: string)
    requires AllWellFormed(segs) && IsVerb(verb) && ReadsAs(segs, verb, tmpl)
    ensures ParseTemplate(tmpl) == Success(Template(segs, verb, tmpl))
  {
    var body :| SegmentsRead(segs, body) && EndsAs(segs, verb, body, tmpl);
    var has := tmpl == "/" + (body + (":" + verb));
    var hs, ts := PathTokensOf(segs, body, has, verb);
    assert body + "" == body;
    PathParses(segs, body, has, verb, hs, ts, tmpl);
  }

  // ----- the grammar is accepted -----

  lemma {:induction false} PlainDerived(segs: seq<Segment>, x: string)
    requires AllPlain(segs) && SegmentsText(segs, x)
    ensures PlainReads(segs, x)
    decreases |segs|
  {
    if |segs| > 1 {
      var a, b := FirstText(segs, x);
      PlainDerived(segs[1..], b);
      assert PlainRead(segs[0], a) && PlainReads(segs[1..], b);
    }
  }

  lemma SegmentDerived(s: Segment, x: string)
    requires IsWellFormedSegment(s) && SegmentText(s, x)
    ensures SegmentRead(s, x)
  {
    if s.Variable? && !(x == Short(s.path) && s.segments == [Wildcard]) {
      var body :| x == Long(s.path, body) && SegmentsText(s.segments, body);
      PlainDerived(s.segments, body);
    }
  }

  lemma {:induction false} SegmentsDerived(segs: seq<Segment>, x: string)
    requires AllWellFormed(segs) && SegmentsText(segs, x)
    ensures SegmentsRead(segs, x)
    decreases |segs|
  {
    if |segs| == 1 {
      SegmentDerived(segs[0], x);
    } else {
      var a, b := FirstText(segs, x);
      SegmentDerived(segs[0], a);
      SegmentsDerived(segs[1..], b);
      assert SegmentRead(segs[0], a) && SegmentsRead(segs[1..], b);
    }
  }

  /** Completeness: every derivation of well-formed segments and verb, in either form of a variable, is parsed back. */
  lemma GrammarAccepted(segs: seq<Segment>, verb: string, tmpl: string)
    requires WellFormed(segs, verb) && TemplateText(segs, verb, tmpl)
    ensures ParseTemplate(tmpl) == Success(Template(segs, verb, tmpl))
  {
    var body :| SegmentsText(segs, body) && tmpl == "/" + (body + if verb == "" then "" else ":" + verb);
    SegmentsDerived(segs, body);
    assert body + "" == body;
    assert EndsAs(segs, verb, body, tmpl);
    Accepted(segs, verb, tmpl);
  }

  // ----- nothing else is accepted -----

  lemma PlainRest(ts: seq<string>) returns (x: string)
    requires Reads(Nested, ts) && ParseSegment(ts).Ok?
    ensures var r := ParseSegment(ts); PlainRead(r.value, x) && Concat(ts) == x + Concat(r.rest)
  {
    x := ts[0];
    assert x != "";
    SegmentSound(Nested, ts);
    if x == "{" {
      NestedBrace(ts);
    }
  }

  lemma MorePlain(s: Segment, a: string, more: seq<Segment>, b: string)
    requires PlainRead(s, a) && PlainReads(more, b)
    ensures PlainReads([s] + more, a + ("/" + b))
  {
    var all := [s] + more;
    assert all[0] == s && all[1..] == more && PlainRead(all[0], a) && PlainReads(all[1..], b);
  }

  lemma MoreRead(s: Segment, a: string, more: seq<Segment>, b: string)
    requires SegmentRead(s, a) && SegmentsRead(more, b)
    ensures SegmentsRead([s] + more, a + ("/" + b))
  {
    var all := [s] + more;
    assert all[0] == s && all[1..] == more && SegmentRead(all[0], a) && SegmentsRead(all[1..], b);
  }

  lemma {:induction false} PlainsRest(ts: seq<string>) returns (x: string)
    requires Reads(Nested, ts) && ParseSegments(ts).Ok?
    ensures var r := ParseSegments(ts); PlainReads(r.value, x) && Concat(ts) == x + Concat(r.rest)
    decreases |ts|
  {
    SegmentSound(Nested, ts);
    var Ok(s, rest) := ParseSegment(ts);
    x := PlainRest(ts);
    assert ParseSegments(ts) == Continue([s], rest);
    if rest[0] == "/" {
      var next := ParseSegments(rest[1..]);
      KeepsSlash(Nested, ts, rest, next.rest);
      var y := PlainsRest(rest[1..]);
      MorePlain(s, x, next.value, y);
      SlashThen(x, y, Concat(next.rest));
      x := x + ("/" + y);
    }
  }

  lemma VariableRest(ts: seq<string>) returns (x: string)
    requires Reads(Init, ts) && ts[0] == "{" && ParseVariable(ts).Ok?
    ensures var r := ParseVariable(ts); SegmentRead(r.value, x) && Concat(ts) == x + Concat(r.rest)
  {
    DelimiterKeeps(Init, ts);
    IdentsSound(ts[1..]);
    IdentsText(ts[1..]);
    var Ok(idents, rest) := ParseIdents(ts[1..]);
    var path := Join(idents, '.');
    if rest[0] == "=" {
      DelimiterKeeps(Field, rest);
      var body := PlainsRest(rest[1..]);
      x := Long(path, body);
      LongThen(path, body, Concat(ParseVariable(ts).rest));
    } else {
      x := Short(path);
      ShortThen(path, Concat(rest[1..]));
    }
  }

  lemma SegmentRest(ts: seq<string>) returns (x: string)
    requires Reads(Init, ts) && ParseSegment(ts).Ok?
    ensures var r := ParseSegment(ts); SegmentRead(r.value, x) && Concat(ts) == x + Concat(r.rest)
  {
    var t := ts[0];
    if t == "/" || t == "*" || t == "**" || IsPChars(t) {
      x := t;
    } else {
      x := VariableRest(ts);
    }
  }

  lemma {:induction false} SegmentsRest(ts: seq<string>) returns (x: string)
    requires Reads(Init, ts) && ParseSegments(ts).Ok?
    ensures var r := ParseSegments(ts); SegmentsRead(r.value, x) && Concat(ts) == x + Concat(r.rest)
    decreases |ts|
  {
    SegmentSound(Init, ts);
    var Ok(s, rest) := ParseSegment(ts);
    x := SegmentRest(ts);
    assert ParseSegments(ts) == Continue([s], rest);
    if rest[0] == "/" {
      var next := ParseSegments(rest[1..]);
      KeepsSlash(Init, ts, rest, next.rest);
      var y := SegmentsRest(rest[1..]);
      MoreRead(s, x, next.value, y);
      SlashThen(x, y, Concat(next.rest));
      x := x + ("/" + y);
    }
  }

  lemma TokensRead(tokens: seq<string>, body: string)
    requires Readable(Init, tokens) && EndsOnce(tokens) && Terminated(tokens) && ParseTokens(tokens).Success?
    requires Concat(tokens) == body + EOF
    ensures SegmentsRead(ParseTokens(tokens).value, body)
  {
    AllTaken(tokens);
    var x := SegmentsRest(tokens);
    assert Concat([EOF]) == EOF;
    SameHead(body, x, EOF);
  }

  lemma BodyRead(tmpl: string)
    requires NulFree(tmpl) && ParseTemplate(tmpl).Success? && |tmpl| > 1
    ensures SegmentsRead(ParseTemplate(tmpl).value.segments, ParsedPart(tmpl))
  {
    var tokens := Tokenize(tmpl[1..]).0;
    TokenizeReadable(tmpl[1..]);
    ReadableTerminated(Init, tokens);
    PartsOf(tmpl);
    TokensRead(tokens, ParsedPart(tmpl));
  }

  /** Without a colon in the last token the result is colon-safe. */
  lemma NoColonSafe(tmpl: string)
    requires NulFree(tmpl) && ParseTemplate(tmpl).Success? && |tmpl| > 1 && !HasVerb(PathTokens(tmpl))
    ensures ColonSafe(ParseTemplate(tmpl).value.segments, "")
  {
    var path, segs := tmpl[1..], ParseTemplate(tmpl).value.segments;
    var tokens, ts := Tokenize(path).0, Tokens(Init, path);
    TokenizeReadable(path);
    ReadableTerminated(Init, tokens);
    TokensNonEmpty(Init, path);
    CutParts(ts);
    CutNoVerb(ts);
    if segs != [] && segs[|segs| - 1].Literal? {
      LastToken(tokens, segs);
      assert tokens == ts + [EOF];
    }
  }

  lemma ResultRead(tmpl: string)
    requires NulFree(tmpl) && ParseTemplate(tmpl).Success?
    ensures var t := ParseTemplate(tmpl).value; ReadsAs(t.segments, t.verb, tmpl)
  {
    var t := ParseTemplate(tmpl).value;
    ParsedConsists(tmpl);
    BodyRead(tmpl);
    var body := ParsedPart(tmpl);
    if !HasVerb(PathTokens(tmpl)) {
      NoColonSafe(tmpl);
      assert body + "" == body;
    }
    assert EndsAs(t.segments, t.verb, body, tmpl);
  }

  /** The parser, exactly: a text without NUL parses to segments and a verb if and only if it is read as them. */
  lemma ParseExactly(segs: seq<Segment>, verb: string, tmpl: string)
    requires NulFree(tmpl)
    ensures ParseTemplate(tmpl) == Success(Template(segs, verb, tmpl))
      <==> AllWellFormed(segs) && IsVerb(verb) && ReadsAs(segs, verb, tmpl)
  {
    if ParseTemplate(tmpl) == Success(Template(segs, verb, tmpl)) {
      ParseWellFormed(tmpl);
      ResultRead(tmpl);
    }
    if AllWellFormed(segs) && IsVerb(verb) && ReadsAs(segs, verb, tmpl) {
      Accepted(segs, verb, tmpl);
    }
  }

  // ----- the printed text among all texts of the segments -----

  lemma {:induction false} PrintDerived(segs: seq<Segment>)
    requires segs != [] && AllWellFormed(segs)
    ensures SegmentsText(segs, Join(PrintAll(segs), '/'))
    decreases segs, 0
  {
    SegmentPrintDerived(segs[0]);
    if |segs| > 1 {
      PrintDerived(segs[1..]);
      JoinPrint(segs);
      MoreText(segs[0], PrintSegment(segs[0]), segs[1..], Join(PrintAll(segs[1..]), '/'));
      Assoc(PrintSegment(segs[0]), "/", Join(PrintAll(segs[1..]), '/'));
      assert segs == [segs[0]] + segs[1..];
    }
  }

  lemma SegmentPrintDerived(s: Segment)
    requires IsWellFormedSegment(s)
    ensures SegmentText(s, PrintSegment(s))
    decreases s, 1
  {
    if s.Variable? {
      var body := Join(PrintAll(s.segments), '/');
      PrintDerived(s.segments);
      assert PrintSegment(s) == Long(s.path, body);
    }
  }

  lemma SegmentPrintLongest(s: Segment, x: string)
    requires SegmentText(s, x)
    ensures |x| <= |PrintSegment(s)|
    decreases s, 1
  {
    if s.Variable? {
      if x == Short(s.path) && s.segments == [Wildcard] {
        assert PrintAll(s.segments) == ["*"];
      } else {
        var body :| x == Long(s.path, body) && SegmentsText(s.segments, body);
        PrintLongest(s.segments, body);
      }
    }
  }

  /** Of all texts of some segments the printer chooses the longest: every variable with its segments. */
  lemma PrintLongest(segs: seq<Segment>, x: string)
    requires SegmentsText(segs, x)
    ensures |x| <= |Join(PrintAll(segs), '/')|
    decreases segs, 0
  {
    if |segs| == 1 {
      SegmentPrintLongest(segs[0], x);
    } else {
      var a, b := FirstText(segs, x);
      SegmentPrintLongest(segs[0], a);
      PrintLongest(segs[1..], b);
      JoinPrint(segs);
    }
  }
}
