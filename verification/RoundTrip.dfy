/** Printing a well-formed template and parsing the text gives the template back. */
module RoundTrip {
  import opened Wrappers
  import opened Strings
  import opened Templates
  import opened Tokenizer
  import opened Lexing
  import opened Parser

  // ----- the tokens of a printed template, in front of the tokens `tail` -----

  function Weave(parts: seq<string>, sep: string, tail: seq<string>): (ts: seq<string>)
    ensures parts != [] ==> ts != [] && ts[0] == parts[0]
  {
    if parts == [] then tail
    else [parts[0]] + if |parts| == 1 then tail else [sep] + Weave(parts[1..], sep, tail)
  }

  function SegmentTokens(s: Segment, tail: seq<string>): (ts: seq<string>)
    ensures ts != [] && (s.Variable? ==> ts[0] == "{")
  {
    match s
    case Variable(path, segments) =>
      ["{"] + Weave(Split(path, '.'), ".", ["="] + Weave(PrintAll(segments), "/", ["}"] + tail))
    case _ => [PrintSegment(s)] + tail
  }

  /** A segment whose printed form, if not a variable, is one token. */
  predicate IsLexable(s: Segment) {
    if s.Variable? then IsWellFormedSegment(s) else IsText(Init, PrintSegment(s))
  }

  predicate AllLexable(segs: seq<Segment>) {
    forall i | 0 <= i < |segs| :: IsLexable(segs[i])
  }

  function TopTokens(segs: seq<Segment>, tail: seq<string>): (ts: seq<string>)
  {
    if segs == [] then tail
    else SegmentTokens(segs[0], if |segs| == 1 then tail else ["/"] + TopTokens(segs[1..], tail))
  }

  // ----- the printed text is lexed into these tokens -----

  lemma {:induction false} LexedWeave(st: State, parts: seq<string>, sep: string, tail: seq<string>)
    requires parts != [] && forall i | 0 <= i < |parts| :: IsText(st, parts[i])
    requires IsDelimiter(st, sep) && Next(st, sep[0]) == st
    requires tail != [] && IsDelimiter(st, tail[0]) && Lexed(st, tail)
    ensures Lexed(st, Weave(parts, sep, tail))
    ensures Concat(Weave(parts, sep, tail)) == Join(parts, sep[0]) + Concat(tail)
  {
    if |parts| == 1 {
      LexedText(st, parts[0], tail);
    } else {
      var rest := Weave(parts[1..], sep, tail);
      LexedWeave(st, parts[1..], sep, tail);
      LexedDelimiter(st, sep, rest);
      LexedText(st, parts[0], [sep] + rest);
      assert sep == [sep[0]];
      assert parts[0] + (sep + (Join(parts[1..], sep[0]) + Concat(tail))) == Join(parts, sep[0]) + Concat(tail);
    }
  }

  lemma PlainIsText(s: Segment)
    requires IsPlain(s)
    ensures IsText(Init, PrintSegment(s)) && IsText(Nested, PrintSegment(s))
  {
    if s.Literal? {
      PCharsExclude(s.text);
    }
  }

  lemma IdentIsText(t: string)
    requires IsIdent(t)
    ensures IsText(Field, t)
  {}

  lemma LexedBraced(idents: seq<string>, body: seq<string>, tail: seq<string>)
    requires idents != [] && forall i | 0 <= i < |idents| :: IsText(Field, idents[i])
    requires body != [] && forall i | 0 <= i < |body| :: IsText(Nested, body[i])
    requires Lexed(Init, tail)
    ensures var ts := ["{"] + Weave(idents, ".", ["="] + Weave(body, "/", ["}"] + tail));
            && Lexed(Init, ts)
            && Concat(ts) == "{" + (Join(idents, '.') + ("=" + (Join(body, '/') + ("}" + Concat(tail)))))
  {
    var ts2 := ["}"] + tail;
    var ts1 := ["="] + Weave(body, "/", ts2);
    LexedDelimiter(Nested, "}", tail);
    LexedWeave(Nested, body, "/", ts2);
    LexedDelimiter(Field, "=", Weave(body, "/", ts2));
    LexedWeave(Field, idents, ".", ts1);
    LexedDelimiter(Init, "{", Weave(idents, ".", ts1));
  }

  lemma LexedVariable(s: Segment, tail: seq<string>)
    requires s.Variable? && IsWellFormedSegment(s) && Lexed(Init, tail)
    ensures Lexed(Init, SegmentTokens(s, tail))
    ensures Concat(SegmentTokens(s, tail)) == PrintSegment(s) + Concat(tail)
  {
    var idents, body := Split(s.path, '.'), PrintAll(s.segments);
    SplitParts(s.path, '.');
    forall i | 0 <= i < |body| ensures IsText(Nested, body[i]) {
      PlainIsText(s.segments[i]);
    }
    forall i | 0 <= i < |idents| ensures IsText(Field, idents[i]) {
      IdentIsText(idents[i]);
    }
    LexedBraced(idents, body, tail);
    Regroup(Join(body, '/'), "}", Concat(tail), "");
    Regroup("{", s.path, "=", Join(body, '/') + ("}" + Concat(tail)));
    assert PrintSegment(s) + Concat(tail) == "{" + s.path + "=" + (Join(body, '/') + ("}" + Concat(tail)));
  }

  lemma LexedSegment(s: Segment, tail: seq<string>)
    requires IsLexable(s) && Lexed(Init, tail)
    requires tail != [] ==> s.Variable? || IsDelimiter(Init, tail[0])
    ensures Lexed(Init, SegmentTokens(s, tail))
    ensures Concat(SegmentTokens(s, tail)) == PrintSegment(s) + Concat(tail)
  {
    if s.Variable? {
      LexedVariable(s, tail);
    } else {
      LexedText(Init, PrintSegment(s), tail);
    }
  }

  lemma JoinPrint(segs: seq<Segment>)
    requires |segs| > 1
    ensures Join(PrintAll(segs), '/') == PrintSegment(segs[0]) + "/" + Join(PrintAll(segs[1..]), '/')
  {
    assert PrintAll(segs)[1..] == PrintAll(segs[1..]);
  }

  lemma Regroup(a: string, b: string, c: string, d: string)
    ensures a + (b + (c + d)) == a + b + c + d
  {}

  lemma {:induction false} LexedTop(segs: seq<Segment>, tail: seq<string>)
    requires segs != [] && AllLexable(segs)
    requires Lexed(Init, tail)
    requires tail != [] ==> segs[|segs| - 1].Variable?
    ensures Lexed(Init, TopTokens(segs, tail))
    ensures Concat(TopTokens(segs, tail)) == Join(PrintAll(segs), '/') + Concat(tail)
  {
    if |segs| == 1 {
      LexedSegment(segs[0], tail);
    } else {
      var inner := TopTokens(segs[1..], tail);
      LexedTop(segs[1..], tail);
      LexedDelimiter(Init, "/", inner);
      LexedSegment(segs[0], ["/"] + inner);
      JoinPrint(segs);
      Regroup(PrintSegment(segs[0]), "/", Join(PrintAll(segs[1..]), '/'), Concat(tail));
    }
  }

  // ----- the parser reads the segments back from the tokens -----

  lemma {:induction false} ParseIdentsWeave(idents: seq<string>, tail: seq<string>)
    requires idents != [] && forall i | 0 <= i < |idents| :: IsIdent(idents[i])
    requires Terminated(tail) && !Matches(Sym("."), tail[0])
    ensures Terminated(Weave(idents, ".", tail))
    ensures ParseIdents(Weave(idents, ".", tail)) == Ok(idents, tail)
  {
    var ts := Weave(idents, ".", tail);
    if |idents| == 1 {
      assert ts[1..] == tail && ts[1] == tail[0];
      assert idents == [ts[0]];
    } else {
      ParseIdentsWeave(idents[1..], tail);
      assert ts[2..] == Weave(idents[1..], ".", tail);
      assert [ts[0]] + idents[1..] == idents;
    }
  }

  lemma ParsePlainToken(s: Segment, tail: seq<string>)
    requires IsPlain(s) && Terminated(tail)
    ensures ParseSegment([PrintSegment(s)] + tail) == Ok(s, tail)
  {
    assert ([PrintSegment(s)] + tail)[1..] == tail;
    if s.Literal? {
      PCharsExclude(s.text);
    }
  }

  lemma ParseOne(ts: seq<string>, s: Segment, tail: seq<string>)
    requires Terminated(ts) && Terminated(tail) && tail[0] != "/" && ParseSegment(ts) == Ok(s, tail)
    ensures ParseSegments(ts) == Ok([s], tail)
  {}

  lemma ParseMore(ts: seq<string>, s: Segment, ts': seq<string>, segs: seq<Segment>, tail: seq<string>)
    requires Terminated(ts) && Terminated(ts') && ParseSegment(ts) == Ok(s, ["/"] + ts')
    requires ParseSegments(ts') == Ok(segs, tail)
    ensures ParseSegments(ts) == Ok([s] + segs, tail)
  {
    assert (["/"] + ts')[1..] == ts';
  }

  lemma ParsePlainMore(s: Segment, ts': seq<string>, segs: seq<Segment>, tail: seq<string>)
    requires IsPlain(s) && Terminated(ts') && ParseSegments(ts') == Ok(segs, tail)
    ensures ParseSegments([PrintSegment(s)] + (["/"] + ts')) == Ok([s] + segs, tail)
  {
    ParsePlainToken(s, ["/"] + ts');
    ParseMore([PrintSegment(s)] + (["/"] + ts'), s, ts', segs, tail);
  }

  lemma {:induction false} ParsePlainWeave(segs: seq<Segment>, tail: seq<string>)
    requires segs != [] && AllPlain(segs)
    requires Terminated(tail) && tail[0] != "/"
    ensures Terminated(Weave(PrintAll(segs), "/", tail))
    ensures ParseSegments(Weave(PrintAll(segs), "/", tail)) == Ok(segs, tail)
  {
    if |segs| == 1 {
      ParsePlainToken(segs[0], tail);
      ParseOne([PrintSegment(segs[0])] + tail, segs[0], tail);
      assert segs == [segs[0]];
    } else {
      assert PrintAll(segs)[1..] == PrintAll(segs[1..]);
      ParsePlainWeave(segs[1..], tail);
      ParsePlainMore(segs[0], Weave(PrintAll(segs[1..]), "/", tail), segs[1..], tail);
      assert segs == [segs[0]] + segs[1..];
    }
  }

  lemma ParseBrace(ts: seq<string>)
    requires Terminated(ts) && ts[0] == "{"
    ensures ParseSegment(ts) == ParseVariable(ts)
  {
    assert !IsPChars("{");
  }

  lemma ParseBraced(path: string, idents: seq<string>, segs: seq<Segment>,
                    ts0: seq<string>, ts1: seq<string>, tail: seq<string>)
    requires Terminated(ts0) && Terminated(ts1) && Terminated(tail)
    requires ParseIdents(ts0) == Ok(idents, ["="] + ts1) && Join(idents, '.') == path
    requires ParseSegments(ts1) == Ok(segs, ["}"] + tail)
    ensures ParseVariable(["{"] + ts0) == Ok(Variable(path, segs), tail)
  {
    assert (["{"] + ts0)[1..] == ts0;
    assert (["="] + ts1)[1..] == ts1;
    assert (["}"] + tail)[1..] == tail;
  }

  lemma ParseVariableTokens(path: string, segs: seq<Segment>, tail: seq<string>)
    requires IsFieldPath(path) && segs != [] && AllPlain(segs) && Terminated(tail)
    ensures var ts := Weave(Split(path, '.'), ".", ["="] + Weave(PrintAll(segs), "/", ["}"] + tail));
      Terminated(["{"] + ts) && ParseSegment(["{"] + ts) == Ok(Variable(path, segs), tail)
  {
    var idents, ts1 := Split(path, '.'), Weave(PrintAll(segs), "/", ["}"] + tail);
    assert Terminated(["}"] + tail);
    SplitParts(path, '.');
    ParsePlainWeave(segs, ["}"] + tail);
    assert Terminated(["="] + ts1);
    ParseIdentsWeave(idents, ["="] + ts1);
    var ts0 := Weave(idents, ".", ["="] + ts1);
    ParseBraced(path, idents, segs, ts0, ts1, tail);
    ParseBrace(["{"] + ts0);
  }

  lemma ParseSegmentTokens(s: Segment, tail: seq<string>)
    requires IsWellFormedSegment(s) && Terminated(tail)
    ensures Terminated(SegmentTokens(s, tail))
    ensures ParseSegment(SegmentTokens(s, tail)) == Ok(s, tail)
  {
    if s.Variable? {
      ParseVariableTokens(s.path, s.segments, tail);
    } else {
      ParsePlainToken(s, tail);
    }
  }

  lemma WellFormedIsLexable(segs: seq<Segment>)
    requires AllWellFormed(segs)
    ensures AllLexable(segs)
  {
    forall i | 0 <= i < |segs| ensures IsLexable(segs[i]) {
      if IsPlain(segs[i]) {
        PlainIsText(segs[i]);
      }
    }
  }

  lemma ParseSegmentThen(s: Segment, segs: seq<Segment>, ts: seq<string>, tail: seq<string>)
    requires IsWellFormedSegment(s) && Terminated(ts) && ParseSegments(ts) == Ok(segs, tail)
    ensures Terminated(SegmentTokens(s, ["/"] + ts))
    ensures ParseSegments(SegmentTokens(s, ["/"] + ts)) == Ok([s] + segs, tail)
  {
    assert Terminated(["/"] + ts);
    ParseSegmentTokens(s, ["/"] + ts);
    ParseMore(SegmentTokens(s, ["/"] + ts), s, ts, segs, tail);
  }

  lemma ParseSegmentOnly(s: Segment, tail: seq<string>)
    requires IsWellFormedSegment(s) && Terminated(tail) && tail[0] != "/"
    ensures Terminated(SegmentTokens(s, tail))
    ensures ParseSegments(SegmentTokens(s, tail)) == Ok([s], tail)
  {
    ParseSegmentTokens(s, tail);
    ParseOne(SegmentTokens(s, tail), s, tail);
  }

  lemma TopUnfold(segs: seq<Segment>, tail: seq<string>)
    requires segs != []
    ensures |segs| == 1 ==> segs == [segs[0]] && TopTokens(segs, tail) == SegmentTokens(segs[0], tail)
    ensures |segs| > 1 ==>
      && segs == [segs[0]] + segs[1..]
      && TopTokens(segs, tail) == SegmentTokens(segs[0], ["/"] + TopTokens(segs[1..], tail))
  {}

  lemma {:induction false} ParseTopTokens(segs: seq<Segment>, tail: seq<string>)
    requires segs != [] && AllWellFormed(segs)
    requires Terminated(tail) && tail[0] != "/"
    ensures Terminated(TopTokens(segs, tail))
    ensures ParseSegments(TopTokens(segs, tail)) == Ok(segs, tail)
  {
    TopUnfold(segs, tail);
    if |segs| == 1 {
      ParseSegmentOnly(segs[0], tail);
    } else {
      assert AllWellFormed(segs[1..]);
      ParseTopTokens(segs[1..], tail);
      ParseSegmentThen(segs[0], segs[1..], TopTokens(segs[1..], tail), tail);
    }
  }

  // ----- the verb -----

  lemma CutVerbOn(pre: seq<string>, p: string, verb: string)
    requires ':' !in verb
    ensures CutVerb(pre + [p + ":" + verb]) == (if p == "" then pre else pre + [p], verb)
  {
    var ts, t := pre + [p + ":" + verb], p + ":" + verb;
    var idx := LastIndex(t, ':');
    assert t[|p|] == ':';
    assert idx == |p| by {
      assert forall j | |p| < j < |t| :: t[j] == verb[j - |p| - 1];
    }
    assert ts[|ts| - 1] == t && ts[..|ts| - 1] == pre;
    assert t[..idx] == p && t[idx + 1..] == verb;
  }

  lemma CutNoVerb(ts: seq<string>)
    requires ts != [] && ':' !in ts[|ts| - 1]
    ensures CutVerb(ts) == (ts, "")
  {
    assert LastIndex(ts[|ts| - 1], ':') < 0;
  }

  lemma {:induction false} WeaveTail(parts: seq<string>, sep: string, a: seq<string>, b: seq<string>)
    ensures Weave(parts, sep, a + b) == Weave(parts, sep, a) + b
  {
    if |parts| > 1 {
      WeaveTail(parts[1..], sep, a, b);
    }
  }

  lemma SegmentTokensTail(s: Segment, a: seq<string>, b: seq<string>)
    ensures SegmentTokens(s, a + b) == SegmentTokens(s, a) + b
  {
    if s.Variable? {
      var idents, body := Split(s.path, '.'), PrintAll(s.segments);
      assert ["}"] + (a + b) == ["}"] + a + b;
      WeaveTail(body, "/", ["}"] + a, b);
      var inner := Weave(body, "/", ["}"] + a);
      assert ["="] + (inner + b) == ["="] + inner + b;
      WeaveTail(idents, ".", ["="] + inner, b);
    }
  }

  /** The tokens before the last segment. */
  function Leading(segs: seq<Segment>): seq<string>
  {
    if segs == [] then [] else SegmentTokens(segs[0], ["/"] + Leading(segs[1..]))
  }

  lemma {:induction false} TopTokensLast(init: seq<Segment>, s: Segment, tail: seq<string>)
    ensures TopTokens(init + [s], tail) == Leading(init) + SegmentTokens(s, tail)
  {
    if init == [] {
      assert init + [s] == [s];
    } else {
      var pre, last := Leading(init[1..]), SegmentTokens(s, tail);
      TopTokensLast(init[1..], s, tail);
      assert (init + [s])[1..] == init[1..] + [s];
      assert ["/"] + (pre + last) == ["/"] + pre + last;
      SegmentTokensTail(init[0], ["/"] + pre, last);
    }
  }

  lemma PrintedPath(segs: seq<Segment>, verb: string)
    ensures Print(segs, verb)[1..] == Join(PrintAll(segs), '/') + if verb == "" then "" else ":" + verb
  {}

  lemma TokenizeTokens(path: string, ts: seq<string>, tokens: seq<string>, verb: string)
    requires Lexed(Init, ts) && ts != [] && Concat(ts) == path && CutVerb(ts) == (tokens, verb)
    ensures Tokenize(path) == (tokens + [EOF], verb)
  {
    TokensConcat(Init, ts);
    assert path != "" by {
      assert Tokens(Init, "") == [];
    }
  }

  /** The tokens and the verb cut from the path of a printed template. */
  lemma TokenizePrinted(segs: seq<Segment>, verb: string)
    requires segs != [] && IsVerb(verb) && ColonSafe(segs, verb) && AllLexable(segs)
    ensures Tokenize(Print(segs, verb)[1..]) == (TopTokens(segs, []) + [EOF], verb)
  {
    if verb == "" {
      PrintedNoVerb(segs);
    } else if segs[|segs| - 1].Variable? {
      PrintedVerbAfterVariable(segs, verb);
    } else {
      assert segs == segs[..|segs| - 1] + [segs[|segs| - 1]];
      PrintedVerbAfterPlain(segs[..|segs| - 1], segs[|segs| - 1], verb);
    }
  }

  lemma PrintedNoVerb(segs: seq<Segment>)
    requires segs != [] && ColonSafe(segs, "") && AllLexable(segs)
    ensures Tokenize(Print(segs, "")[1..]) == (TopTokens(segs, []) + [EOF], "")
  {
    var n, ts := |segs| - 1, TopTokens(segs, []);
    assert segs == segs[..n] + [segs[n]];
    TopTokensLast(segs[..n], segs[n], []);
    LastTokenNoColon(segs[n]);
    CutNoVerb(ts);
    LexedTop(segs, []);
    PrintedPath(segs, "");
    TokenizeTokens(Print(segs, "")[1..], ts, ts, "");
  }

  lemma LastTokenNoColon(s: Segment)
    requires s.Literal? ==> ':' !in s.text
    ensures var ts := SegmentTokens(s, []); ':' !in ts[|ts| - 1]
  {
    if s.Variable? {
      SegmentTokensTail(s, [], []);
      VariableLast(s);
    }
  }

  lemma VariableLast(s: Segment)
    requires s.Variable?
    ensures var ts := SegmentTokens(s, []); ts[|ts| - 1] == "}"
  {
    var idents, body := Split(s.path, '.'), PrintAll(s.segments);
    assert ["}"] + [] == [] + ["}"];
    WeaveTail(body, "/", [], ["}"]);
    var inner := Weave(body, "/", []);
    assert ["="] + (inner + ["}"]) == ["="] + inner + ["}"];
    WeaveTail(idents, ".", ["="] + inner, ["}"]);
  }

  lemma VerbIsText(verb: string)
    requires IsVerb(verb) && verb != ""
    ensures IsText(Init, ":" + verb)
  {
    var v := ":" + verb;
    assert forall i | 1 <= i < |v| :: v[i] == verb[i - 1];
  }

  lemma CutWholeVerb(pre: seq<string>, verb: string)
    requires ':' !in verb
    ensures CutVerb(pre + [":" + verb]) == (pre, verb)
  {
    assert "" + ":" + verb == ":" + verb;
    CutVerbOn(pre, "", verb);
  }

  lemma LexedVerb(segs: seq<Segment>, v: string)
    requires segs != [] && segs[|segs| - 1].Variable? && AllLexable(segs) && IsText(Init, v)
    ensures Lexed(Init, TopTokens(segs, []) + [v])
    ensures Concat(TopTokens(segs, []) + [v]) == Join(PrintAll(segs), '/') + v
  {
    TopTokensTail(segs, [v]);
    LexedText(Init, v, []);
    assert [v] + [] == [v] && v + "" == v;
    LexedTop(segs, [v]);
  }

  lemma PrintedVerbAfterVariable(segs: seq<Segment>, verb: string)
    requires segs != [] && segs[|segs| - 1].Variable? && AllLexable(segs)
    requires IsVerb(verb) && verb != ""
    ensures Tokenize(Print(segs, verb)[1..]) == (TopTokens(segs, []) + [EOF], verb)
  {
    var v, ts := ":" + verb, TopTokens(segs, []);
    VerbIsText(verb);
    LexedVerb(segs, v);
    CutWholeVerb(ts, verb);
    PrintedPath(segs, verb);
    TokenizeTokens(Print(segs, verb)[1..], ts + [v], ts, verb);
  }

  lemma AllLexableLast(init: seq<Segment>, s: Segment)
    requires AllLexable(init) && IsLexable(s)
    ensures AllLexable(init + [s])
  {}

  lemma LexedLiteral(init: seq<Segment>, x: string)
    requires AllLexable(init) && IsText(Init, x)
    ensures Lexed(Init, Leading(init) + [x])
    ensures Concat(Leading(init) + [x]) == Join(PrintAll(init + [Literal(x)]), '/')
  {
    AllLexableLast(init, Literal(x));
    LexedTop(init + [Literal(x)], []);
    TopTokensLast(init, Literal(x), []);
    assert SegmentTokens(Literal(x), []) == [x];
  }

  lemma PrintedVerbAfterPlain(init: seq<Segment>, last: Segment, verb: string)
    requires AllLexable(init) && IsLexable(last) && !last.Variable?
    requires IsVerb(verb) && verb != ""
    ensures Tokenize(Print(init + [last], verb)[1..]) == (TopTokens(init + [last], []) + [EOF], verb)
  {
    var p, pre := PrintSegment(last), Leading(init);
    var text := p + ":" + verb;
    LexedLiteral(init, text);
    TopTokensLast(init, last, []);
    assert SegmentTokens(last, []) == [p];
    GluedText(init, last, verb);
    CutVerbOn(pre, p, verb);
    TokenizeTokens(Print(init + [last], verb)[1..], pre + [text], pre + [p], verb);
  }

  lemma GluedText(init: seq<Segment>, last: Segment, verb: string)
    requires verb != ""
    ensures Print(init + [last], verb)[1..]
         == Join(PrintAll(init + [Literal(PrintSegment(last) + ":" + verb)]), '/')
  {
    var p := PrintSegment(last);
    PrintedPath(init + [last], verb);
    PrintAllAppend(init, [last]);
    PrintAllAppend(init, [Literal(p + ":" + verb)]);
    assert p + ":" + verb == p + (":" + verb);
    assert PrintAll([last]) == [p] && PrintAll([Literal(p + ":" + verb)]) == [p + ":" + verb];
    JoinLast(PrintAll(init), p, ":" + verb);
  }

  lemma {:induction false} JoinLast(parts: seq<string>, p: string, v: string)
    ensures Join(parts + [p + v], '/') == Join(parts + [p], '/') + v
  {
    if parts == [] {
      assert parts + [p] == [p] && parts + [p + v] == [p + v];
    } else {
      assert (parts + [p])[1..] == parts[1..] + [p] && (parts + [p + v])[1..] == parts[1..] + [p + v];
      JoinLast(parts[1..], p, v);
    }
  }

  ghost predicate Reparses(segs: seq<Segment>, verb: string) {
    ParseTemplate(Print(segs, verb)) == Success(Template(segs, verb, Print(segs, verb)))
  }

  /** Parse after print is the identity on every well-formed template. */
  lemma ParsePrint(segs: seq<Segment>, verb: string)
    requires WellFormed(segs, verb)
    ensures Reparses(segs, verb)
  {
    WellFormedIsLexable(segs);
    TokenizePrinted(segs, verb);
    TopTokensTail(segs, [EOF]);
    ParseTopTokens(segs, [EOF]);
  }

  lemma {:induction false} TopTokensTail(segs: seq<Segment>, tail: seq<string>)
    requires segs != []
    ensures TopTokens(segs, tail) == TopTokens(segs, []) + tail
  {
    var n := |segs| - 1;
    assert segs == segs[..n] + [segs[n]];
    TopTokensLast(segs[..n], segs[n], []);
    TopTokensLast(segs[..n], segs[n], tail);
    assert [] + tail == tail;
    SegmentTokensTail(segs[n], [], tail);
  }
}
