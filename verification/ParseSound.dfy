/** Every template that parses is well formed up to a final colon, so print and parse are exact inverses. */
module ParseSound {
  import opened Wrappers
  import opened Strings
  import opened Templates
  import opened Tokenizer
  import opened Lexing
  import opened Parser
  import opened RoundTrip

  predicate NulFree(s: string) {
    '\0' !in s
  }

  /** A lexed list of tokens, followed by the end marker. */
  predicate Readable(st: State, ts: seq<string>)
    decreases |ts|
  {
    && ts != []
    && if |ts| == 1 then ts[0] == EOF else
       && (IsDelimiter(st, ts[0]) || (IsText(st, ts[0]) && (|ts| > 2 ==> IsDelimiter(st, ts[1]))))
       && Readable(Step(st, ts[0]), ts[1..])
  }

  /** The end marker stands at the end only. */
  predicate EndsOnce(ts: seq<string>) {
    forall i | 0 <= i < |ts| - 1 :: ts[i] != EOF
  }

  lemma {:induction false} ReadableTerminated(st: State, ts: seq<string>)
    requires Readable(st, ts)
    ensures Terminated(ts)
    decreases |ts|
  {
    if |ts| > 1 {
      ReadableTerminated(Step(st, ts[0]), ts[1..]);
    }
  }

  // ----- the tokenizer's output is readable -----

  lemma {:induction false} LexedReadable(st: State, ts: seq<string>)
    requires Lexed(st, ts)
    ensures Readable(st, ts + [EOF])
    ensures Final(st, ts + [EOF]) == Final(st, ts)
    decreases |ts|
  {
    if ts == [] {
      assert ts + [EOF] == [EOF];
    } else {
      assert (ts + [EOF])[1..] == ts[1..] + [EOF];
      LexedReadable(Step(st, ts[0]), ts[1..]);
    }
  }

  lemma {:induction false} NulFreeEndsOnce(ts: seq<string>)
    requires NulFree(Concat(ts))
    ensures EndsOnce(ts + [EOF])
  {
    if ts != [] {
      var rest := Concat(ts[1..]);
      forall i | 0 <= i < |rest| ensures rest[i] != '\0' {
        assert rest[i] == Concat(ts)[|ts[0]| + i];
      }
      NulFreeEndsOnce(ts[1..]);
      assert ts[0] != EOF by {
        assert EOF[0] == '\0' && '\0' in EOF + rest;
      }
      assert ts + [EOF] == [ts[0]] + (ts[1..] + [EOF]);
    }
  }

  lemma CutLast(st: State, t: string)
    requires IsDelimiter(st, t) || IsText(st, t)
    ensures var (cut, verb) := CutVerb([t]);
            && Lexed(st, cut) && Final(st, cut) == Final(st, [t])
            && Concat(cut) <= t
            && ':' !in verb && forall i | 0 <= i < |verb| :: verb[i] !in Delimiters(Final(st, [t]))
  {
    var idx := LastIndex(t, ':');
    if idx > 0 {
      LexedText(st, t[..idx], []);
      assert [t[..idx]] + [] == [t[..idx]];
      assert [] + [t[..idx]] == [t[..idx]];
    } else if idx < 0 {
      assert Lexed(st, [t]);
    }
    assert IsDelimiter(st, t) ==> idx < 0;
  }

  /** Cutting the verb leaves a lexed list; the verb has no delimiter of the state it was read in. */
  lemma {:induction false} CutLexed(st: State, ts: seq<string>)
    requires Lexed(st, ts) && ts != []
    ensures var (cut, verb) := CutVerb(ts);
            && Lexed(st, cut) && Final(st, cut) == Final(st, ts)
            && Concat(cut) <= Concat(ts)
            && ':' !in verb && forall i | 0 <= i < |verb| :: verb[i] !in Delimiters(Final(st, ts))
    decreases |ts|
  {
    if |ts| == 1 {
      CutLast(st, ts[0]);
      assert ts == [ts[0]];
    } else {
      var t := ts[0];
      var (cut, verb) := CutVerb(ts[1..]);
      CutLexed(Step(st, t), ts[1..]);
      CutVerbTail(ts);
      if cut != [] && !IsDelimiter(st, t) {
        assert cut[0] == ts[1] by {
          assert |ts| > 2 ==> cut[0] == ts[1..][0];
        }
      }
      assert ([t] + cut)[1..] == cut;
    }
  }

  lemma CutVerbTail(ts: seq<string>)
    requires |ts| > 1
    ensures var (cut, verb) := CutVerb(ts[1..]); CutVerb(ts) == ([ts[0]] + cut, verb)
  {
    var l, rest := |ts|, ts[1..];
    var t := ts[l - 1];
    assert rest[|rest| - 1] == t;
    assert ts[..l - 1] == [ts[0]] + rest[..|rest| - 1];
    var idx := LastIndex(t, ':');
    if idx < 0 {
      assert ts == [ts[0]] + rest;
    } else if idx > 0 {
      assert [ts[0]] + rest[..|rest| - 1] + [t[..idx]] == [ts[0]] + (rest[..|rest| - 1] + [t[..idx]]);
    }
  }

  lemma PrefixNulFree(a: string, b: string)
    requires a <= b && NulFree(b)
    ensures NulFree(a)
  {
    assert forall i | 0 <= i < |a| :: a[i] == b[i];
  }

  lemma TokenizeReadable(path: string)
    ensures var (tokens, verb) := Tokenize(path);
            && Readable(Init, tokens) && (NulFree(path) ==> EndsOnce(tokens))
            && ':' !in verb && forall i | 0 <= i < |verb| :: verb[i] !in Delimiters(Final(Init, tokens))
  {
    if path != "" {
      var ts := Tokens(Init, path);
      TokensLexed(Init, path);
      TokensNonEmpty(Init, path);
      CutLexed(Init, ts);
      var (cut, verb) := CutVerb(ts);
      LexedReadable(Init, cut);
      if NulFree(path) {
        PrefixNulFree(Concat(cut), path);
        NulFreeEndsOnce(cut);
      }
    }
  }

  // ----- the parser's output is well formed -----

  lemma {:induction false} IdentsSound(ts: seq<string>)
    requires Readable(Field, ts) && Terminated(ts)
    ensures var r := ParseIdents(ts);
            r.Ok? ==>
              && (forall i | 0 <= i < |r.value| :: IsIdent(r.value[i]))
              && Readable(Field, r.rest) && Final(Field, r.rest) == Final(Field, ts)
              && r.rest[0] in ["=", "}", EOF]
    decreases |ts|
  {
    var r := ParseIdents(ts);
    if r.Ok? {
      assert !IsDelimiter(Field, ts[0]);
      assert ts[1] == EOF || ts[1] == [ts[1][0]];
      if Matches(Sym("."), ts[1]) {
        assert ts[1..][1..] == ts[2..];
        IdentsSound(ts[2..]);
      }
    }
  }

  /** What a successful parse step in state `st` keeps. */
  ghost predicate Keeps(st: State, ts: seq<string>, rest: seq<string>) {
    Readable(st, rest) && Final(st, rest) == Final(st, ts)
  }

  lemma TokenSound(st: State, ts: seq<string>)
    requires (st == Init || st == Nested) && Readable(st, ts) && Terminated(ts)
    requires ts[0] == "/" || ts[0] == "*" || ts[0] == "**" || IsPChars(ts[0])
    ensures Keeps(st, ts, ts[1..]) && ts[0] != ""
  {
    if IsPChars(ts[0]) {
      PCharsExclude(ts[0]);
    }
  }

  lemma VariableSound(ts: seq<string>)
    requires Readable(Init, ts) && Terminated(ts) && ts[0] == "{"
    ensures var r := ParseVariable(ts);
            r.Ok? ==> IsWellFormedSegment(r.value) && r.value.Variable? && Keeps(Init, ts, r.rest)
    decreases |ts|, 0
  {
    var r := ParseVariable(ts);
    if r.Ok? {
      assert Readable(Field, ts[1..]);
      IdentsSound(ts[1..]);
      var Ok(idents, rest) := ParseIdents(ts[1..]);
      IdentPath(idents);
      if rest[0] == "=" {
        BodySound(rest);
      } else {
        DelimiterKeeps(Field, rest);
        assert AllPlain([Wildcard]);
      }
    }
  }

  /** The part of a variable after its equals sign. */
  lemma BodySound(ts: seq<string>)
    requires Readable(Field, ts) && Terminated(ts) && |ts| > 1 && ts[0] == "="
    ensures var r := ParseSegments(ts[1..]);
            r.Ok? && Matches(Sym("}"), r.rest[0]) ==>
              && r.value != [] && AllPlain(r.value)
              && Readable(Init, r.rest[1..]) && Final(Init, r.rest[1..]) == Final(Field, ts)
    decreases |ts|, 0
  {
    DelimiterKeeps(Field, ts);
    SegmentsSound(Nested, ts[1..]);
    var r := ParseSegments(ts[1..]);
    if r.Ok? && Matches(Sym("}"), r.rest[0]) {
      DelimiterKeeps(Nested, r.rest);
    }
  }

  lemma DelimiterKeeps(st: State, ts: seq<string>)
    requires Readable(st, ts) && IsDelimiter(st, ts[0])
    ensures Readable(Next(st, ts[0][0]), ts[1..])
    ensures Final(Next(st, ts[0][0]), ts[1..]) == Final(st, ts)
  {}

  lemma IdentPath(idents: seq<string>)
    requires idents != [] && forall i | 0 <= i < |idents| :: IsIdent(idents[i])
    ensures IsFieldPath(Join(idents, '.'))
  {
    SplitJoin(idents, '.');
  }

  lemma NestedBrace(ts: seq<string>)
    requires Readable(Nested, ts) && Terminated(ts) && ts[0] == "{"
    ensures ParseVariable(ts).Err?
  {
    assert !IsDelimiter(Nested, "{");
  }

  lemma SegmentSound(st: State, ts: seq<string>)
    requires (st == Init || st == Nested) && Readable(st, ts) && Terminated(ts)
    ensures var r := ParseSegment(ts);
            r.Ok? ==>
              && IsWellFormedSegment(r.value) && (st == Nested ==> IsPlain(r.value))
              && Keeps(st, ts, r.rest)
              && (r.value.Literal? ==> r.value.text == ts[0] && r.rest == ts[1..])
    decreases |ts|, 1
  {
    var t := ts[0];
    if t == "/" || t == "*" || t == "**" || IsPChars(t) {
      TokenSound(st, ts);
    } else if t == "{" {
      if st == Init {
        VariableSound(ts);
      } else {
        NestedBrace(ts);
      }
    }
  }

  lemma OneMore(st: State, s: Segment, more: seq<Segment>)
    requires IsWellFormedSegment(s) && AllWellFormed(more)
    requires st == Nested ==> IsPlain(s) && AllPlain(more)
    ensures AllWellFormed([s] + more) && (st == Nested ==> AllPlain([s] + more))
  {}

  lemma KeepsSlash(st: State, ts: seq<string>, rest: seq<string>, end: seq<string>)
    requires (st == Init || st == Nested) && Keeps(st, ts, rest) && |rest| > 0 && rest[0] == "/"
    ensures Readable(st, rest[1..])
    ensures Keeps(st, rest[1..], end) ==> Keeps(st, ts, end)
  {
    DelimiterKeeps(st, rest);
  }

  /** What the parser reads is well formed, and it leaves the tokens readable. */
  ghost predicate Sound(st: State, ts: seq<string>, r: Parsed<seq<Segment>>) {
    r.Ok? ==> AllWellFormed(r.value) && (st == Nested ==> AllPlain(r.value)) && Keeps(st, ts, r.rest)
  }

  lemma SegmentsSound(st: State, ts: seq<string>)
    requires (st == Init || st == Nested) && Readable(st, ts) && Terminated(ts)
    ensures Sound(st, ts, ParseSegments(ts))
    decreases |ts|, 2
  {
    var r := ParseSegments(ts);
    if r.Ok? {
      SegmentSound(st, ts);
      var Ok(s, rest) := ParseSegment(ts);
      assert r == Continue([s], rest);
      if rest[0] == "/" {
        var next := ParseSegments(rest[1..]);
        KeepsSlash(st, ts, rest, next.rest);
        SegmentsSound(st, rest[1..]);
        assert r == Ok([s] + next.value, next.rest);
        OneMore(st, s, next.value);
      } else {
        assert r == Ok([s], rest) && [s] + [] == [s];
        OneMore(st, s, []);
      }
    }
  }

  // ----- the rest is a tail of the tokens, and a final literal is the last of them -----

  /** What a parse step leaves is a tail of the tokens it was given. */
  ghost predicate IsTail(rest: seq<string>, ts: seq<string>)
    decreases |ts|
  {
    rest == ts || (ts != [] && IsTail(rest, ts[1..]))
  }

  /** Before the end marker both lists agree. */
  lemma {:induction false} TailEnd(rest: seq<string>, ts: seq<string>)
    requires IsTail(rest, ts)
    ensures |rest| <= |ts|
    ensures |rest| > 1 ==> rest[|rest| - 2] == ts[|ts| - 2]
    ensures EndsOnce(ts) && rest != [] && rest[0] == EOF ==> |rest| == 1
    decreases |ts|
  {
    if rest != ts {
      TailEnd(rest, ts[1..]);
      assert EndsOnce(ts) ==> EndsOnce(ts[1..]);
    }
  }

  lemma {:induction false} IdentsEnd(ts: seq<string>)
    requires Terminated(ts)
    ensures var r := ParseIdents(ts); r.Ok? ==> IsTail(r.rest, ts)
    decreases |ts|
  {
    TailOfOne(ts);
    if ParseIdents(ts).Ok? && Matches(Sym("."), ts[1]) {
      IdentsEnd(ts[2..]);
      assert ts[1..][1..] == ts[2..];
      TailOfOne(ts[1..]);
      TailTrans(ts[2..], ts[1..], ts);
      TailTrans(ParseIdents(ts[2..]).rest, ts[2..], ts);
    }
  }

  lemma TailOfOne(ts: seq<string>)
    requires |ts| > 0
    ensures IsTail(ts[1..], ts)
  {
    assert IsTail(ts[1..], ts[1..]);
  }

  lemma {:induction false} TailTrans(a: seq<string>, b: seq<string>, c: seq<string>)
    requires IsTail(a, b) && IsTail(b, c)
    ensures IsTail(a, c)
    decreases |c|
  {
    if b != c {
      TailTrans(a, b, c[1..]);
    }
  }

  lemma VariableEnd(ts: seq<string>)
    requires Terminated(ts)
    ensures var r := ParseVariable(ts); r.Ok? ==> r.value.Variable? && IsTail(r.rest, ts)
    decreases |ts|, 0
  {
    if ParseVariable(ts).Ok? {
      IdentsEnd(ts[1..]);
      var rest := ParseIdents(ts[1..]).rest;
      TailOfOne(ts);
      TailTrans(rest, ts[1..], ts);
      TailOfOne(rest);
      TailTrans(rest[1..], rest, ts);
      if Matches(Sym("="), rest[0]) {
        SegmentsEnd(rest[1..]);
        var rest' := ParseSegments(rest[1..]).rest;
        TailTrans(rest', rest[1..], ts);
        TailOfOne(rest');
        TailTrans(rest'[1..], rest', ts);
      }
    }
  }

  lemma SegmentEnd(ts: seq<string>)
    requires Terminated(ts)
    ensures var r := ParseSegment(ts);
            r.Ok? ==> IsTail(r.rest, ts) && (r.value.Literal? ==> r.value.text == ts[0] && |r.rest| == |ts| - 1)
    decreases |ts|, 1
  {
    var t := ts[0];
    TailOfOne(ts);
    if !Matches(Sym("*"), t) && !Matches(Sym("**"), t) && !Matches(TypeLiteral, t) {
      assert ParseSegment(ts) == ParseVariable(ts);
      VariableEnd(ts);
    }
  }

  /** Nothing but the end marker left: a final literal is the token before it. */
  ghost predicate LastLiteral(segs: seq<Segment>, rest: seq<string>, ts: seq<string>) {
    && segs != []
    && (|rest| == 1 && segs[|segs| - 1].Literal? ==> |ts| > 1 && ts[|ts| - 2] == segs[|segs| - 1].text)
  }

  lemma LastLiteralMore(s: Segment, more: seq<Segment>, rest: seq<string>, ts: seq<string>, ts': seq<string>)
    requires LastLiteral(more, rest, ts') && IsTail(ts', ts)
    ensures LastLiteral([s] + more, rest, ts)
  {
    assert ([s] + more)[|more|] == more[|more| - 1];
    TailEnd(ts', ts);
  }

  lemma SegmentsEnd(ts: seq<string>)
    requires Terminated(ts)
    ensures var r := ParseSegments(ts); r.Ok? ==> IsTail(r.rest, ts) && LastLiteral(r.value, r.rest, ts)
    decreases |ts|, 2
  {
    var r := ParseSegments(ts);
    if r.Ok? {
      SegmentEnd(ts);
      var Ok(s, rest) := ParseSegment(ts);
      assert r == Continue([s], rest);
      if rest[0] == "/" {
        SegmentsEnd(rest[1..]);
        TailOfOne(rest);
        TailTrans(rest[1..], rest, ts);
        var Ok(more, end) := ParseSegments(rest[1..]);
        TailTrans(end, rest[1..], ts);
        LastLiteralMore(s, more, end, ts, rest[1..]);
      } else {
        assert LastLiteral([s], rest, ts);
      }
    }
  }

  // ----- main results -----

  /** Every text that parses gives well-formed segments; without a NUL in the text the verb is one too. */
  lemma ParseWellFormed(tmpl: string)
    requires ParseTemplate(tmpl).Success?
    ensures var t := ParseTemplate(tmpl).value;
            && t.segments != [] && AllWellFormed(t.segments)
            && (NulFree(tmpl) ==> IsVerb(t.verb))
  {
    var (tokens, verb) := Tokenize(tmpl[1..]);
    TokenizeReadable(tmpl[1..]);
    ReadableTerminated(Init, tokens);
    SegmentsSound(Init, tokens);
    if NulFree(tmpl) {
      AllTaken(tokens);
    }
  }

  /** Without an end marker inside, a successful parse leaves only the end marker, in the initial state. */
  lemma AllTaken(ts: seq<string>)
    requires Readable(Init, ts) && Terminated(ts) && EndsOnce(ts) && ParseTokens(ts).Success?
    ensures ParseSegments(ts).Ok? && ParseSegments(ts).rest == [EOF]
    ensures Final(Init, ts) == Init
  {
    SegmentsEnd(ts);
    SegmentsSound(Init, ts);
    var rest := ParseSegments(ts).rest;
    TailEnd(rest, ts);
    assert rest == [EOF];
    assert Final(Init, rest) == Init;
  }

  lemma TokensLast(s: Segment, tail: seq<string>)
    requires tail != []
    ensures var ts := SegmentTokens(s, tail); ts[|ts| - 1] == tail[|tail| - 1]
  {
    assert [] + tail == tail;
    SegmentTokensTail(s, [], tail);
  }

  lemma {:induction false} LeadingEnd(segs: seq<Segment>)
    ensures var ts := Leading(segs); ts != [] ==> ts[|ts| - 1] == "/"
  {
    if segs != [] {
      LeadingEnd(segs[1..]);
      var tail := ["/"] + Leading(segs[1..]);
      assert tail[|tail| - 1] == "/";
      TokensLast(segs[0], tail);
      assert Leading(segs) == SegmentTokens(segs[0], tail);
    }
  }

  lemma LastToken(ts: seq<string>, segs: seq<Segment>)
    requires Readable(Init, ts) && Terminated(ts) && EndsOnce(ts)
    requires ParseTokens(ts) == Success(segs) && segs != [] && segs[|segs| - 1].Literal?
    ensures |ts| > 1 && ts[|ts| - 2] == segs[|segs| - 1].text
  {
    AllTaken(ts);
    SegmentsEnd(ts);
  }

  lemma {:induction false} JoinNulFree(parts: seq<string>, sep: char)
    requires sep != '\0' && forall i | 0 <= i < |parts| :: NulFree(parts[i])
    ensures NulFree(Join(parts, sep))
  {
    if |parts| > 1 {
      JoinNulFree(parts[1..], sep);
    }
  }

  lemma PlainNulFree(s: Segment)
    requires IsPlain(s)
    ensures NulFree(PrintSegment(s))
  {
    if s.Literal? {
      PCharsExclude(s.text);
    }
  }

  lemma SegmentNulFree(s: Segment)
    requires IsWellFormedSegment(s)
    ensures NulFree(PrintSegment(s))
  {
    if s.Variable? {
      forall i | 0 <= i < |s.segments| ensures NulFree(PrintAll(s.segments)[i]) {
        PlainNulFree(s.segments[i]);
      }
      JoinNulFree(PrintAll(s.segments), '/');
      var idents := Split(s.path, '.');
      forall i | 0 <= i < |idents| ensures NulFree(idents[i]) {
        assert IsIdent(idents[i]);
      }
      SplitParts(s.path, '.');
      JoinNulFree(idents, '.');
    } else {
      PlainNulFree(s);
    }
  }

  lemma PrintNulFree(segs: seq<Segment>)
    requires AllWellFormed(segs)
    ensures NulFree(Join(PrintAll(segs), '/'))
  {
    forall i | 0 <= i < |segs| ensures NulFree(PrintAll(segs)[i]) {
      SegmentNulFree(segs[i]);
    }
    JoinNulFree(PrintAll(segs), '/');
  }

  lemma ColonTokens(init: seq<Segment>, x: string, path: string)
    requires AllLexable(init) && IsText(Init, x) && ':' in x
    requires path == Join(PrintAll(init + [Literal(x)]), '/')
    ensures var idx := LastIndex(x, ':');
            && idx >= 0
            && Tokenize(path).0 == (if idx == 0 then Leading(init) else Leading(init) + [x[..idx]]) + [EOF]
  {
    var pre, idx := Leading(init), LastIndex(x, ':');
    LexedLiteral(init, x);
    CutsLiteral(pre, x);
    var (cut, verb) := CutVerb(pre + [x]);
    TokenizeTokens(path, pre + [x], cut, verb);
  }

  lemma CutDiffers(init: seq<Segment>, x: string, idx: nat)
    requires idx < |x| && IsPChars(x)
    ensures var cut := if idx == 0 then Leading(init) else Leading(init) + [x[..idx]];
            cut != [] ==> cut[|cut| - 1] != x
  {
    LeadingEnd(init);
    PCharsExclude(x);
  }

  lemma NotLastToken(ts: seq<string>, cut: seq<string>, init: seq<Segment>, x: string)
    requires Readable(Init, ts) && Terminated(ts) && EndsOnce(ts)
    requires ts == cut + [EOF] && (cut != [] ==> cut[|cut| - 1] != x)
    ensures ParseTokens(ts) != Success(init + [Literal(x)])
  {
    if ParseTokens(ts) == Success(init + [Literal(x)]) {
      LastToken(ts, init + [Literal(x)]);
    }
  }

  lemma ColonCut(init: seq<Segment>, x: string, path: string)
    requires AllWellFormed(init) && IsPlain(Literal(x)) && ':' in x
    requires path == Join(PrintAll(init + [Literal(x)]), '/')
    ensures exists cut :: Tokenize(path).0 == cut + [EOF] && (cut != [] ==> cut[|cut| - 1] != x)
  {
    var idx := LastIndex(x, ':');
    WellFormedIsLexable(init);
    PlainIsText(Literal(x));
    ColonTokens(init, x, path);
    CutDiffers(init, x, idx);
  }

  /** A final literal with a colon and no verb loses its tail to the verb. */
  lemma ColonLostAt(init: seq<Segment>, x: string, path: string)
    requires AllWellFormed(init) && IsPlain(Literal(x)) && ':' in x
    requires NulFree(path) && path == Join(PrintAll(init + [Literal(x)]), '/')
    ensures Terminated(Tokenize(path).0)
    ensures ParseTokens(Tokenize(path).0) != Success(init + [Literal(x)])
  {
    var ts := Tokenize(path).0;
    TokenizeReadable(path);
    ReadableTerminated(Init, ts);
    ColonCut(init, x, path);
    var cut :| ts == cut + [EOF] && (cut != [] ==> cut[|cut| - 1] != x);
    NotLastToken(ts, cut, init, x);
  }

  lemma ColonLost(segs: seq<Segment>)
    requires segs != [] && AllWellFormed(segs) && !ColonSafe(segs, "")
    ensures !Reparses(segs, "")
  {
    var n := |segs| - 1;
    assert segs == segs[..n] + [Literal(segs[n].text)];
    assert IsWellFormedSegment(segs[n]);
    PrintNulFree(segs);
    PrintedPath(segs, "");
    ColonLostAt(segs[..n], segs[n].text, Print(segs, "")[1..]);
  }

  lemma CutsLiteral(pre: seq<string>, x: string)
    requires ':' in x
    ensures var idx := LastIndex(x, ':');
            && idx >= 0
            && CutVerb(pre + [x]) == (if idx == 0 then pre else pre + [x[..idx]], x[idx + 1..])
  {
    var ts := pre + [x];
    assert ts[|ts| - 1] == x && ts[..|ts| - 1] == pre;
  }

  // ----- the verb -----

  /** The tokenizer finds a verb: the last token has a colon. */
  predicate HasVerb(ts: seq<string>) {
    ts != [] && ':' in ts[|ts| - 1]
  }

  lemma ConcatLast(pre: seq<string>, t: string)
    ensures Concat(pre + [t]) == Concat(pre) + t
  {
    ConcatAppend(pre, [t]);
    assert Concat([t]) == t;
  }

  lemma ColonSplit(t: string) returns (a: string, verb: string)
    requires ':' in t
    ensures t == a + (":" + verb) && ':' !in verb
  {
    var idx := LastIndex(t, ':');
    a, verb := t[..idx], t[idx + 1..];
  }

  lemma CutConcatAt(pre: seq<string>, a: string, v: string)
    ensures Concat(pre + [a + v]) == Concat(if a == "" then pre else pre + [a]) + v
  {
    ConcatLast(pre, a + v);
    if a == "" {
      assert a + v == v;
    } else {
      ConcatLast(pre, a);
      Assoc(Concat(pre), a, v);
    }
  }

  /** Cutting the verb off loses nothing but the colon. */
  lemma CutConcat(pre: seq<string>, t: string)
    requires ':' in t
    ensures var (cut, verb) := CutVerb(pre + [t]); Concat(pre + [t]) == Concat(cut) + (":" + verb)
  {
    var a, verb := ColonSplit(t);
    Assoc(a, ":", verb);
    CutVerbOn(pre, a, verb);
    CutConcatAt(pre, a, ":" + verb);
  }

  /** What the tokenizer takes off the path for the verb. */
  function VerbPart(ts: seq<string>): string
    requires ts != []
  {
    if HasVerb(ts) then ":" + CutVerb(ts).1 else ""
  }

  lemma CutParts(ts: seq<string>)
    requires ts != []
    ensures Concat(ts) == Concat(CutVerb(ts).0) + VerbPart(ts)
    ensures !HasVerb(ts) ==> CutVerb(ts).1 == ""
  {
    var n := |ts| - 1;
    assert ts == ts[..n] + [ts[n]];
    if HasVerb(ts) {
      CutConcat(ts[..n], ts[n]);
    }
  }

  /** The tokens that are parsed and the verb make up the path. */
  lemma CutPath(path: string)
    requires path != ""
    ensures var ts := Tokens(Init, path);
            var (cut, verb) := CutVerb(ts);
            && Lexed(Init, cut) && path == Concat(cut) + VerbPart(ts)
            && ':' !in verb && (!HasVerb(ts) ==> verb == "")
            && forall i | 0 <= i < |verb| :: verb[i] !in Delimiters(Final(Init, cut))
  {
    TokensLexed(Init, path);
    CutLexed(Init, Tokens(Init, path));
    CutParts(Tokens(Init, path));
  }

  /** The tokens of well-formed segments leave the tokenizer in its initial state. */
  lemma TopFinal(segs: seq<Segment>)
    requires segs != [] && AllWellFormed(segs)
    ensures Lexed(Init, TopTokens(segs, [])) && Final(Init, TopTokens(segs, [])) == Init
    ensures Concat(TopTokens(segs, [])) == Join(PrintAll(segs), '/')
  {
    var ts := TopTokens(segs, []);
    WellFormedIsLexable(segs);
    LexedTop(segs, []);
    LexedReadable(Init, ts);
    TopTokensTail(segs, [EOF]);
    ParseTopTokens(segs, [EOF]);
    SegmentsSound(Init, ts + [EOF]);
    assert Final(Init, [EOF]) == Init;
  }

  /** A verb that comes back from printing and parsing has no delimiter in it. */
  lemma VerbSurvives(segs: seq<Segment>, verb: string)
    requires segs != [] && AllWellFormed(segs) && verb != "" && Reparses(segs, verb)
    ensures IsVerb(verb)
  {
    PrintedPath(segs, verb);
    CutSurvives(segs, verb, Print(segs, verb)[1..]);
  }

  lemma CutSurvives(segs: seq<Segment>, verb: string, path: string)
    requires segs != [] && AllWellFormed(segs) && verb != ""
    requires path == Join(PrintAll(segs), '/') + (":" + verb) && Tokenize(path).1 == verb
    ensures IsVerb(verb)
  {
    CutPath(path);
    var cut := CutVerb(Tokens(Init, path)).0;
    SameHead(Concat(cut), Join(PrintAll(segs), '/'), ":" + verb);
    SameTokens(segs, cut);
  }

  lemma SameTokens(segs: seq<Segment>, cut: seq<string>)
    requires segs != [] && AllWellFormed(segs) && Lexed(Init, cut) && Concat(cut) == Join(PrintAll(segs), '/')
    ensures Final(Init, cut) == Init
  {
    TopFinal(segs);
    TokensConcat(Init, cut);
    TokensConcat(Init, TopTokens(segs, []));
  }

  lemma SameHead(a: string, b: string, v: string)
    requires a + v == b + v
    ensures a == b
  {
    assert |a| == |b|;
    assert a == (a + v)[..|a|] && b == (b + v)[..|b|];
  }

  /** Over all segments and verbs: printing and parsing gives them back exactly when they are well formed. */
  lemma ParsePrintExact(segs: seq<Segment>, verb: string)
    ensures Reparses(segs, verb) <==> WellFormed(segs, verb)
  {
    if WellFormed(segs, verb) {
      ParsePrint(segs, verb);
    }
    if Reparses(segs, verb) {
      ParseWellFormed(Print(segs, verb));
      if verb != "" {
        VerbSurvives(segs, verb);
      } else if !ColonSafe(segs, verb) {
        ColonLost(segs);
      }
    }
  }

  /** Over all texts that parse: the result survives printing exactly when it has a verb proper and is colon-safe. */
  lemma ReparseExact(tmpl: string)
    requires ParseTemplate(tmpl).Success?
    ensures var t := ParseTemplate(tmpl).value;
            Reparses(t.segments, t.verb) <==> IsVerb(t.verb) && ColonSafe(t.segments, t.verb)
  {
    ParseWellFormed(tmpl);
    ParsePrintExact(ParseTemplate(tmpl).value.segments, ParseTemplate(tmpl).value.verb);
  }

  /** The grammar has no empty segment, but `accept` takes a slash for a wildcard. */
  lemma SlashIsWildcard()
    ensures ParseTemplate("//") == Success(Template([Wildcard], "", "//"))
  {
    var ts := ["/"];
    assert Lexed(Init, ts) && Concat(ts) == "/";
    CutNoVerb(ts);
    TokenizeTokens("/", ts, ts, "");
    assert (ts + [EOF])[1..] == [EOF];
    assert ParseSegment(ts + [EOF]) == Ok(Wildcard, [EOF]);
    ParseOne(ts + [EOF], Wildcard, [EOF]);
    assert "//"[1..] == "/";
  }

  lemma TrailingColonTokens()
    ensures Tokenize("a:b:") == (["a:b"] + [EOF], "")
  {
    var ts := ["a:b:"];
    assert Lexed(Init, ts) && Concat(ts) == "a:b:";
    assert "a:b" + ":" + "" == "a:b:";
    assert [] + ["a:b:"] == ts;
    assert [] + ["a:b"] == ["a:b"];
    CutVerbOn([], "a:b", "");
    TokenizeTokens("a:b:", ts, ["a:b"], "");
  }

  lemma TrailingColonLiteral()
    ensures IsPlain(Literal("a:b"))
  {
    assert IsPChars("b");
    assert ":b"[1..] == "b" && IsPChars(":b");
    assert "a:b"[1..] == ":b" && IsPChars("a:b");
  }

  lemma TrailingColonParses()
    ensures ParseTemplate("/a:b:") == Success(Template([Literal("a:b")], "", "/a:b:"))
  {
    var lit := Literal("a:b");
    TrailingColonTokens();
    TrailingColonLiteral();
    ParsePlainToken(lit, [EOF]);
    ParseOne([PrintSegment(lit)] + [EOF], lit, [EOF]);
    assert "/a:b:"[1..] == "a:b:";
  }

  /** A template that does not survive printing: the trailing colon makes an empty verb. */
  lemma TrailingColon()
    ensures var r := ParseTemplate("/a:b:");
            && r == Success(Template([Literal("a:b")], "", "/a:b:"))
            && !Reparses(r.value.segments, r.value.verb)
  {
    TrailingColonParses();
    TrailingColonLiteral();
    assert "a:b"[1] == ':';
    ColonLost([Literal("a:b")]);
  }
}
