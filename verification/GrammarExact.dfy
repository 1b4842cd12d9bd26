/** Which of the texts that parse belong to the grammar: the exact conditions, for the result and for the text. */
module GrammarExact {
  import opened Wrappers
  import opened Strings
  import opened Templates
  import opened Tokenizer
  import opened Lexing
  import opened Parser
  import opened RoundTrip
  import opened ParseSound
  import opened Grammar

  // ----- the parser follows the grammar where slashes separate -----

  /** The text ends in the equals sign of the variable that opens at `i`. */
  predicate OpensAt(before: string, i: int) {
    EqualsAt(before, i, |before| - 1)
  }

  /** A segment is due after `before`. */
  ghost predicate Due(before: string) {
    || before == ""
    || before[|before| - 1] == '/'
    || exists i :: OpensAt(before, i)
  }

  lemma NotSlash(before: string, x: string)
    requires Due(before) && SlashesSeparate(before + x) && x != ""
    ensures x[0] != '/'
  {
    var all, n := before + x, |before|;
    assert all[n] == x[0];
    assert n > 0 ==> all[n - 1] == before[n - 1];
    if n > 0 && before[n - 1] != '/' {
      var i :| OpensAt(before, i);
      assert EqualsAt(all, i, n - 1);
    }
  }

  lemma {:induction false} IdentsText(ts: seq<string>)
    requires Readable(Field, ts) && Terminated(ts) && ParseIdents(ts).Ok?
    ensures var r := ParseIdents(ts); Concat(ts) == Join(r.value, '.') + Concat(r.rest)
    decreases |ts|
  {
    IdentsSound(ts);
    if Matches(Sym("."), ts[1]) {
      assert ts[1] == ".";
      assert ts[1..][1..] == ts[2..];
      IdentsSound(ts[2..]);
      IdentsText(ts[2..]);
      var more := ParseIdents(ts[2..]);
      assert ([ts[0]] + more.value)[1..] == more.value;
      Assoc(ts[0], ".", Join(more.value, '.') + Concat(more.rest));
      Assoc(ts[0] + ".", Join(more.value, '.'), Concat(more.rest));
    }
  }

  /** The state in which the segments of a template or of a variable are read. */
  predicate Reads(st: State, ts: seq<string>) {
    (st == Init || st == Nested) && Readable(st, ts) && Terminated(ts)
  }

  lemma SegmentDerives(st: State, before: string, ts: seq<string>) returns (x: string)
    requires Reads(st, ts) && Due(before) && SlashesSeparate(before + Concat(ts)) && ParseSegment(ts).Ok?
    ensures var r := ParseSegment(ts); SegmentText(r.value, x) && Concat(ts) == x + Concat(r.rest)
    decreases |ts|, 1
  {
    var t := ts[0];
    assert t != "" && Concat(ts)[0] == t[0] by {
      FirstChar(st, ts);
    }
    NotSlash(before, Concat(ts));
    if t == "*" || t == "**" || IsPChars(t) {
      x := t;
    } else {
      if st == Nested {
        NestedBrace(ts);
      }
      x := VariableDerives(before, ts);
    }
  }

  lemma FirstChar(st: State, ts: seq<string>)
    requires Readable(st, ts)
    ensures ts[0] != "" && Concat(ts) != "" && Concat(ts)[0] == ts[0][0]
  {}

  lemma VariableDerives(before: string, ts: seq<string>) returns (x: string)
    requires Reads(Init, ts) && Due(before) && SlashesSeparate(before + Concat(ts))
    requires ts[0] == "{" && ParseVariable(ts).Ok?
    ensures var r := ParseVariable(ts); SegmentText(r.value, x) && Concat(ts) == x + Concat(r.rest)
    decreases |ts|, 0
  {
    DelimiterKeeps(Init, ts);
    IdentsSound(ts[1..]);
    IdentsText(ts[1..]);
    var Ok(idents, rest) := ParseIdents(ts[1..]);
    var path := Join(idents, '.');
    IdentPath(idents);
    if rest[0] == "=" {
      OpensVariable(before, path, Concat(rest));
      var body := BodyDerives(before + ("{" + path), rest);
      x := Long(path, body);
      LongThen(path, body, Concat(ParseVariable(ts).rest));
    } else {
      x := Short(path);
      ShortThen(path, Concat(rest[1..]));
    }
  }

  lemma OpensVariable(before: string, path: string, x: string)
    requires IsFieldPath(path)
    ensures Due(before + ("{" + path) + "=")
    ensures before + ("{" + (path + x)) == before + ("{" + path) + x
  {
    FieldPathText(path);
    var all, n := before + ("{" + path) + "=", |before|;
    assert forall k | n < k < |all| - 1 :: all[k] == path[k - n - 1];
    assert OpensAt(all, n);
  }

  lemma LongThen(path: string, body: string, x: string)
    ensures "{" + (path + ("=" + (body + ("}" + x)))) == Long(path, body) + x
  {
    Assoc(body, "}", x);
    Assoc("=", body + "}", x);
    Assoc(path, "=" + (body + "}"), x);
    Assoc("{", path + ("=" + (body + "}")), x);
  }

  lemma ShortThen(path: string, x: string)
    ensures "{" + (path + ("}" + x)) == Short(path) + x
  {
    Assoc(path, "}", x);
    Assoc("{", path + "}", x);
  }

  /** The part of a variable from its equals sign on. */
  lemma BodyDerives(before: string, ts: seq<string>) returns (body: string)
    requires Readable(Field, ts) && Terminated(ts) && |ts| > 1 && ts[0] == "="
    requires Due(before + "=") && SlashesSeparate(before + Concat(ts))
    requires ParseSegments(ts[1..]).Ok? && Matches(Sym("}"), ParseSegments(ts[1..]).rest[0])
    ensures var r := ParseSegments(ts[1..]);
            SegmentsText(r.value, body) && Concat(ts) == "=" + (body + ("}" + Concat(r.rest[1..])))
    decreases |ts|, 0
  {
    DelimiterKeeps(Field, ts);
    Assoc(before, "=", Concat(ts[1..]));
    body := SegmentsDerive(Nested, before + "=", ts[1..]);
  }

  lemma SegmentsDerive(st: State, before: string, ts: seq<string>) returns (x: string)
    requires Reads(st, ts) && Due(before) && SlashesSeparate(before + Concat(ts)) && ParseSegments(ts).Ok?
    ensures var r := ParseSegments(ts); SegmentsText(r.value, x) && Concat(ts) == x + Concat(r.rest)
    decreases |ts|, 2
  {
    var r := ParseSegments(ts);
    SegmentSound(st, ts);
    var Ok(s, rest) := ParseSegment(ts);
    x := SegmentDerives(st, before, ts);
    assert r == Continue([s], rest);
    if rest[0] == "/" {
      var next := ParseSegments(rest[1..]);
      KeepsSlash(st, ts, rest, next.rest);
      AfterSlash(before, x, Concat(rest[1..]));
      var y := SegmentsDerive(st, before + (x + "/"), rest[1..]);
      MoreText(s, x, next.value, y);
      SlashThen(x, y, Concat(next.rest));
      x := x + ("/" + y);
    }
  }

  lemma AfterSlash(before: string, x: string, y: string)
    ensures Due(before + (x + "/"))
    ensures before + (x + ("/" + y)) == before + (x + "/") + y
  {
    Assoc(x, "/", y);
    Assoc(before, x + "/", y);
  }

  lemma SlashThen(x: string, y: string, z: string)
    ensures x + ("/" + (y + z)) == x + ("/" + y) + z
  {
    Assoc("/", y, z);
    Assoc(x, "/" + y, z);
  }

  // ----- the parsed part of a text -----

  /** The tokens of the path. */
  function PathTokens(tmpl: string): seq<string>
    requires tmpl != ""
  {
    Tokens(Init, tmpl[1..])
  }

  /** The part of the path that is parsed. */
  function ParsedPart(tmpl: string): string
    requires |tmpl| > 1
  {
    TokensNonEmpty(Init, tmpl[1..]);
    Concat(CutVerb(PathTokens(tmpl)).0)
  }

  lemma EofNotPChars()
    ensures !IsPChars(EOF)
  {
    if IsPChars(EOF) {
      PCharsExclude(EOF);
    }
  }

  lemma ParsedNonEmpty(tmpl: string)
    requires ParseTemplate(tmpl).Success?
    ensures |tmpl| > 1 && tmpl[0] == '/'
  {
    EofNotPChars();
    assert ParseTokens([EOF]).Failure?;
  }

  lemma PartsOf(tmpl: string)
    requires |tmpl| > 1
    ensures tmpl[1..] == ParsedPart(tmpl) + VerbPart(PathTokens(tmpl))
    ensures Concat(Tokenize(tmpl[1..]).0) == ParsedPart(tmpl) + EOF
  {
    var path := tmpl[1..];
    CutPath(path);
    ConcatLast(CutVerb(Tokens(Init, path)).0, EOF);
  }

  lemma TokensDerive(tokens: seq<string>, body: string)
    requires Readable(Init, tokens) && EndsOnce(tokens) && Terminated(tokens) && ParseTokens(tokens).Success?
    requires Concat(tokens) == body + EOF && SlashesSeparate(body + EOF)
    ensures SegmentsText(ParseTokens(tokens).value, body)
  {
    AllTaken(tokens);
    assert "" + Concat(tokens) == Concat(tokens);
    var x := SegmentsDerive(Init, "", tokens);
    assert Concat([EOF]) == EOF;
    SameHead(body, x, EOF);
  }

  /** Where slashes separate, the parsed part is derived from the segments. */
  lemma ParsedDerives(tmpl: string)
    requires ParseTemplate(tmpl).Success? && NulFree(tmpl) && |tmpl| > 1 && SlashesSeparate(tmpl[1..])
    ensures SegmentsText(ParseTemplate(tmpl).value.segments, ParsedPart(tmpl))
  {
    var tokens := Tokenize(tmpl[1..]).0;
    TokenizeReadable(tmpl[1..]);
    ReadableTerminated(Init, tokens);
    PartsOf(tmpl);
    SeparatePrefix(ParsedPart(tmpl), VerbPart(PathTokens(tmpl)));
    TokensDerive(tokens, ParsedPart(tmpl));
  }

  lemma SeparatePrefix(a: string, b: string)
    requires SlashesSeparate(a + b)
    ensures SlashesSeparate(a + EOF)
  {
    var x, y := a + b, a + EOF;
    assert forall i | 0 <= i < |a| :: x[i] == y[i] == a[i];
    assert y[|a|] == '\0';
    forall i, j | EqualsAt(y, i, j) && j + 1 < |y| ensures y[j + 1] != '/' {
      if j + 1 < |a| {
        assert forall k | i < k < j :: x[k] == y[k];
        assert EqualsAt(x, i, j);
      }
    }
  }

  // ----- the exact conditions -----

  /** The text consists of a body and, after a colon, a verb. */
  ghost predicate Consists(tmpl: string, body: string, has: bool, verb: string) {
    tmpl == "/" + (body + if has then ":" + verb else "") && (!has ==> verb == "")
  }

  lemma ParsedConsists(tmpl: string)
    requires ParseTemplate(tmpl).Success?
    ensures |tmpl| > 1
    ensures Consists(tmpl, ParsedPart(tmpl), HasVerb(PathTokens(tmpl)), ParseTemplate(tmpl).value.verb)
  {
    ParsedNonEmpty(tmpl);
    PartsOf(tmpl);
    CutPath(tmpl[1..]);
    assert tmpl == "/" + tmpl[1..];
  }

  lemma BodyThenVerb(segs: seq<Segment>, verb: string, has: bool, body: string, tmpl: string)
    requires Consists(tmpl, body, has, verb) && SegmentsText(segs, body) && IsPChars(verb) && (has ==> verb != "")
    ensures TemplateText(segs, verb, tmpl)
  {}

  /** No text of some segments is another text of them and a colon. */
  lemma EmptyVerb(segs: seq<Segment>, body: string, tmpl: string)
    requires SegmentsText(segs, body) && tmpl == "/" + (body + ":")
    ensures !TemplateText(segs, "", tmpl)
  {
    if TemplateText(segs, "", tmpl) {
      var x :| SegmentsText(segs, x) && tmpl == "/" + (x + "");
      assert |x| == |body| + 1;
      var k := SegmentsParity(segs, x, body);
    }
  }

  lemma ResultExactOn(segs: seq<Segment>, verb: string, has: bool, body: string, tmpl: string)
    requires Consists(tmpl, body, has, verb)
    requires NulFree(tmpl) && SlashesSeparate(tmpl[1..]) ==> SegmentsText(segs, body)
    ensures TemplateText(segs, verb, tmpl) <==>
              NulFree(tmpl) && SlashesSeparate(tmpl[1..]) && (has ==> verb != "" && IsPChars(verb))
  {
    if TemplateText(segs, verb, tmpl) {
      DerivedSeparates(segs, verb, tmpl);
      if has && verb == "" {
        assert ":" + "" == ":";
        EmptyVerb(segs, body, tmpl);
      }
    } else if NulFree(tmpl) && SlashesSeparate(tmpl[1..]) && (has ==> verb != "" && IsPChars(verb)) {
      assert IsPChars("");
      BodyThenVerb(segs, verb, has, body, tmpl);
    }
  }

  /** The result of a parse is a derivation of its text exactly when the slashes separate and the verb is a literal. */
  lemma ResultExact(tmpl: string)
    requires ParseTemplate(tmpl).Success?
    ensures |tmpl| > 1
    ensures var t := ParseTemplate(tmpl).value;
            TemplateText(t.segments, t.verb, tmpl) <==>
              && NulFree(tmpl) && SlashesSeparate(tmpl[1..])
              && (HasVerb(PathTokens(tmpl)) ==> t.verb != "" && IsPChars(t.verb))
  {
    ParsedConsists(tmpl);
    if NulFree(tmpl) && SlashesSeparate(tmpl[1..]) {
      ParsedDerives(tmpl);
    }
    var t := ParseTemplate(tmpl).value;
    ResultExactOn(t.segments, t.verb, HasVerb(PathTokens(tmpl)), ParsedPart(tmpl), tmpl);
  }

  /** A text that ends in a variable and a colon. */
  predicate EndsInBraceColon(tmpl: string) {
    |tmpl| >= 2 && tmpl[|tmpl| - 2] == '}' && tmpl[|tmpl| - 1] == ':'
  }

  lemma DerivesOn(segs: seq<Segment>, verb: string, has: bool, body: string, tmpl: string)
    requires Consists(tmpl, body, has, verb) && SegmentsText(segs, body)
    requires IsPChars(verb) && !EndsInBraceColon(tmpl)
    ensures Derives(tmpl)
  {
    if has && verb == "" {
      SegmentsNeat(segs, body);
      assert tmpl[|tmpl| - 2] == body[|body| - 1];
      var segs' := ThenColon(segs, body);
      assert Consists(tmpl, body + ":", false, "") by {
        assert ":" + "" == ":" && (body + ":") + "" == body + ":";
      }
      BodyThenVerb(segs', "", false, body + ":", tmpl);
    } else {
      BodyThenVerb(segs, verb, has, body, tmpl);
    }
  }

  lemma VerbInVerb(body: string, verb: string, x: string, verb': string)
    requires body + (":" + verb) == x + (":" + verb') && ':' !in verb && IsPChars(verb')
    ensures IsPChars(verb)
  {
    var path, c, d := body + (":" + verb), |body|, |x|;
    assert path[c] == ':' && path[d] == ':';
    assert forall i | c < i < |path| :: path[i] == verb[i - c - 1] != ':';
    assert d <= c;
    VerbTail(body, verb, c);
    VerbTail(x, verb', c);
    if d < c {
      assert verb'[c - d - 1] == path[c];
      PCharsAfter(verb', c - d - 1);
    }
  }

  lemma VerbTail(x: string, verb': string, c: nat)
    requires |x| <= c < |x| + 1 + |verb'|
    ensures (x + (":" + verb'))[c + 1..] == verb'[c - |x|..]
  {}

  /** The verb of a derived text, read off behind its last colon, is made of pchars. */
  lemma VerbDerived(segs: seq<Segment>, verb': string, body: string, verb: string, tmpl: string)
    requires TemplateText(segs, verb', tmpl) && tmpl == "/" + (body + (":" + verb)) && Bare(verb) && ':' !in verb
    ensures IsPChars(verb)
  {
    var v := if verb' == "" then "" else ":" + verb';
    var x :| SegmentsText(segs, x) && tmpl == "/" + (x + v);
    assert tmpl[1..] == body + (":" + verb) == x + v;
    if verb' == "" {
      VerbInLiteral(segs, x, body, verb);
    } else {
      VerbInVerb(body, verb, x, verb');
    }
  }

  lemma VerbInLiteral(segs: seq<Segment>, x: string, body: string, verb: string)
    requires SegmentsText(segs, x) && x == body + (":" + verb) && Bare(verb)
    ensures IsPChars(verb)
  {
    var c := |body|;
    assert x[c] == ':' && forall i | c < i < |x| :: x[i] == verb[i - c - 1];
    assert x[c + 1..] == verb;
    AfterColon(segs, x, c, verb);
  }

  /** A derived text does not end in a brace and a colon. */
  lemma NoBraceColon(segs: seq<Segment>, verb': string, tmpl: string)
    requires TemplateText(segs, verb', tmpl)
    ensures !EndsInBraceColon(tmpl)
  {
    var v := if verb' == "" then "" else ":" + verb';
    var x :| SegmentsText(segs, x) && tmpl == "/" + (x + v);
    SegmentsNeat(segs, x);
    if verb' == "" {
      assert tmpl == "/" + x;
      if x[|x| - 1] == ':' {
        BeforeColon(segs, x);
      }
    } else {
      PCharsExclude(verb');
      assert tmpl[|tmpl| - 2] == v[|v| - 2] != '}';
    }
  }

  lemma BalancedVerb(body: string, verb: string, x: string, v: string)
    requires Balanced(body) && Balanced(x) && Bare(v) && body + (":" + verb) == x + v && '{' !in verb
    ensures '}' !in verb
  {
    var w := ":" + verb;
    assert '{' !in v && '}' !in v && '{' !in w;
    assert multiset(v)['{'] == multiset(v)['}'] == multiset(w)['{'] == 0;
    assert multiset(body + w)['{'] == multiset(body)['{'] + multiset(w)['{'];
    assert multiset(body + w)['}'] == multiset(body)['}'] + multiset(w)['}'];
    assert multiset(x + v)['{'] == multiset(x)['{'] + multiset(v)['{'];
    assert multiset(x + v)['}'] == multiset(x)['}'] + multiset(v)['}'];
    assert multiset(w)['}'] == 0;
    assert '}' !in w && w[1..] == verb;
  }

  lemma DerivedOn(
    segs': seq<Segment>, verb': string, segs: seq<Segment>, verb: string, has: bool, body: string, tmpl: string)
    requires Consists(tmpl, body, has, verb) && SegmentsText(segs, body)
    requires TemplateText(segs', verb', tmpl) && IsVerb(verb) && NulFree(tmpl)
    ensures IsPChars(verb)
  {
    if has {
      var x, v := BalancedParts(segs', verb', tmpl);
      assert tmpl[1..] == body + (":" + verb) == x + v;
      SegmentsNeat(segs, body);
      BalancedVerb(body, verb, x, v);
      BareVerb(body, verb, tmpl);
      VerbDerived(segs', verb', body, verb, tmpl);
    } else {
      assert IsPChars("");
    }
  }

  lemma BareVerb(body: string, verb: string, tmpl: string)
    requires tmpl == "/" + (body + (":" + verb)) && NulFree(tmpl) && IsVerb(verb) && '}' !in verb
    ensures Bare(verb)
  {
    assert forall i | 0 <= i < |verb| :: verb[i] == tmpl[|body| + 2 + i];
  }

  lemma BalancedParts(segs: seq<Segment>, verb: string, tmpl: string) returns (x: string, v: string)
    requires TemplateText(segs, verb, tmpl)
    ensures tmpl == "/" + (x + v) && Balanced(x) && Bare(v)
  {
    v := if verb == "" then "" else ":" + verb;
    x :| SegmentsText(segs, x) && tmpl == "/" + (x + v);
    SegmentsNeat(segs, x);
    PCharsExclude(verb);
  }

  /**
   * A text that parses belongs to the grammar exactly when no slash stands in the place of a segment, the verb is
   * made of pchars, and the text does not end in a variable and a colon; a NUL excludes it.
   */
  lemma TextExact(tmpl: string)
    requires ParseTemplate(tmpl).Success?
    ensures |tmpl| > 1
    ensures Derives(tmpl) <==>
              && NulFree(tmpl) && SlashesSeparate(tmpl[1..])
              && IsPChars(ParseTemplate(tmpl).value.verb) && !EndsInBraceColon(tmpl)
  {
    ParsedConsists(tmpl);
    ParseWellFormed(tmpl);
    var t, has := ParseTemplate(tmpl).value, HasVerb(PathTokens(tmpl));
    if Derives(tmpl) {
      var segs', verb' :| TemplateText(segs', verb', tmpl);
      DerivedSeparates(segs', verb', tmpl);
      ParsedDerives(tmpl);
      DerivedOn(segs', verb', t.segments, t.verb, has, ParsedPart(tmpl), tmpl);
      NoBraceColon(segs', verb', tmpl);
    } else if NulFree(tmpl) && SlashesSeparate(tmpl[1..]) && IsPChars(t.verb) && !EndsInBraceColon(tmpl) {
      ParsedDerives(tmpl);
      DerivesOn(t.segments, t.verb, has, ParsedPart(tmpl), tmpl);
    }
  }

  // ----- texts outside the grammar that parse -----

  /** Two slashes parse, the second as a wildcard. */
  lemma SlashOutside()
    ensures ParseTemplate("//").Success? && !Derives("//")
  {
    SlashIsWildcard();
    TextExact("//");
    assert "//"[1..][0] == '/';
  }

  lemma BraceVerbTokens()
    ensures Tokenize("a:}") == (["a"] + [EOF], "}")
  {
    var ts := ["a:}"];
    assert Lexed(Init, ts) && Concat(ts) == "a:}";
    assert "a" + ":" + "}" == "a:}" && [] + ["a:}"] == ts && [] + ["a"] == ["a"];
    CutVerbOn([], "a", "}");
    TokenizeTokens("a:}", ts, ["a"], "}");
  }

  lemma BraceVerbParses()
    ensures ParseTemplate("/a:}") == Success(Template([Literal("a")], "}", "/a:}"))
  {
    var lit := Literal("a");
    BraceVerbTokens();
    assert IsPlain(lit) by {
      assert "a"[1..] == "" && IsPChars("");
    }
    ParsePlainToken(lit, [EOF]);
    ParseOne([PrintSegment(lit)] + [EOF], lit, [EOF]);
    assert "/a:}"[1..] == "a:}";
  }

  lemma BadVerbOutside(tmpl: string, verb: string)
    requires ParseTemplate(tmpl).Success? && ParseTemplate(tmpl).value.verb == verb && !IsPChars(verb)
    ensures !Derives(tmpl)
  {
    TextExact(tmpl);
  }

  lemma BraceNotPChars()
    ensures !IsPChars("}")
  {
    if IsPChars("}") {
      PCharsExclude("}");
    }
  }

  /** A brace parses as a verb. */
  lemma BraceVerbOutside()
    ensures ParseTemplate("/a:}") == Success(Template([Literal("a")], "}", "/a:}")) && !Derives("/a:}")
  {
    BraceVerbParses();
    BraceNotPChars();
    BadVerbOutside("/a:}", "}");
  }
}
