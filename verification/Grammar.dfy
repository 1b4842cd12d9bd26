/**
 * The grammar of path templates as a relation between segments and texts, and which of the texts that parse
 * belong to it.
 */
module Grammar {
  import opened Wrappers
  import opened Strings
  import opened Templates
  import opened Tokenizer
  import opened Lexing
  import opened Parser
  import opened RoundTrip
  import opened ParseSound

  // ----- the grammar -----

  /** A variable without segments. */
  function Short(path: string): string {
    "{" + (path + "}")
  }

  function Long(path: string, body: string): string {
    "{" + (path + ("=" + (body + "}")))
  }

  /** Segment = "*" | "**" | LITERAL | "{" FieldPath [ "=" Segments ] "}" */
  ghost predicate SegmentText(s: Segment, x: string)
    decreases s, 1
  {
    match s
    case Wildcard => x == "*"
    case DeepWildcard => x == "**"
    case Literal(text) => x == text && x != "" && IsPChars(x)
    case Variable(path, segs) =>
      && IsFieldPath(path)
      && ((x == Short(path) && segs == [Wildcard]) || exists body :: x == Long(path, body) && SegmentsText(segs, body))
  }

  /** Segments = Segment { "/" Segment } */
  ghost predicate SegmentsText(segs: seq<Segment>, x: string)
    decreases segs, 0
  {
    && segs != []
    && if |segs| == 1 then SegmentText(segs[0], x)
       else exists a, b :: x == a + ("/" + b) && SegmentText(segs[0], a) && SegmentsText(segs[1..], b)
  }

  /** Template = "/" Segments [ ":" LITERAL ] */
  ghost predicate TemplateText(segs: seq<Segment>, verb: string, tmpl: string) {
    && IsPChars(verb)
    && exists body :: SegmentsText(segs, body) && tmpl == "/" + (body + if verb == "" then "" else ":" + verb)
  }

  ghost predicate Derives(tmpl: string) {
    exists segs, verb :: TemplateText(segs, verb, tmpl)
  }

  // ----- no slash stands in the place of a segment -----

  /** The equals sign at `j` ends the field path of the variable that opens at `i`. */
  predicate EqualsAt(x: string, i: int, j: int) {
    0 <= i < j < |x| && x[i] == '{' && x[j] == '=' && forall k | i < k < j :: x[k] != '=' && x[k] != '}'
  }

  predicate NoSlashRun(x: string) {
    forall i | 0 <= i < |x| - 1 && x[i] == '/' :: x[i + 1] != '/'
  }

  /** No slash comes first, after a slash, or after the equals sign of a variable. */
  ghost predicate SlashesSeparate(x: string) {
    && (x != "" ==> x[0] != '/')
    && NoSlashRun(x)
    && (forall i, j | EqualsAt(x, i, j) && j + 1 < |x| :: x[j + 1] != '/')
  }

  // ----- what derived texts look like -----

  /** The first equals sign or closing brace after `i`, not followed by a slash if it is an equals sign. */
  predicate Closes(x: string, i: int, j: int) {
    && 0 <= i < j < |x| && (x[j] == '=' || x[j] == '}')
    && (forall k | i < k < j :: x[k] != '=' && x[k] != '}')
    && (x[j] == '=' ==> j + 1 < |x| && x[j + 1] != '/')
  }

  ghost predicate BracesClose(x: string) {
    forall i | 0 <= i < |x| && x[i] == '{' :: exists j :: Closes(x, i, j)
  }

  predicate Balanced(x: string) {
    multiset(x)['{'] == multiset(x)['}']
  }

  ghost predicate Neat(x: string) {
    && x != "" && x[0] != '/' && x[|x| - 1] != '/'
    && NoSlashRun(x) && BracesClose(x) && Balanced(x) && NulFree(x)
  }

  /** A text without braces, slashes and NUL. */
  predicate Bare(x: string) {
    forall i | 0 <= i < |x| :: x[i] !in {'/', '{', '}', '\0'}
  }

  lemma BareNeat(x: string)
    requires Bare(x) && x != ""
    ensures Neat(x)
  {
    assert '{' !in x && '}' !in x;
  }

  lemma CloseLeft(a: string, b: string)
    requires BracesClose(a) && BracesClose(b)
    ensures BracesClose(a + b)
  {
    var x := a + b;
    forall i | 0 <= i < |x| && x[i] == '{' ensures exists j :: Closes(x, i, j) {
      if i < |a| {
        var j :| Closes(a, i, j);
        assert Closes(x, i, j);
      } else {
        var j :| Closes(b, i - |a|, j);
        assert Closes(x, i, |a| + j);
      }
    }
  }

  /** Two neat texts with a slash between them. */
  lemma NeatSlash(a: string, b: string)
    requires Neat(a) && Neat(b)
    ensures Neat(a + ("/" + b))
  {
    CloseLeft("/", b);
    CloseLeft(a, "/" + b);
    var x := a + ("/" + b);
    assert x[|a|] == '/' && forall i | |a| < i < |x| :: x[i] == b[i - |a| - 1];
  }

  /** What a field path cannot hold. */
  predicate PathText(p: string) {
    Bare(p) && '=' !in p
  }

  lemma {:induction false} JoinPathText(idents: seq<string>)
    requires forall i | 0 <= i < |idents| :: IsIdent(idents[i])
    ensures PathText(Join(idents, '.'))
  {
    if idents != [] {
      JoinPathText(idents[1..]);
    }
  }

  lemma FieldPathText(path: string)
    requires IsFieldPath(path)
    ensures PathText(path)
  {
    SplitParts(path, '.');
    JoinPathText(Split(path, '.'));
  }

  lemma NeatShort(path: string)
    requires PathText(path)
    ensures Neat(Short(path))
  {
    var x := Short(path);
    assert forall i | 1 <= i < |x| - 1 :: x[i] == path[i - 1];
    assert Closes(x, 0, |x| - 1);
    assert '{' !in path && '}' !in path;
  }

  lemma NeatLong(path: string, body: string)
    requires PathText(path) && Neat(body)
    ensures Neat(Long(path, body))
  {
    var x := Long(path, body);
    assert x[0] == '{' && x[|x| - 1] == '}';
    assert Balanced(x) by {
      assert '{' !in path && '}' !in path;
    }
    LongCloses(path, body);
    LongNoSlashRun(path, body);
  }

  lemma LongNoSlashRun(path: string, body: string)
    requires PathText(path) && Neat(body)
    ensures NoSlashRun(Long(path, body))
  {
    var x, n := Long(path, body), |path| + 2;
    assert forall i | 1 <= i < n - 1 :: x[i] == path[i - 1];
    assert x[n - 1] == '=' && x[|x| - 1] == '}';
    assert forall i | n <= i < |x| - 1 :: x[i] == body[i - n];
  }

  lemma LongCloses(path: string, body: string)
    requires PathText(path) && Neat(body)
    ensures BracesClose(Long(path, body))
  {
    var head := "{" + (path + "=");
    var x := Long(path, body);
    assert x == head + (body + "}");
    forall i | 0 <= i < |x| && x[i] == '{' ensures exists j :: Closes(x, i, j) {
      if i == 0 {
        assert Closes(x, 0, |path| + 1);
      } else {
        assert i >= |head|;
        CloseLeft(body, "}");
        var j :| Closes(body + "}", i - |head|, j);
        assert Closes(x, i, |head| + j);
      }
    }
  }

  lemma SegmentNeat(s: Segment, x: string)
    requires SegmentText(s, x)
    ensures Neat(x)
    decreases s, 1
  {
    match s {
      case Wildcard => BareNeat(x);
      case DeepWildcard => BareNeat(x);
      case Literal(_) =>
        PCharsExclude(x);
        BareNeat(x);
      case Variable(path, segs) =>
        FieldPathText(path);
        if x == Short(path) {
          NeatShort(path);
        } else {
          var body :| x == Long(path, body) && SegmentsText(segs, body);
          SegmentsNeat(segs, body);
          NeatLong(path, body);
        }
    }
  }

  lemma SegmentsNeat(segs: seq<Segment>, x: string)
    requires SegmentsText(segs, x)
    ensures Neat(x)
    decreases segs, 0
  {
    if |segs| == 1 {
      SegmentNeat(segs[0], x);
    } else {
      var a, b :| x == a + ("/" + b) && SegmentText(segs[0], a) && SegmentsText(segs[1..], b);
      SegmentNeat(segs[0], a);
      SegmentsNeat(segs[1..], b);
      NeatSlash(a, b);
    }
  }

  /** A neat text, followed by a bare one, has no slash in the place of a segment. */
  lemma NeatSeparates(body: string, v: string)
    requires Neat(body) && Bare(v)
    ensures SlashesSeparate(body + v) && NulFree(body + v)
  {
    var x := body + v;
    forall i, j | EqualsAt(x, i, j) && j + 1 < |x| ensures x[j + 1] != '/' {
      assert i < |body| && body[i] == '{';
      var k :| Closes(body, i, k);
      assert j == k by {
        assert x[k] == body[k];
      }
    }
  }

  /** A derived text has no slash in the place of a segment. */
  lemma DerivedSeparates(segs: seq<Segment>, verb: string, tmpl: string)
    requires TemplateText(segs, verb, tmpl)
    ensures tmpl != "" && SlashesSeparate(tmpl[1..]) && NulFree(tmpl)
  {
    var v := if verb == "" then "" else ":" + verb;
    var body :| SegmentsText(segs, body) && tmpl == "/" + (body + v);
    SegmentsNeat(segs, body);
    PCharsExclude(verb);
    NeatSeparates(body, v);
    assert tmpl[1..] == body + v;
    assert forall i | 1 <= i < |tmpl| :: tmpl[i] == (body + v)[i - 1];
  }

  // ----- the length of a derived text -----

  lemma VariableTexts(s: Segment, x: string) returns (extra: bool, body: string)
    requires s.Variable? && SegmentText(s, x)
    ensures SegmentsText(s.segments, body) && |x| == |s.path| + |body| + if extra then 3 else 1
  {
    if x == Short(s.path) && s.segments == [Wildcard] {
      return false, "*";
    }
    body :| x == Long(s.path, body) && SegmentsText(s.segments, body);
    extra := true;
  }

  /** The lengths of two texts of the same segments differ by an even number: the texts differ in `=*` only. */
  lemma SegmentParity(s: Segment, x: string, y: string) returns (k: int)
    requires SegmentText(s, x) && SegmentText(s, y)
    ensures |x| - |y| == 2 * k
    decreases s, 1
  {
    k := 0;
    if s.Variable? {
      var long1, b := VariableTexts(s, x);
      var long2, c := VariableTexts(s, y);
      k := SegmentsParity(s.segments, b, c);
      k := k + (if long1 then 1 else 0) - (if long2 then 1 else 0);
    }
  }

  lemma SegmentsParity(segs: seq<Segment>, x: string, y: string) returns (k: int)
    requires SegmentsText(segs, x) && SegmentsText(segs, y)
    ensures |x| - |y| == 2 * k
    decreases segs, 0
  {
    if |segs| == 1 {
      k := SegmentParity(segs[0], x, y);
    } else {
      var a, b := FirstText(segs, x);
      var c, d := FirstText(segs, y);
      var k1 := SegmentParity(segs[0], a, c);
      var k2 := SegmentsParity(segs[1..], b, d);
      k := k1 + k2;
    }
  }

  lemma FirstText(segs: seq<Segment>, x: string) returns (a: string, b: string)
    requires SegmentsText(segs, x) && |segs| > 1
    ensures x == a + ("/" + b) && |x| == |a| + |b| + 1 && SegmentText(segs[0], a) && SegmentsText(segs[1..], b)
  {
    a, b :| x == a + ("/" + b) && SegmentText(segs[0], a) && SegmentsText(segs[1..], b);
  }

  // ----- the end of a derived text -----

  lemma DropTwice(t: string, a: nat, b: nat)
    requires a + b <= |t|
    ensures t[a..][b..] == t[a + b..]
  {}

  lemma {:induction false} PCharsAfter(t: string, c: nat)
    requires IsPChars(t) && c < |t| && t[c] == ':'
    ensures IsPChars(t[c + 1..])
  {
    if IsSimplePChar(t[0]) && IsPChars(t[1..]) {
      if c > 0 {
        PCharsAfter(t[1..], c - 1);
        DropTwice(t, 1, c);
      }
    } else {
      assert c >= 3;
      PCharsAfter(t[3..], c - 3);
      DropTwice(t, 3, c - 2);
    }
  }

  lemma ColonPChars()
    ensures IsPChars(":")
  {
    assert IsSimplePChar(':') && ":"[1..] == "" && IsPChars("");
  }

  lemma {:induction false} PCharsThenColon(t: string)
    requires IsPChars(t)
    ensures IsPChars(t + ":")
  {
    if t == "" {
      ColonPChars();
      assert t + ":" == ":";
    } else if IsSimplePChar(t[0]) && IsPChars(t[1..]) {
      PCharsThenColon(t[1..]);
      assert (t + ":")[1..] == t[1..] + ":";
    } else {
      PCharsThenColon(t[3..]);
      assert (t + ":")[3..] == t[3..] + ":";
    }
  }

  lemma MoreText(s: Segment, a: string, more: seq<Segment>, b: string)
    requires SegmentText(s, a) && SegmentsText(more, b)
    ensures SegmentsText([s] + more, a + ("/" + b))
  {
    var all := [s] + more;
    assert |all| > 1 && all[0] == s && all[1..] == more;
    assert SegmentText(all[0], a) && SegmentsText(all[1..], b);
  }

  /** The text of the last segment, behind a slash or nothing. */
  ghost predicate EndsIn(x: string, pre: string, l: string) {
    x == pre + l && (pre == "" || pre[|pre| - 1] == '/')
  }

  lemma EndsInMore(a: string, b: string, pre: string, l: string)
    requires EndsIn(b, pre, l)
    ensures EndsIn(a + ("/" + b), a + ("/" + pre), l)
  {}

  lemma {:induction false} LastText(segs: seq<Segment>, x: string) returns (pre: string, l: string)
    requires SegmentsText(segs, x)
    ensures EndsIn(x, pre, l) && SegmentText(segs[|segs| - 1], l)
    decreases |segs|
  {
    if |segs| == 1 {
      pre, l := "", x;
    } else {
      var a, b := FirstText(segs, x);
      var p;
      p, l := LastText(segs[1..], b);
      EndsInMore(a, b, p, l);
      pre := a + ("/" + p);
    }
  }

  lemma StarsPChars()
    ensures IsPChars("*") && IsPChars("**")
  {
    assert "*"[1..] == "" && IsPChars("");
    assert "**"[1..] == "*";
  }

  /** The text of a segment is pchars, or ends in a brace. */
  lemma TextKind(s: Segment, l: string)
    requires SegmentText(s, l)
    ensures l != "" && (IsPChars(l) || l[|l| - 1] == '}')
  {
    StarsPChars();
  }

  /** A colon with no slash and no closing brace behind it stands in the last segment, which does not end in a brace. */
  lemma ColonInLast(x: string, pre: string, l: string, c: nat)
    requires EndsIn(x, pre, l) && l != ""
    requires c < |x| && x[c] == ':' && forall i | c < i < |x| :: x[i] != '/' && x[i] != '}'
    ensures |pre| <= c && l[c - |pre|] == ':' && l[|l| - 1] != '}'
  {
    assert x[|x| - 1] == l[|l| - 1];
    assert pre != "" ==> x[|pre| - 1] == '/';
  }

  lemma DropPrefix(pre: string, l: string, k: nat)
    requires |pre| <= k <= |pre + l|
    ensures (pre + l)[k..] == l[k - |pre|..]
  {}

  lemma LastAfter(pre: string, l: string, c: nat, v: string)
    requires IsPChars(l) && |pre| <= c < |pre| + |l| && l[c - |pre|] == ':' && v == (pre + l)[c + 1..]
    ensures IsPChars(v)
  {
    DropPrefix(pre, l, c + 1);
    assert v == l[c - |pre| + 1..];
    PCharsAfter(l, c - |pre|);
  }

  /** What follows a colon, free of slashes and braces to the end, is the end of a literal. */
  lemma AfterColon(segs: seq<Segment>, x: string, c: nat, v: string)
    requires SegmentsText(segs, x)
    requires c < |x| && x[c] == ':' && forall i | c < i < |x| :: x[i] != '/' && x[i] != '}'
    requires v == x[c + 1..]
    ensures IsPChars(v)
  {
    var pre, l := LastText(segs, x);
    TextKind(segs[|segs| - 1], l);
    ColonInLast(x, pre, l, c);
    LastAfter(pre, l, c, v);
  }

  /** A derived text that ends in a colon ends in a literal, so that no brace stands before the colon. */
  lemma BeforeColon(segs: seq<Segment>, x: string)
    requires SegmentsText(segs, x) && x != "" && x[|x| - 1] == ':'
    ensures |x| > 1 ==> x[|x| - 2] != '}'
  {
    var pre, l := LastText(segs, x);
    TextKind(segs[|segs| - 1], l);
    assert x[|x| - 1] == l[|l| - 1];
    PCharsExclude(l);
    assert |l| > 1 ==> x[|x| - 2] == l[|l| - 2];
  }

  /** A derived text that does not end in a brace may go on with a colon: its last segment becomes a literal. */
  lemma {:induction false} ThenColon(segs: seq<Segment>, x: string) returns (segs': seq<Segment>)
    requires SegmentsText(segs, x) && x != "" && x[|x| - 1] != '}'
    ensures SegmentsText(segs', x + ":")
    decreases |segs|
  {
    if |segs| == 1 {
      TextKind(segs[0], x);
      PCharsThenColon(x);
      segs' := [Literal(x + ":")];
    } else {
      var a, b := FirstText(segs, x);
      SegmentsNeat(segs[1..], b);
      assert b[|b| - 1] == x[|x| - 1];
      var more := ThenColon(segs[1..], b);
      MoreText(segs[0], a, more, b + ":");
      segs' := [segs[0]] + more;
      AssocColon(a, b);
    }
  }

  lemma AssocColon(a: string, b: string)
    ensures a + ("/" + b) + ":" == a + ("/" + (b + ":"))
  {}
}
