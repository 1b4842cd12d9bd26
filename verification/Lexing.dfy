/**
 * What the tokenizer computes, stated on its output: the tokens of a text are the one split of
 * the text in which delimiters stand alone and no two texts are adjacent.
 */
module Lexing {
  import opened Strings
  import opened Tokenizer

  predicate IsDelimiter(st: State, t: string) {
    |t| == 1 && t[0] in Delimiters(st)
  }

  predicate IsText(st: State, t: string) {
    t != "" && forall i | 0 <= i < |t| :: t[i] !in Delimiters(st)
  }

  function Step(st: State, t: string): State {
    if IsDelimiter(st, t) then Next(st, t[0]) else st
  }

  predicate Lexed(st: State, ts: seq<string>)
    decreases |ts|
  {
    ts == [] ||
    ((IsDelimiter(st, ts[0]) || (IsText(st, ts[0]) && (|ts| > 1 ==> IsDelimiter(st, ts[1]))))
     && Lexed(Step(st, ts[0]), ts[1..]))
  }

  /** The state in which the text after the tokens `ts` is read. */
  function Final(st: State, ts: seq<string>): State
    decreases |ts|
  {
    if ts == [] then st else Final(Step(st, ts[0]), ts[1..])
  }

  function Concat(ts: seq<string>): string {
    if ts == [] then "" else ts[0] + Concat(ts[1..])
  }

  lemma {:induction false} ConcatAppend(a: seq<string>, b: seq<string>)
    ensures Concat(a + b) == Concat(a) + Concat(b)
  {
    if a == [] {
      assert a + b == b;
    } else {
      assert (a + b)[1..] == a[1..] + b;
      ConcatAppend(a[1..], b);
    }
  }

  lemma IndexAnyAt(s: string, cs: set<char>, k: nat)
    requires k < |s| && s[k] in cs && forall i | 0 <= i < k :: s[i] !in cs
    ensures IndexAny(s, cs) == k
  {}

  /** One turn of the scanning loop, by the position of the first delimiter. */
  lemma TokensUnfold(st: State, path: string)
    requires path != ""
    ensures var idx := IndexAny(path, Delimiters(st));
            Tokens(st, path) ==
              if idx < 0 then [path]
              else if idx == 0 then [path[..1]] + Tokens(Next(st, path[0]), path[1..])
              else [path[..idx]] + [path[idx..idx + 1]] + Tokens(Next(st, path[idx]), path[idx + 1..])
  {
    var idx := IndexAny(path, Delimiters(st));
    if idx > 0 {
      assert [path[..idx]] + [path[idx..idx + 1]] == [path[..idx], path[idx..idx + 1]];
    }
  }

  lemma OneToken(st: State, path: string)
    requires path != "" && IndexAny(path, Delimiters(st)) < 0
    ensures Lexed(st, [path]) && Concat([path]) == path
  {
    LexedText(st, path, []);
    assert [path] + [] == [path] && path + "" == path;
  }

  lemma TextAndDelimiter(st: State, text: string, d: string, rest: seq<string>)
    requires IsText(st, text) && IsDelimiter(st, d) && Lexed(Next(st, d[0]), rest)
    ensures Lexed(st, [text] + [d] + rest) && Concat([text] + [d] + rest) == text + d + Concat(rest)
  {
    LexedDelimiter(st, d, rest);
    LexedText(st, text, [d] + rest);
    assert [text] + [d] + rest == [text] + ([d] + rest);
    Assoc(text, d, Concat(rest));
  }

  lemma FirstDelimiter(st: State, path: string, idx: nat)
    requires idx == IndexAny(path, Delimiters(st))
    ensures idx < |path| && IsDelimiter(st, path[idx..idx + 1]) && path[idx..idx + 1][0] == path[idx]
    ensures idx > 0 ==> IsText(st, path[..idx])
  {
    assert path[idx..idx + 1][0] == path[idx];
  }

  lemma SplitAround(s: string, i: nat)
    requires i < |s|
    ensures s == s[..i] + s[i..i + 1] + s[i + 1..]
  {
    assert s == s[..i] + s[i..];
    assert s[i..] == s[i..i + 1] + s[i + 1..];
    Assoc(s[..i], s[i..i + 1], s[i + 1..]);
  }

  /** The tokens of a text are a lexed list that concatenates to the text. */
  lemma {:induction false} TokensLexed(st: State, path: string)
    ensures Lexed(st, Tokens(st, path))
    ensures Concat(Tokens(st, path)) == path
    decreases |path|
  {
    if path != "" {
      var idx := IndexAny(path, Delimiters(st));
      TokensUnfold(st, path);
      if idx < 0 {
        OneToken(st, path);
      } else {
        FirstDelimiter(st, path, idx);
        SplitAround(path, idx);
        TokensLexed(Next(st, path[idx]), path[idx + 1..]);
        var rest := Tokens(Next(st, path[idx]), path[idx + 1..]);
        if idx == 0 {
          LexedDelimiter(st, path[..1], rest);
        } else {
          TextAndDelimiter(st, path[..idx], path[idx..idx + 1], rest);
        }
      }
    }
  }

  lemma LexedDelimiter(st: State, d: string, rest: seq<string>)
    requires IsDelimiter(st, d) && Lexed(Next(st, d[0]), rest)
    ensures Lexed(st, [d] + rest)
    ensures Concat([d] + rest) == d + Concat(rest)
  {
    assert ([d] + rest)[1..] == rest;
  }

  lemma LexedText(st: State, t: string, rest: seq<string>)
    requires IsText(st, t) && (rest != [] ==> IsDelimiter(st, rest[0])) && Lexed(st, rest)
    ensures Lexed(st, [t] + rest)
    ensures Concat([t] + rest) == t + Concat(rest)
  {
    assert ([t] + rest)[1..] == rest;
  }

  lemma TokensDelimiter(st: State, d: string, path: string)
    requires IsDelimiter(st, d)
    ensures Tokens(st, d + path) == [d] + Tokens(Next(st, d[0]), path)
  {
    IndexAnyAt(d + path, Delimiters(st), 0);
    assert (d + path)[..1] == d && (d + path)[1..] == path;
    TokensUnfold(st, d + path);
  }

  lemma TokensAt(st: State, s: string, k: nat)
    requires 0 < k < |s| && s[k] in Delimiters(st) && forall i | 0 <= i < k :: s[i] !in Delimiters(st)
    ensures Tokens(st, s) == [s[..k]] + [s[k..k + 1]] + Tokens(Next(st, s[k]), s[k + 1..])
  {
    IndexAnyAt(s, Delimiters(st), k);
    TokensUnfold(st, s);
  }

  lemma TokensText(st: State, t: string, d: string, path: string)
    requires IsText(st, t) && IsDelimiter(st, d)
    ensures Tokens(st, t + d + path) == [t] + [d] + Tokens(Next(st, d[0]), path)
  {
    var s, k := t + d + path, |t|;
    assert s[k] == d[0] && forall i | 0 <= i < k :: s[i] == t[i];
    TokensAt(st, s, k);
    assert s[..k] == t;
    assert s[k..k + 1] == d;
    assert s[k + 1..] == path;
  }

  lemma ThreeParts(ts: seq<string>)
    requires |ts| > 1
    ensures Concat(ts) == ts[0] + ts[1] + Concat(ts[2..])
    ensures ts == [ts[0]] + [ts[1]] + ts[2..]
  {
    assert ts[1..][1..] == ts[2..];
    Assoc(ts[0], ts[1], Concat(ts[2..]));
    assert Concat(ts[1..]) == ts[1] + Concat(ts[2..]);
  }

  /** There is no other lexed list: tokenizing a concatenation gives the list back. */
  lemma {:induction false} TokensConcat(st: State, ts: seq<string>)
    requires Lexed(st, ts)
    ensures Tokens(st, Concat(ts)) == ts
    decreases |ts|
  {
    if ts != [] {
      var t, rest := ts[0], ts[1..];
      if IsDelimiter(st, t) {
        TokensConcat(Next(st, t[0]), rest);
        TokensDelimiter(st, t, Concat(rest));
      } else if |ts| == 1 {
        assert Concat(ts) == t;
        TokensUnfold(st, t);
      } else {
        var d, rest' := ts[1], ts[2..];
        assert rest[0] == d && rest[1..] == rest';
        TokensConcat(Next(st, d[0]), rest');
        TokensText(st, t, d, Concat(rest'));
        ThreeParts(ts);
      }
    }
  }
}
