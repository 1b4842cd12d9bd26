/** The three-state tokenizer of `parse.go`. */
module Tokenizer {
  import opened Strings

  /** The terminal symbol that ends every token list. */
  const EOF: string := "\0"

  datatype State = Init | Field | Nested

  function Delimiters(st: State): set<char> {
    match st
    case Init => {'/', '{'}
    case Field => {'.', '=', '}'}
    case Nested => {'/', '}'}
  }

  function Next(st: State, c: char): State {
    if c == '{' then Field else if c == '=' then Nested else if c == '}' then Init else st
  }

  /** The tokens of `path` read from state `st`, before the verb is cut off. */
  function Tokens(st: State, path: string): seq<string>
    decreases |path|
  {
    if path == "" then [] else
    var idx := IndexAny(path, Delimiters(st));
    if idx < 0 then [path]
    else
      (if idx == 0 then [path[idx..idx + 1]] else [path[..idx], path[idx..idx + 1]])
      + Tokens(Next(st, path[idx]), path[idx + 1..])
  }

  /** Cuts the verb off the last token. */
  function CutVerb(tokens: seq<string>): (seq<string>, string)
    requires tokens != []
  {
    var l := |tokens|;
    var t := tokens[l - 1];
    var idx := LastIndex(t, ':');
    if idx == 0 then (tokens[..l - 1], t[1..])
    else if idx > 0 then (tokens[..l - 1] + [t[..idx]], t[idx + 1..])
    else (tokens, "")
  }

  lemma TokensNonEmpty(st: State, path: string)
    requires path != ""
    ensures Tokens(st, path) != []
  {}

  function Tokenize(path: string): (seq<string>, string)
  {
    if path == "" then ([EOF], "") else
    TokensNonEmpty(Init, path);
    var (tokens, verb) := CutVerb(Tokens(Init, path));
    (tokens + [EOF], verb)
  }

  /** The scanning loop of `tokenize`. */
  method Scan(path: string) returns (tokens: seq<string>)
    ensures tokens == Tokens(Init, path)
  {
    var st := Init;
    var p := path;
    tokens := [];
    while p != ""
      invariant tokens + Tokens(st, p) == Tokens(Init, path)
      decreases |p|
    {
      var idx := IndexAny(p, Delimiters(st));
      if idx < 0 {
        return tokens + [p];
      }
      var r := p[idx];
      ghost var before, rest := tokens, Tokens(Next(st, r), p[idx + 1..]);
      if idx == 0 {
        tokens := tokens + [p[idx..idx + 1]];
        assert tokens + rest == before + ([p[idx..idx + 1]] + rest);
      } else {
        tokens := tokens + [p[..idx], p[idx..idx + 1]];
        assert tokens + rest == before + ([p[..idx], p[idx..idx + 1]] + rest);
      }
      if r == '{' {
        st := Field;
      } else if r == '=' {
        st := Nested;
      } else if r == '}' {
        st := Init;
      }
      p := p[idx + 1..];
    }
  }

  method TokenizePath(path: string) returns (tokens: seq<string>, verb: string)
    ensures (tokens, verb) == Tokenize(path)
  {
    if path == "" {
      return [EOF], "";
    }
    TokensNonEmpty(Init, path);
    tokens := Scan(path);
    verb := "";
    var l := |tokens|;
    var t := tokens[l - 1];
    var idx := LastIndex(t, ':');
    if idx == 0 {
      tokens, verb := tokens[..l - 1], t[1..];
    } else if idx > 0 {
      tokens, verb := tokens[l - 1 := t[..idx]], t[idx + 1..];
      assert tokens == Tokens(Init, path)[..l - 1] + [t[..idx]];
    }
    tokens := tokens + [EOF];
  }
}
