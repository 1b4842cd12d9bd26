/** The few operations of Go's `strings` package that the modelled code relies on. */
module Strings {

  /** Index of the first character of `s` that is in `cs`, or -1. */
  function IndexAny(s: string, cs: set<char>): (i: int)
    ensures -1 <= i < |s|
    ensures i >= 0 ==> s[i] in cs && forall j | 0 <= j < i :: s[j] !in cs
    ensures i < 0 ==> forall j | 0 <= j < |s| :: s[j] !in cs
  {
    if s == "" then -1
    else if s[0] in cs then 0
    else
      var r := IndexAny(s[1..], cs);
      assert forall j | 1 <= j < |s| :: s[j] == s[1..][j - 1];
      if r < 0 then -1 else r + 1
  }

  /** Index of the last occurrence of `c` in `s`, or -1. */
  function LastIndex(s: string, c: char): (i: int)
    ensures -1 <= i < |s|
    ensures i >= 0 ==> s[i] == c
    ensures forall j | i < j < |s| :: s[j] != c
  {
    if s == "" then -1
    else if s[|s| - 1] == c then |s| - 1
    else
      LastIndex(s[..|s| - 1], c)
  }

  function Split(s: string, sep: char): (parts: seq<string>)
    ensures |parts| >= 1
  {
    if s == "" then [""]
    else
      var rest := Split(s[1..], sep);
      if s[0] == sep then [""] + rest else [[s[0]] + rest[0]] + rest[1..]
  }

  function Join(parts: seq<string>, sep: char): string
  {
    if parts == [] then ""
    else if |parts| == 1 then parts[0]
    else parts[0] + [sep] + Join(parts[1..], sep)
  }

  /** `Split` cuts at every separator: no part contains one, and joining restores the text. */
  lemma {:induction false} SplitParts(s: string, sep: char)
    ensures Join(Split(s, sep), sep) == s
    ensures forall i | 0 <= i < |Split(s, sep)| :: sep !in Split(s, sep)[i]
  {
    if s != "" {
      var rest := Split(s[1..], sep);
      SplitParts(s[1..], sep);
      if s[0] == sep {
        assert Split(s, sep)[1..] == rest;
      } else {
        var parts := Split(s, sep);
        assert parts[1..] == rest[1..];
        assert Join(parts, sep) == [s[0]] + Join(rest, sep);
        assert s == [s[0]] + s[1..];
      }
    }
  }

  /** A separator-free text in front of a separator is the first part. */
  lemma {:induction false} SplitHead(w: string, s: string, sep: char)
    requires sep !in w
    ensures Split(w + [sep] + s, sep) == [w] + Split(s, sep)
    ensures Split(w, sep) == [w]
  {
    if w == "" {
      assert w + [sep] + s == [sep] + s;
    } else {
      SplitHead(w[1..], s, sep);
      assert (w + [sep] + s)[1..] == w[1..] + [sep] + s;
      assert [w[0]] + w[1..] == w;
    }
  }

  /** Joining separator-free parts and splitting again gives the parts back. */
  lemma {:induction false} SplitJoin(parts: seq<string>, sep: char)
    requires parts != []
    requires forall i | 0 <= i < |parts| :: sep !in parts[i]
    ensures Split(Join(parts, sep), sep) == parts
  {
    if |parts| == 1 {
      SplitHead(parts[0], "", sep);
    } else {
      SplitJoin(parts[1..], sep);
      SplitHead(parts[0], Join(parts[1..], sep), sep);
    }
  }

  /** Splitting distributes over a separator. */
  lemma {:induction false} SplitAppend(a: string, b: string, sep: char)
    ensures Split(a + [sep] + b, sep) == Split(a, sep) + Split(b, sep)
  {
    var s := a + [sep] + b;
    if a == "" {
      assert s == [sep] + b;
      assert s[1..] == b;
    } else {
      assert s[1..] == a[1..] + [sep] + b && s[0] == a[0];
      SplitAppend(a[1..], b, sep);
    }
  }

  lemma {:induction false} JoinAppend(a: seq<string>, b: seq<string>, sep: char)
    requires a != [] && b != []
    ensures Join(a + b, sep) == Join(a, sep) + [sep] + Join(b, sep)
  {
    if |a| == 1 {
      assert (a + b)[1..] == b;
    } else {
      assert (a + b)[1..] == a[1..] + b;
      JoinAppend(a[1..], b, sep);
    }
  }

  lemma PartsExtendText(prefix: string, key: string, sep: char, rest: seq<string>)
    requires Split(key, sep) == Split(prefix, sep) + rest
    ensures key == prefix || prefix + [sep] <= key
  {
    SplitParts(prefix, sep);
    SplitParts(key, sep);
    if rest == [] {
      assert Split(prefix, sep) + rest == Split(prefix, sep);
    } else {
      JoinAppend(Split(prefix, sep), rest, sep);
    }
  }

  lemma TextExtendsParts(prefix: string, key: string, sep: char)
    requires prefix + [sep] <= key
    ensures Split(prefix, sep) <= Split(key, sep)
  {
    var rest := key[|prefix| + 1..];
    assert key == prefix + [sep] + rest;
    SplitAppend(prefix, rest, sep);
  }

  /** Extending the list of parts is extending the text by whole parts. */
  lemma SplitPrefix(prefix: string, key: string, sep: char)
    ensures Split(prefix, sep) <= Split(key, sep) <==> key == prefix || prefix + [sep] <= key
  {
    if Split(prefix, sep) <= Split(key, sep) {
      PartsExtendText(prefix, key, sep, Split(key, sep)[|Split(prefix, sep)|..]);
    }
    if prefix + [sep] <= key {
      TextExtendsParts(prefix, key, sep);
    }
  }

  lemma Assoc(a: string, b: string, c: string)
    ensures a + (b + c) == a + b + c
  {}
}
