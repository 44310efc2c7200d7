/**
  The two Python string methods the converter relies on, for the
  one-character arguments it passes them: `s.replace(c, repl)` and
  `s.split(sep)`. Strings are sequences of characters.
*/
module PyStr {

  /** `s.replace(c, repl)`: every occurrence of the character `c` becomes `repl`. */
  function Replace(s: string, c: char, repl: string): (r: string)
    ensures c !in repl ==> c !in r
    ensures c !in s ==> r == s
  {
    if s == [] then []
    else (if s[0] == c then repl else [s[0]]) + Replace(s[1..], c, repl)
  }

  /** Replace introduces no character that is in neither `s` nor `repl`. */
  lemma {:induction false} ReplaceKeepsOut(s: string, c: char, repl: string, x: char)
    requires x !in s && x !in repl
    ensures x !in Replace(s, c, repl)
  {
    if s != [] {
      assert x !in s[1..];
      ReplaceKeepsOut(s[1..], c, repl, x);
    }
  }

  /** Replace works character by character: it distributes over concatenation. */
  lemma {:induction false} ReplaceAppend(a: string, b: string, c: char, repl: string)
    ensures Replace(a + b, c, repl) == Replace(a, c, repl) + Replace(b, c, repl)
  {
    if a == [] {
      assert a + b == b;
    } else {
      assert (a + b)[0] == a[0];
      assert (a + b)[1..] == a[1..] + b;
      ReplaceAppend(a[1..], b, c, repl);
    }
  }

  /** Replacing by one character keeps the length and maps each position on its own. */
  lemma {:induction false} ReplaceByChar(s: string, c: char, d: char)
    ensures |Replace(s, c, [d])| == |s|
    ensures forall i :: 0 <= i < |s| ==> Replace(s, c, [d])[i] == if s[i] == c then d else s[i]
  {
    if s != [] {
      ReplaceByChar(s[1..], c, d);
      assert Replace(s, c, [d]) == [if s[0] == c then d else s[0]] + Replace(s[1..], c, [d]);
    }
  }

  /** `sep.join(parts)`; Python's `split` is its inverse. */
  function Join(parts: seq<string>, sep: char): string
    requires |parts| >= 1
  {
    if |parts| == 1 then parts[0] else parts[0] + [sep] + Join(parts[1..], sep)
  }

  /** `s.split(sep)`: the pieces between separators, at least one, none holding `sep`, and joining them back gives `s`. */
  function Split(s: string, sep: char): (parts: seq<string>)
    ensures |parts| >= 1
    ensures forall i :: 0 <= i < |parts| ==> sep !in parts[i]
    ensures Join(parts, sep) == s
  {
    if s == [] then [""]
    else
      var rest := Split(s[1..], sep);
      if s[0] == sep then
        assert ([""] + rest)[1..] == rest;
        [""] + rest
      else
        var parts := [[s[0]] + rest[0]] + rest[1..];
        assert parts[1..] == rest[1..];
        assert s == [s[0]] + s[1..];
        parts
  }

  /** Joining with one more piece at the end appends the separator and that piece. */
  lemma {:induction false} JoinSnoc(parts: seq<string>, p: string, sep: char)
    requires |parts| >= 1
    ensures Join(parts + [p], sep) == Join(parts, sep) + [sep] + p
  {
    if |parts| > 1 {
      assert (parts + [p])[1..] == parts[1..] + [p];
      JoinSnoc(parts[1..], p, sep);
    }
  }

  /**
    `s.split(sep)[-1]` is the text after the last `sep`: a tail of `s`
    free of `sep` that is either all of `s` or preceded by `sep`.
  */
  lemma SplitLastIsTail(s: string, sep: char)
    ensures var parts := Split(s, sep);
            var r := parts[|parts| - 1];
            && sep !in r
            && |r| <= |s|
            && s[|s| - |r|..] == r
            && (|r| == |s| || s[|s| - |r| - 1] == sep)
  {
    var parts := Split(s, sep);
    var n := |parts|;
    if n > 1 {
      assert parts == parts[..n - 1] + [parts[n - 1]];
      JoinSnoc(parts[..n - 1], parts[n - 1], sep);
    }
  }
}
