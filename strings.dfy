/**
  * String helpers with JavaScript's (and the store's) semantics:
  * `String.prototype.split` with a one-character separator, the last
  * segment that `split('\n').pop()` yields, and the case-insensitive
  * substring test used by the title search.
  */
module Strings {

  /** The segments of `s` between occurrences of `sep`, as `s.split(sep)` returns them. */
  function Split(s: string, sep: char): (parts: seq<string>)
    ensures |parts| >= 1
    ensures forall i :: 0 <= i < |parts| ==> sep !in parts[i]
    ensures |parts| == 1 <==> sep !in s
    decreases |s|
  {
    if |s| == 0 then [""]
    else
      var rest := Split(s[1..], sep);
      if s[0] == sep then [""] + rest
      else [[s[0]] + rest[0]] + rest[1..]
  }

  /** The segments glued back together with `sep` between them, as `parts.join(sep)` does. */
  function Join(parts: seq<string>, sep: char): string
  {
    if |parts| == 0 then ""
    else if |parts| == 1 then parts[0]
    else parts[0] + [sep] + Join(parts[1..], sep)
  }

  /** Splitting loses nothing: joining the segments gives the original string back. */
  lemma {:induction false} JoinSplit(s: string, sep: char)
    ensures Join(Split(s, sep), sep) == s
    decreases |s|
  {
    if |s| > 0 {
      var rest := Split(s[1..], sep);
      JoinSplit(s[1..], sep);
      if s[0] == sep {
        assert Split(s, sep) == [""] + rest;
        assert ([""] + rest)[1..] == rest;
        assert s == [sep] + s[1..];
      } else if |rest| == 1 {
        assert Split(s, sep) == [[s[0]] + rest[0]];
        assert s == [s[0]] + s[1..];
      } else {
        var parts := [[s[0]] + rest[0]] + rest[1..];
        assert Split(s, sep) == parts;
        assert parts[1..] == rest[1..];
        assert Join(rest, sep) == rest[0] + [sep] + Join(rest[1..], sep);
        assert s == [s[0]] + s[1..];
      }
    }
  }

  /** The last segment of a split is a suffix of the string, preceded by the separator unless it is the whole string. */
  lemma {:induction false} SplitLastIsSuffix(s: string, sep: char)
    ensures var parts := Split(s, sep);
            var r := parts[|parts| - 1];
            |r| <= |s| && r == s[|s| - |r|..] && (|r| < |s| ==> s[|s| - |r| - 1] == sep)
    decreases |s|
  {
    if |s| > 0 {
      var rest := Split(s[1..], sep);
      SplitLastIsSuffix(s[1..], sep);
      var t := s[1..];
      var r' := rest[|rest| - 1];
      assert t[|t| - |r'|..] == s[|s| - |r'|..];
      if s[0] == sep {
        assert Split(s, sep) == [""] + rest;
      } else if |rest| == 1 {
        assert Split(s, sep) == [[s[0]] + rest[0]];
        assert sep !in t;
        assert r' == t;
        assert [s[0]] + t == s;
      } else {
        var parts := [[s[0]] + rest[0]] + rest[1..];
        assert Split(s, sep) == parts;
        assert parts[|parts| - 1] == r';
        if |r'| < |t| {
          assert s[|s| - |r'| - 1] == t[|t| - |r'| - 1];
        }
      }
    }
  }

  /**
    * What `s.split('\n').pop()` yields: the text after the last line break,
    * or all of `s` when it has none.
    */
  function LastLine(s: string): (r: string)
    ensures '\n' !in r
    ensures |r| <= |s| && s[|s| - |r|..] == r
    ensures |r| < |s| ==> s[|s| - |r| - 1] == '\n'
    ensures '\n' !in s ==> r == s
  {
    var parts := Split(s, '\n');
    SplitLastIsSuffix(s, '\n');
    parts[|parts| - 1]
  }

  /** Whatever precedes the last line break, the last line of `prefix + "\n" + line` is `line`. */
  lemma LastLineAfterBreak(prefix: string, line: string)
    requires '\n' !in line
    ensures LastLine(prefix + "\n" + line) == line
  {
    var s := prefix + "\n" + line;
    var r := LastLine(s);
    assert s[|prefix|] == '\n';
    assert s[|s| - |line|..] == line;
  }

  /** ASCII upper-case letters folded to lower case; every other character is kept. */
  function LowerChar(c: char): (d: char)
    ensures 'A' <= c <= 'Z' ==> 'a' <= d <= 'z' && d as int - c as int == 32
    ensures !('A' <= c <= 'Z') ==> d == c
  {
    if 'A' <= c <= 'Z' then (c as int + 32) as char else c
  }

  function Lower(s: string): (r: string)
    ensures |r| == |s|
    ensures forall i :: 0 <= i < |s| ==> r[i] == LowerChar(s[i])
  {
    seq(|s|, i requires 0 <= i < |s| => LowerChar(s[i]))
  }

  /** `needle` occurs in `hay` at offset `i` when letter case is ignored. */
  predicate MatchesAt(hay: string, needle: string, i: int)
  {
    0 <= i <= |hay| - |needle| && Lower(hay[i..i + |needle|]) == Lower(needle)
  }

  /** `needle` occurs in `hay` when letter case is ignored (the store's `contains` in insensitive mode). */
  predicate ContainsIgnoringCase(hay: string, needle: string)
  {
    exists i | 0 <= i <= |hay| - |needle| :: MatchesAt(hay, needle, i)
  }

  /** A plain substring of the lower-cased text, starting at `i`. */
  predicate LowerSubstringAt(hay: string, needle: string, i: int)
  {
    0 <= i <= |hay| - |needle| && Lower(hay)[i..i + |needle|] == Lower(needle)
  }

  /** Ignoring case is the same as lower-casing both sides and looking for a plain substring. */
  lemma ContainsIgnoringCaseIsLowerSubstring(hay: string, needle: string)
    ensures ContainsIgnoringCase(hay, needle) <==> exists i | 0 <= i <= |hay| - |needle| :: LowerSubstringAt(hay, needle, i)
  {
    forall i | 0 <= i <= |hay| - |needle|
      ensures MatchesAt(hay, needle, i) <==> LowerSubstringAt(hay, needle, i)
    {
      assert Lower(hay)[i..i + |needle|] == Lower(hay[i..i + |needle|]);
    }
  }

  /** A string contains any string that differs from it only in letter case. */
  lemma ContainsItselfIgnoringCase(s: string, t: string)
    requires Lower(s) == Lower(t)
    ensures ContainsIgnoringCase(s, t)
  {
    assert s[0..|t|] == s;
    assert MatchesAt(s, t, 0);
  }
}
