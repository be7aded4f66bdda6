/** The text clean-up done before the answer is handed to the markdown renderer:
    `formatMarkdown` (two global regular-expression substitutions applied in
    order) and the trailing-newline strip applied to the body of a code block. */
module Formatter {

  /** True when `s` holds the two-character sequence `first` `second` somewhere. */
  predicate HasPair(s: string, first: char, second: char)
  {
    exists i :: 0 <= i < |s| - 1 && s[i] == first && s[i + 1] == second
  }

  /** One global `replace` of the two-character pattern `first second` by the single
      character `repl`: the string is scanned left to right, a match consumes both of
      its characters and scanning resumes after it, so matches never overlap. */
  function ReplacePair(s: string, first: char, second: char, repl: char): (r: string)
    ensures |r| <= |s|
    ensures |s| > 0 ==> |r| > 0
    decreases |s|
  {
    if |s| < 2 then s
    else if s[0] == first && s[1] == second then [repl] + ReplacePair(s[2..], first, second, repl)
    else [s[0]] + ReplacePair(s[1..], first, second, repl)
  }

  /** The number of matches the left-to-right scan of ReplacePair finds. */
  function MatchCount(s: string, first: char, second: char): nat
    decreases |s|
  {
    if |s| < 2 then 0
    else if s[0] == first && s[1] == second then 1 + MatchCount(s[2..], first, second)
    else MatchCount(s[1..], first, second)
  }

  /** First pass of formatMarkdown: every literal backslash followed by `n` becomes a line feed. */
  function UnescapeNewlines(s: string): (r: string)
    ensures |r| <= |s|
    ensures !HasPair(r, '\\', 'n')
    ensures r == s <==> !HasPair(s, '\\', 'n')
  {
    NoPairAfterReplace(s, '\\', 'n', '\n');
    ReplaceIdentity(s, '\\', 'n', '\n');
    ReplacePair(s, '\\', 'n', '\n')
  }

  /** Second pass of formatMarkdown: every carriage return followed by a line feed becomes a line feed. */
  function NormalizeCrlf(s: string): (r: string)
    ensures |r| <= |s|
    ensures r == s <==> !HasPair(s, '\r', '\n')
    ensures !HasPair(s, '\\', 'n') ==> !HasPair(r, '\\', 'n')
  {
    ReplaceIdentity(s, '\r', '\n', '\n');
    NoPairAfterOtherPass(s);
    ReplacePair(s, '\r', '\n', '\n')
  }

  /** formatMarkdown: the first pass, then the second one on its output. */
  function FormatMarkdown(text: string): (r: string)
    ensures |r| <= |text|
    ensures !HasPair(r, '\\', 'n')
  {
    NormalizeCrlf(UnescapeNewlines(text))
  }

  /** The code-block renderer's `replace(/\n$/, "")`: without the multiline flag `$`
      anchors at the very end, so one final line feed, if there is one, is removed. */
  function StripTrailingNewline(s: string): (r: string)
    ensures |s| > 0 && s[|s| - 1] == '\n' ==> r + "\n" == s
    ensures !(|s| > 0 && s[|s| - 1] == '\n') ==> r == s
  {
    if |s| > 0 && s[|s| - 1] == '\n' then s[..|s| - 1] else s
  }

  // ---------------------------------------------------------------------------
  // Properties of one substitution pass

  /** The first character of a pass's output is the replacement or the input's first character. */
  lemma {:induction false} ReplaceHead(s: string, first: char, second: char, repl: char)
    requires |s| > 0
    ensures |ReplacePair(s, first, second, repl)| > 0
    ensures var r := ReplacePair(s, first, second, repl);
      (|s| >= 2 && s[0] == first && s[1] == second && r[0] == repl) ||
      (!(|s| >= 2 && s[0] == first && s[1] == second) && r[0] == s[0])
  {
  }

  /** Each match shortens the string by exactly one character, and nothing else does. */
  lemma {:induction false} ReplaceLength(s: string, first: char, second: char, repl: char)
    ensures |ReplacePair(s, first, second, repl)| + MatchCount(s, first, second) == |s|
    decreases |s|
  {
    if |s| >= 2 {
      if s[0] == first && s[1] == second {
        ReplaceLength(s[2..], first, second, repl);
      } else {
        ReplaceLength(s[1..], first, second, repl);
      }
    }
  }

  /** The scan finds a match exactly when the pattern occurs somewhere. */
  lemma {:induction false} MatchCountZero(s: string, first: char, second: char)
    ensures MatchCount(s, first, second) == 0 <==> !HasPair(s, first, second)
    decreases |s|
  {
    if |s| >= 2 {
      if s[0] == first && s[1] == second {
        assert HasPair(s, first, second) by { assert s[0] == first && s[1] == second; }
      } else {
        MatchCountZero(s[1..], first, second);
        if HasPair(s, first, second) {
          var i :| 0 <= i < |s| - 1 && s[i] == first && s[i + 1] == second;
          assert i > 0;
          assert s[1..][i - 1] == first && s[1..][i] == second;
        }
        if HasPair(s[1..], first, second) {
          var i :| 0 <= i < |s[1..]| - 1 && s[1..][i] == first && s[1..][i + 1] == second;
          assert s[i + 1] == first && s[i + 2] == second;
        }
      }
    } else {
      assert !HasPair(s, first, second);
    }
  }

  /** A pass leaves its input unchanged exactly when the pattern does not occur in it. */
  lemma {:induction false} ReplaceIdentity(s: string, first: char, second: char, repl: char)
    ensures ReplacePair(s, first, second, repl) == s <==> !HasPair(s, first, second)
  {
    ReplaceLength(s, first, second, repl);
    MatchCountZero(s, first, second);
    if !HasPair(s, first, second) {
      ReplaceNoMatch(s, first, second, repl);
    }
  }

  /** A string in which the scan finds no match comes back unchanged. */
  lemma {:induction false} ReplaceNoMatch(s: string, first: char, second: char, repl: char)
    requires MatchCount(s, first, second) == 0
    ensures ReplacePair(s, first, second, repl) == s
    decreases |s|
  {
    if |s| >= 2 {
      ReplaceNoMatch(s[1..], first, second, repl);
      assert s == [s[0]] + s[1..];
    }
  }

  /** When the replacement is neither character of the pattern, no occurrence of the
      pattern is left after the pass, since none can be formed by it either. */
  lemma {:induction false} NoPairAfterReplace(s: string, first: char, second: char, repl: char)
    requires repl != first && repl != second
    ensures !HasPair(ReplacePair(s, first, second, repl), first, second)
    decreases |s|
  {
    var r := ReplacePair(s, first, second, repl);
    if |s| < 2 {
      assert !HasPair(r, first, second);
    } else {
      var rest := if s[0] == first && s[1] == second then s[2..] else s[1..];
      var head := if s[0] == first && s[1] == second then repl else s[0];
      NoPairAfterReplace(rest, first, second, repl);
      var tail := ReplacePair(rest, first, second, repl);
      assert r == [head] + tail;
      if |rest| > 0 {
        ReplaceHead(rest, first, second, repl);
        assert !(head == first && tail[0] == second);
      }
      forall i | 0 <= i < |r| - 1 ensures !(r[i] == first && r[i + 1] == second) {
        if i > 0 {
          assert r[i] == tail[i - 1] && r[i + 1] == tail[i];
        }
      }
    }
  }

  /** A pass whose replacement is neither `x` nor `y` never creates the pair `x y`:
      if the input has none, the output has none. */
  lemma {:induction false} NoPairSurvivesReplace(s: string, first: char, second: char, repl: char, x: char, y: char)
    requires repl != x && repl != y
    requires !HasPair(s, x, y)
    ensures !HasPair(ReplacePair(s, first, second, repl), x, y)
    decreases |s|
  {
    var r := ReplacePair(s, first, second, repl);
    if |s| >= 2 {
      var matched := s[0] == first && s[1] == second;
      var rest := if matched then s[2..] else s[1..];
      var head := if matched then repl else s[0];
      assert !HasPair(rest, x, y) by {
        forall i | 0 <= i < |rest| - 1 ensures !(rest[i] == x && rest[i + 1] == y) {
          var k := if matched then i + 2 else i + 1;
          assert rest[i] == s[k] && rest[i + 1] == s[k + 1];
        }
      }
      NoPairSurvivesReplace(rest, first, second, repl, x, y);
      var tail := ReplacePair(rest, first, second, repl);
      assert r == [head] + tail;
      if |rest| > 0 {
        ReplaceHead(rest, first, second, repl);
        if !matched {
          assert !(s[0] == x && s[1] == y);
        }
        assert !(head == x && tail[0] == y);
      }
      forall i | 0 <= i < |r| - 1 ensures !(r[i] == x && r[i + 1] == y) {
        if i > 0 {
          assert r[i] == tail[i - 1] && r[i + 1] == tail[i];
        }
      }
    }
  }

  /** The line-feed replacement of the CR LF pass is neither a backslash nor `n`,
      so that pass never forms a literal backslash-n. */
  lemma NoPairAfterOtherPass(s: string)
    ensures !HasPair(s, '\\', 'n') ==> !HasPair(ReplacePair(s, '\r', '\n', '\n'), '\\', 'n')
  {
    if !HasPair(s, '\\', 'n') {
      NoPairSurvivesReplace(s, '\r', '\n', '\n', '\\', 'n');
    }
  }

  /** A pass touches no other character: every match trades one `first` and one
      `second` for one `repl`, and all other character counts are kept. */
  lemma {:induction false} ReplaceCounts(s: string, first: char, second: char, repl: char, ch: char)
    ensures var k := MatchCount(s, first, second);
      multiset(ReplacePair(s, first, second, repl))[ch]
        + (if ch == first then k else 0) + (if ch == second then k else 0)
      == multiset(s)[ch] + (if ch == repl then k else 0)
    decreases |s|
  {
    if |s| >= 2 {
      if s[0] == first && s[1] == second {
        ReplaceCounts(s[2..], first, second, repl, ch);
        assert s == [s[0]] + [s[1]] + s[2..];
        assert multiset(s) == multiset{s[0]} + multiset{s[1]} + multiset(s[2..]);
      } else {
        ReplaceCounts(s[1..], first, second, repl, ch);
        assert s == [s[0]] + s[1..];
        assert multiset(s) == multiset{s[0]} + multiset(s[1..]);
      }
    }
  }

  /** The pass works piece by piece: a prefix that does not end in `first` cannot take
      part in a match that crosses into the rest of the string. */
  lemma {:induction false} ReplaceAppend(x: string, y: string, first: char, second: char, repl: char)
    requires |x| == 0 || x[|x| - 1] != first
    ensures ReplacePair(x + y, first, second, repl)
         == ReplacePair(x, first, second, repl) + ReplacePair(y, first, second, repl)
    decreases |x|
  {
    if |x| == 0 {
      assert x + y == y;
    } else if |x| == 1 {
      assert x + y == [x[0]] + y;
      assert (x + y)[1..] == y;
    } else {
      assert (x + y)[0] == x[0] && (x + y)[1] == x[1];
      if x[0] == first && x[1] == second {
        assert (x + y)[2..] == x[2..] + y;
        ReplaceAppend(x[2..], y, first, second, repl);
      } else {
        assert (x + y)[1..] == x[1..] + y;
        ReplaceAppend(x[1..], y, first, second, repl);
      }
    }
  }

  // ---------------------------------------------------------------------------
  // Properties of formatMarkdown

  /** formatMarkdown leaves a string alone exactly when it holds neither a literal
      backslash-n nor a carriage return followed by a line feed. */
  lemma FormatIdentity(s: string)
    ensures FormatMarkdown(s) == s <==> !HasPair(s, '\\', 'n') && !HasPair(s, '\r', '\n')
  {
    var once := UnescapeNewlines(s);
    ReplaceIdentity(s, '\\', 'n', '\n');
    ReplaceIdentity(once, '\r', '\n', '\n');
    if FormatMarkdown(s) == s {
      assert |once| == |s|;
      ReplaceLength(s, '\\', 'n', '\n');
      MatchCountZero(s, '\\', 'n');
    }
  }

  /** Each of the two substitutions removes exactly one character per match. */
  lemma {:induction false} FormatLength(s: string)
    ensures |FormatMarkdown(s)|
         == |s| - MatchCount(s, '\\', 'n') - MatchCount(UnescapeNewlines(s), '\r', '\n')
  {
    ReplaceLength(s, '\\', 'n', '\n');
    ReplaceLength(UnescapeNewlines(s), '\r', '\n', '\n');
  }

  /** Applying formatMarkdown a second time changes nothing exactly when its first
      output holds no carriage return followed by a line feed. */
  lemma FormatIdempotentIff(s: string)
    ensures FormatMarkdown(FormatMarkdown(s)) == FormatMarkdown(s)
        <==> !HasPair(FormatMarkdown(s), '\r', '\n')
  {
    FormatIdentity(FormatMarkdown(s));
  }

  /** formatMarkdown is not idempotent: the second pass can form a new CR LF pair. */
  lemma FormatNotIdempotent()
    ensures FormatMarkdown("\r\r\n") == "\r\n"
    ensures FormatMarkdown("\r\n") == "\n"
    ensures exists s :: FormatMarkdown(FormatMarkdown(s)) != FormatMarkdown(s)
  {
  }

  /** The behaviour on the small inputs that show each substitution and their order. */
  lemma FormatExamples()
    ensures FormatMarkdown("a\\nb") == "a\nb"
    ensures FormatMarkdown("a\r\nb") == "a\nb"
    ensures FormatMarkdown("a\nb") == "a\nb"
    ensures UnescapeNewlines("\r\\n") == "\r\n"
    ensures FormatMarkdown("\r\\n") == "\n"
  {
    assert UnescapeNewlines("a\\nb") == "a\nb";
    assert NormalizeCrlf("a\r\nb") == "a\nb";
    assert NormalizeCrlf("\r\n") == "\n";
  }

  // ---------------------------------------------------------------------------
  // Properties of the code-block strip

  /** The strip undoes appending one line feed, and only one: `"x\n\n"` keeps a line feed. */
  lemma StripAfterAppend(t: string)
    ensures StripTrailingNewline(t + "\n") == t
    ensures StripTrailingNewline("x\n\n") == "x\n"
  {
  }

  /** The strip removes at most one character and otherwise keeps the string's prefix. */
  lemma StripBounds(s: string)
    ensures var r := StripTrailingNewline(s);
      |s| - 1 <= |r| <= |s| && r == s[..|r|]
  {
  }
}
