/** String operations of the JavaScript runtime that the scaffolding tool and the todo
    form rely on: `trim`, `startsWith`, `toLowerCase`, `indexOf`, and a global regular
    expression replace of the shape `s.replace(/[class]+/g, '-')`. */
module Text {

  /** JavaScript's WhiteSpace and LineTerminator code points: exactly what
      `String.prototype.trim` removes and what the regular-expression class `\s` matches. */
  predicate IsWhitespace(c: char)
  {
    || c == '\t' || c == '\n' || c == '\U{000B}' || c == '\U{000C}' || c == '\r' || c == ' '
    || c == '\U{00A0}' || c == '\U{1680}' || ('\U{2000}' <= c <= '\U{200A}')
    || c == '\U{2028}' || c == '\U{2029}' || c == '\U{202F}' || c == '\U{205F}'
    || c == '\U{3000}' || c == '\U{FEFF}'
  }

  /** `s.startsWith(prefix)`: `s` is `prefix` followed by something. */
  predicate StartsWith(s: string, prefix: string)
    ensures StartsWith(s, prefix) <==> exists rest :: s == prefix + rest
  {
    if |prefix| <= |s| && s[..|prefix|] == prefix then
      assert s == prefix + s[|prefix|..];
      true
    else
      false
  }

  /** `s.indexOf(x)`: the first position of `x` in `s`, or -1 when `x` does not occur. */
  function IndexOf<T(==)>(s: seq<T>, x: T): (r: int)
    ensures -1 <= r < |s|
    ensures r == -1 <==> x !in s
    ensures r >= 0 ==> s[r] == x && forall j :: 0 <= j < r ==> s[j] != x
  {
    if s == [] then -1
    else if s[0] == x then 0
    else
      var k := IndexOf(s[1..], x);
      if k == -1 then -1 else k + 1
  }

  /** The length of the longest prefix of `s` whose characters all satisfy `p`. */
  function LeadingRun(s: string, p: char -> bool): (n: nat)
    ensures n <= |s|
    ensures forall i :: 0 <= i < n ==> p(s[i])
    ensures n == |s| || !p(s[n])
  {
    if s != [] && p(s[0]) then 1 + LeadingRun(s[1..], p) else 0
  }

  /** Drops the longest prefix of `s` whose characters all satisfy `p`. */
  function DropRun(s: string, p: char -> bool): (r: string)
    ensures |r| <= |s| && r == s[|s| - |r|..]
    ensures r == [] || !p(r[0])
    ensures forall i :: 0 <= i < |s| - |r| ==> p(s[i])
  {
    s[LeadingRun(s, p)..]
  }

  /** Drops the longest suffix of `s` whose characters all satisfy `p`. */
  function DropRunEnd(s: string, p: char -> bool): (r: string)
    ensures |r| <= |s| && r == s[..|r|]
    ensures r == [] || !p(r[|r| - 1])
    ensures forall i :: |r| <= i < |s| ==> p(s[i])
  {
    if s != [] && p(s[|s| - 1]) then DropRunEnd(s[..|s| - 1], p) else s
  }

  /** `s.trim()`: whitespace removed at both ends and nowhere else. */
  function Trim(s: string): (r: string)
    ensures exists k, m :: 0 <= k <= m <= |s| && r == s[k..m]
              && (forall i :: 0 <= i < k ==> IsWhitespace(s[i]))
              && (forall i :: m <= i < |s| ==> IsWhitespace(s[i]))
    ensures r == [] || (!IsWhitespace(r[0]) && !IsWhitespace(r[|r| - 1]))
    ensures r == [] <==> forall i :: 0 <= i < |s| ==> IsWhitespace(s[i])
    ensures (s == [] || (!IsWhitespace(s[0]) && !IsWhitespace(s[|s| - 1]))) ==> r == s
  {
    TrimIsSlice(s);
    TrimEnds(s);
    DropRunEnd(DropRun(s, IsWhitespace), IsWhitespace)
  }

  /** The two drops leave a slice of `s` with only whitespace cut on either side. */
  lemma TrimIsSlice(s: string)
    ensures var r := DropRunEnd(DropRun(s, IsWhitespace), IsWhitespace);
      exists k, m :: 0 <= k <= m <= |s| && r == s[k..m]
        && (forall i :: 0 <= i < k ==> IsWhitespace(s[i]))
        && (forall i :: m <= i < |s| ==> IsWhitespace(s[i]))
  {
    var front := DropRun(s, IsWhitespace);
    var r := DropRunEnd(front, IsWhitespace);
    var k := |s| - |front|;
    var m := k + |r|;
    assert r == s[k..m];
    forall i | m <= i < |s| ensures IsWhitespace(s[i]) {
      assert s[i] == front[i - k];
    }
  }

  /** The two drops leave no whitespace at either end, an empty result only for blank
      input, and an input without whitespace at its ends as it was. */
  lemma TrimEnds(s: string)
    ensures var r := DropRunEnd(DropRun(s, IsWhitespace), IsWhitespace);
      && (r == [] || (!IsWhitespace(r[0]) && !IsWhitespace(r[|r| - 1])))
      && (r == [] <==> forall i :: 0 <= i < |s| ==> IsWhitespace(s[i]))
      && ((s == [] || (!IsWhitespace(s[0]) && !IsWhitespace(s[|s| - 1]))) ==> r == s)
  {
    var front := DropRun(s, IsWhitespace);
    assert front != [] ==> !IsWhitespace(s[|s| - |front|]);
  }

  /** `toLowerCase` on one character, for the ASCII letters. */
  function LowerChar(c: char): (r: char)
    ensures 'A' <= c <= 'Z' ==> 'a' <= r <= 'z' && r as int == c as int + 32
    ensures !('A' <= c <= 'Z') ==> r == c
  {
    if 'A' <= c <= 'Z' then (c as int - 'A' as int + 'a' as int) as char else c
  }

  /** `s.toLowerCase()`, for the ASCII letters. */
  function ToLower(s: string): (r: string)
    ensures |r| == |s|
    ensures forall i :: 0 <= i < |s| ==> r[i] == LowerChar(s[i])
  {
    seq(|s|, i requires 0 <= i < |s| => LowerChar(s[i]))
  }

  /** `s.replace(/[class]+/g, '-')` where `p` is the character class: every maximal run
      of characters satisfying `p` becomes a single hyphen. The run is consumed one
      character at a time: a class character followed by another emits nothing, the last
      one of the run emits the hyphen. */
  function CollapseRuns(s: string, p: char -> bool): (r: string)
    ensures |r| <= |s|
    decreases |s|
  {
    if s == [] then []
    else if !p(s[0]) then [s[0]] + CollapseRuns(s[1..], p)
    else if |s| > 1 && p(s[1]) then CollapseRuns(s[1..], p)
    else "-" + CollapseRuns(s[1..], p)
  }

  /** The replace leaves no character of the class behind: each is a hyphen or outside it. */
  lemma {:induction false} CollapseRunsAlphabet(s: string, p: char -> bool)
    ensures forall i :: 0 <= i < |CollapseRuns(s, p)| ==> CollapseRuns(s, p)[i] == '-' || !p(CollapseRuns(s, p)[i])
    decreases |s|
  {
    if s != [] {
      CollapseRunsAlphabet(s[1..], p);
      var r := CollapseRuns(s[1..], p);
      assert forall i :: 1 <= i < |r| + 1 ==> ([s[0]] + r)[i] == r[i - 1];
      assert forall i :: 1 <= i < |r| + 1 ==> ("-" + r)[i] == r[i - 1];
    }
  }

  /** A character outside the class passes through the replace unchanged. */
  lemma CollapseRunsCons(c: char, t: string, p: char -> bool)
    requires !p(c)
    ensures CollapseRuns([c] + t, p) == [c] + CollapseRuns(t, p)
  {
    assert ([c] + t)[1..] == t;
  }

  /** A prefix free of the class passes through the replace unchanged. */
  lemma {:induction false} CollapseRunsKeepsPrefix(a: string, b: string, p: char -> bool)
    requires forall i :: 0 <= i < |a| ==> !p(a[i])
    ensures CollapseRuns(a + b, p) == a + CollapseRuns(b, p)
  {
    if a == [] {
      assert a + b == b;
    } else {
      var t := a[1..] + b;
      assert a + b == [a[0]] + t;
      assert forall i :: 0 <= i < |a[1..]| ==> !p(a[1..][i]);
      CollapseRunsKeepsPrefix(a[1..], b, p);
      CollapseRunsCons(a[0], t, p);
      calc {
        CollapseRuns(a + b, p);
        CollapseRuns([a[0]] + t, p);
        [a[0]] + CollapseRuns(t, p);
        [a[0]] + (a[1..] + CollapseRuns(b, p));
        { assert a == [a[0]] + a[1..]; }
        a + CollapseRuns(b, p);
      }
    }
  }

  /** A string free of the class is left unchanged. */
  lemma CollapseRunsNoop(s: string, p: char -> bool)
    requires forall i :: 0 <= i < |s| ==> !p(s[i])
    ensures CollapseRuns(s, p) == s
  {
    CollapseRunsKeepsPrefix(s, [], p);
    assert s + [] == s;
  }

  /** The replace never empties a string: a first character outside the class is kept
      and, when more follows it, something more is kept. */
  lemma {:induction false} CollapseRunsFront(s: string, p: char -> bool)
    requires s != []
    ensures CollapseRuns(s, p) != []
    ensures CollapseRuns(s, p)[0] == if p(s[0]) then '-' else s[0]
    ensures |s| >= 2 && !p(s[0]) ==> |CollapseRuns(s, p)| >= 2
    decreases |s|
  {
    if |s| >= 2 {
      CollapseRunsFront(s[1..], p);
    }
  }

  /** A string that starts and ends outside the class keeps both end characters, and at
      least two characters. */
  lemma CollapseRunsKeepsEnds(s: string, p: char -> bool)
    requires |s| >= 2 && !p(s[0]) && !p(s[|s| - 1])
    ensures |CollapseRuns(s, p)| >= 2
    ensures CollapseRuns(s, p)[|CollapseRuns(s, p)| - 1] == s[|s| - 1]
  {
    CollapseRunsFront(s, p);
    CollapseRunsBack(s, p);
  }

  /** A string whose first two characters lie outside the class keeps both. */
  lemma CollapseRunsKeepsFirstTwo(s: string, p: char -> bool)
    requires |s| >= 2 && !p(s[0]) && !p(s[1])
    ensures |CollapseRuns(s, p)| >= 2
    ensures CollapseRuns(s, p)[0] == s[0] && CollapseRuns(s, p)[1] == s[1]
  {
    assert s == [s[0]] + s[1..];
    CollapseRunsCons(s[0], s[1..], p);
    CollapseRunsFront(s[1..], p);
  }

  /** A run of one character of the class becomes one hyphen. */
  lemma CollapseRunsSingle(c: char, b: string, p: char -> bool)
    requires p(c) && (b == [] || !p(b[0]))
    ensures CollapseRuns([c] + b, p) == "-" + CollapseRuns(b, p)
  {
    assert ([c] + b)[1..] == b;
  }

  /** A run of class characters of any length, up to a character outside the class or
      the end, becomes exactly one hyphen. */
  lemma {:induction false} CollapseRunsRun(run: string, b: string, p: char -> bool)
    requires run != [] && forall i :: 0 <= i < |run| ==> p(run[i])
    requires b == [] || !p(b[0])
    ensures CollapseRuns(run + b, p) == "-" + CollapseRuns(b, p)
    decreases |run|
  {
    if |run| == 1 {
      assert run + b == [run[0]] + b;
      CollapseRunsSingle(run[0], b, p);
    } else {
      var s := run + b;
      assert s[0] == run[0] && s[1] == run[1] && s[1..] == run[1..] + b;
      CollapseRunsRun(run[1..], b, p);
    }
  }

  /** A lone separator after a prefix free of the class becomes exactly one hyphen. */
  lemma CollapseRunsSeparator(a: string, b: string, p: char -> bool)
    requires p(' ')
    requires forall i :: 0 <= i < |a| ==> !p(a[i])
    requires b != [] && !p(b[0])
    ensures CollapseRuns(a + ([' '] + b), p) == a + ("-" + CollapseRuns(b, p))
  {
    CollapseRunsSingle(' ', b, p);
    CollapseRunsKeepsPrefix(a, [' '] + b, p);
  }

  /** Three words free of the class, separated by single spaces, come out joined by
      hyphens. */
  lemma CollapseRunsThreeWords(w1: string, w2: string, w3: string, p: char -> bool)
    requires p(' ')
    requires forall i :: 0 <= i < |w1| ==> !p(w1[i])
    requires forall i :: 0 <= i < |w2| ==> !p(w2[i])
    requires forall i :: 0 <= i < |w3| ==> !p(w3[i])
    requires w2 != [] && w3 != []
    ensures CollapseRuns(w1 + ([' '] + (w2 + ([' '] + w3))), p) == w1 + ("-" + (w2 + ("-" + w3)))
  {
    CollapseRunsNoop(w3, p);
    CollapseRunsSeparator(w2, w3, p);
    var b := w2 + ([' '] + w3);
    assert b[0] == w2[0];
    CollapseRunsSeparator(w1, b, p);
  }

  /** The last character of the replace's output is a hyphen when the input ends inside
      a run, and the input's own last character otherwise. */
  lemma {:induction false} CollapseRunsBack(s: string, p: char -> bool)
    requires s != []
    ensures CollapseRuns(s, p) != []
    ensures CollapseRuns(s, p)[|CollapseRuns(s, p)| - 1] == if p(s[|s| - 1]) then '-' else s[|s| - 1]
    decreases |s|
  {
    if |s| > 1 {
      CollapseRunsBack(s[1..], p);
      assert s[1..][|s| - 2] == s[|s| - 1];
    }
  }
}
