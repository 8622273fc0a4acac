/** The package-name rules of the scaffolding tool (bin/cli.js): the validity predicate
    `isValidPackageName`, a regular expression, and the sanitiser `toValidPackageName`,
    a chain of five string rewrites. */
module PackageNames {
  import opened Text

  predicate IsLowerOrDigit(c: char)
  {
    'a' <= c <= 'z' || '0' <= c <= '9'
  }

  /** `[a-z0-9-~]`: the characters the sanitiser keeps; also the first character of a name. */
  predicate IsAllowed(c: char)
  {
    IsLowerOrDigit(c) || c == '-' || c == '~'
  }

  /** `[^a-z0-9-~]` */
  predicate IsDisallowed(c: char)
  {
    !IsAllowed(c)
  }

  /** `[a-z0-9-._~]`: the later characters of a name. */
  predicate IsNameChar(c: char)
  {
    IsAllowed(c) || c == '.' || c == '_'
  }

  /** `[a-z0-9-*~]`: the first character of a scope. */
  predicate IsScopeStart(c: char)
  {
    IsAllowed(c) || c == '*'
  }

  /** `[a-z0-9-*._~]`: the later characters of a scope. */
  predicate IsScopeChar(c: char)
  {
    IsScopeStart(c) || c == '.' || c == '_'
  }

  /** `[a-z0-9-~][a-z0-9-._~]*` */
  predicate IsNameSegment(s: string)
  {
    |s| > 0 && IsAllowed(s[0]) && forall i :: 1 <= i < |s| ==> IsNameChar(s[i])
  }

  /** `[a-z0-9-*~][a-z0-9-*._~]*` */
  predicate IsScopeSegment(s: string)
  {
    |s| > 0 && IsScopeStart(s[0]) && forall i :: 1 <= i < |s| ==> IsScopeChar(s[i])
  }

  /** The regular expression `^(?:@scope/)?name$` read literally: some position `i` may
      hold the slash that ends an `@scope/` prefix. */
  ghost predicate MatchesPattern(name: string)
  {
    || IsNameSegment(name)
    || exists i :: 1 <= i < |name| && name[0] == '@' && name[i] == '/'
                   && IsScopeSegment(name[1..i]) && IsNameSegment(name[i + 1..])
  }

  /** `@` + scope + `/` + name, split at the first slash. */
  predicate IsScopedName(name: string)
  {
    |name| > 0 && name[0] == '@' &&
    var i := IndexOf(name, '/');
    1 <= i && IsScopeSegment(name[1..i]) && IsNameSegment(name[i + 1..])
  }

  /** `isValidPackageName`: an unscoped name or a scoped one. A valid name is not empty,
      does not start with `.` or `_`, and holds neither upper-case letters nor whitespace. */
  predicate IsValidPackageName(name: string)
    ensures IsValidPackageName(name) ==>
              && name != "" && name[0] != '.' && name[0] != '_'
              && forall i :: 0 <= i < |name| ==> !('A' <= name[i] <= 'Z') && !IsWhitespace(name[i])
  {
    if IsNameSegment(name) then
      NameSegmentShape(name);
      true
    else if IsScopedName(name) then
      ScopedNameShape(name);
      true
    else
      false
  }

  lemma NameSegmentShape(s: string)
    requires IsNameSegment(s)
    ensures s[0] != '.' && s[0] != '_'
    ensures forall i :: 0 <= i < |s| ==> !('A' <= s[i] <= 'Z') && !IsWhitespace(s[i])
  {
  }

  lemma ScopedNameShape(name: string)
    requires IsScopedName(name)
    ensures forall i :: 0 <= i < |name| ==> !('A' <= name[i] <= 'Z') && !IsWhitespace(name[i])
  {
    var k := IndexOf(name, '/');
    forall j | 0 <= j < |name|
      ensures !('A' <= name[j] <= 'Z') && !IsWhitespace(name[j])
    {
      if 1 <= j < k {
        assert name[j] == name[1..k][j - 1];
      } else if j > k {
        assert name[j] == name[k + 1..][j - k - 1];
      }
    }
  }

  /** The predicate decides exactly the language of the regular expression. */
  lemma ValidNameMatchesPattern(name: string)
    ensures IsValidPackageName(name) <==> MatchesPattern(name)
  {
    if MatchesPattern(name) && !IsNameSegment(name) {
      var i :| 1 <= i < |name| && name[0] == '@' && name[i] == '/'
               && IsScopeSegment(name[1..i]) && IsNameSegment(name[i + 1..]);
      forall j | 0 <= j < i
        ensures name[j] != '/'
      {
        if j > 0 {
          assert name[j] == name[1..i][j - 1];
        }
      }
      assert IndexOf(name, '/') == i;
    }
  }

  /** `.replace(/^[._]/, '')`: one leading dot or underscore is removed. */
  function StripLeadingDotOrUnderscore(s: string): (r: string)
    ensures |s| > 0 && (s[0] == '.' || s[0] == '_') ==> r == s[1..]
    ensures !(|s| > 0 && (s[0] == '.' || s[0] == '_')) ==> r == s
  {
    if |s| > 0 && (s[0] == '.' || s[0] == '_') then s[1..] else s
  }

  /** `toValidPackageName`: trim, lower-case, whitespace runs to `-`, drop one leading
      `.` or `_`, runs of characters outside `[a-z0-9-~]` to `-`. Every character of the
      result lies in `[a-z0-9-~]`. */
  function ToValidPackageName(name: string): (r: string)
    ensures forall i :: 0 <= i < |r| ==> IsAllowed(r[i])
  {
    var trimmed := Trim(name);
    var lowered := ToLower(trimmed);
    var dashed := CollapseRuns(lowered, IsWhitespace);
    var stripped := StripLeadingDotOrUnderscore(dashed);
    CollapseRunsAlphabet(stripped, IsDisallowed);
    CollapseRuns(stripped, IsDisallowed)
  }

  /** An allowed character is not whitespace, not upper case, not `.` or `_`. */
  lemma AllowedIsInert(c: char)
    requires IsAllowed(c)
    ensures !IsWhitespace(c) && LowerChar(c) == c && c != '.' && c != '_'
  {
  }

  /** A string over `[a-z0-9-~]` passes every rewrite unchanged. */
  lemma SanitiserKeepsAllowed(name: string)
    requires forall i :: 0 <= i < |name| ==> IsAllowed(name[i])
    ensures ToValidPackageName(name) == name
  {
    AllowedTrimmed(name);
    AllowedUntouchedByCase(name);
    CollapseRunsNoop(name, IsWhitespace);
    assert StripLeadingDotOrUnderscore(name) == name;
    CollapseRunsNoop(name, IsDisallowed);
  }

  /** Trimming leaves a string over `[a-z0-9-~]` alone. */
  lemma AllowedTrimmed(name: string)
    requires forall i :: 0 <= i < |name| ==> IsAllowed(name[i])
    ensures Trim(name) == name
  {
    if |name| > 0 {
      AllowedIsInert(name[0]);
      AllowedIsInert(name[|name| - 1]);
    }
  }

  /** Lower-casing leaves a string over `[a-z0-9-~]` alone, and it holds no whitespace. */
  lemma AllowedUntouchedByCase(name: string)
    requires forall i :: 0 <= i < |name| ==> IsAllowed(name[i])
    ensures ToLower(name) == name
    ensures forall i :: 0 <= i < |name| ==> !IsWhitespace(name[i])
  {
    forall i | 0 <= i < |name|
      ensures !IsWhitespace(name[i]) && LowerChar(name[i]) == name[i]
    {
      AllowedIsInert(name[i]);
    }
    assert ToLower(name) == name;
  }

  /** The strings the sanitiser leaves alone are exactly those over `[a-z0-9-~]`. */
  lemma SanitiserFixedPoints(name: string)
    ensures ToValidPackageName(name) == name <==> forall i :: 0 <= i < |name| ==> IsAllowed(name[i])
  {
    if forall i :: 0 <= i < |name| ==> IsAllowed(name[i]) {
      SanitiserKeepsAllowed(name);
    }
  }

  /** Sanitising twice is sanitising once. */
  lemma SanitiserIdempotent(name: string)
    ensures ToValidPackageName(ToValidPackageName(name)) == ToValidPackageName(name)
  {
    SanitiserFixedPoints(ToValidPackageName(name));
  }

  /** Whatever non-empty string the sanitiser produces, the validity predicate accepts. */
  lemma SanitisedNameIsValid(name: string)
    requires ToValidPackageName(name) != ""
    ensures IsValidPackageName(ToValidPackageName(name))
  {
    var r := ToValidPackageName(name);
    assert IsNameSegment(r);
  }

  /** A trimmed input that is a lone `.` or `_` sanitises to the empty string. */
  lemma SanitiseLoneDotOrUnderscore(name: string)
    requires Trim(name) == "." || Trim(name) == "_"
    ensures ToValidPackageName(name) == ""
  {
    var trimmed := Trim(name);
    var lowered := ToLower(trimmed);
    assert lowered == trimmed;
    CollapseRunsNoop(lowered, IsWhitespace);
  }

  /** Any other non-blank input sanitises to a non-empty string. */
  lemma SanitiseNonBlank(name: string)
    requires Trim(name) != "" && Trim(name) != "." && Trim(name) != "_"
    ensures ToValidPackageName(name) != ""
  {
    var trimmed := Trim(name);
    var lowered := ToLower(trimmed);
    var dashed := CollapseRuns(lowered, IsWhitespace);
    var stripped := StripLeadingDotOrUnderscore(dashed);
    assert !IsWhitespace(lowered[0]);
    CollapseRunsFront(lowered, IsWhitespace);
    if |trimmed| == 1 {
      assert lowered[0] != '.' && lowered[0] != '_';
    }
    assert stripped != "";
    CollapseRunsFront(stripped, IsDisallowed);
  }

  /** The sanitiser yields the empty string, which the predicate rejects, exactly when the
      trimmed input is empty or a lone `.` or `_`; in particular for blank input. */
  lemma SanitisedNameEmpty(name: string)
    ensures !IsValidPackageName("")
    ensures ToValidPackageName(name) == "" <==> Trim(name) in {"", ".", "_"}
  {
    assert IndexOf("", '/') == -1;
    if Trim(name) == "." || Trim(name) == "_" {
      SanitiseLoneDotOrUnderscore(name);
    } else if Trim(name) != "" {
      SanitiseNonBlank(name);
    }
  }

  /** Only one leading `.` or `_` is stripped: when the trimmed input starts with two of
      them, the second becomes a leading hyphen. */
  lemma SanitiseSecondLeadingDot(name: string)
    requires |Trim(name)| >= 2
    requires Trim(name)[0] in {'.', '_'} && Trim(name)[1] in {'.', '_'}
    ensures ToValidPackageName(name) != "" && ToValidPackageName(name)[0] == '-'
  {
    DashedFront(name);
    StrippedFront(CollapseRuns(ToLower(Trim(name)), IsWhitespace));
  }

  /** Lower-casing and the whitespace replace keep two leading dots or underscores. */
  lemma DashedFront(name: string)
    requires |Trim(name)| >= 2
    requires Trim(name)[0] in {'.', '_'} && Trim(name)[1] in {'.', '_'}
    ensures var d := CollapseRuns(ToLower(Trim(name)), IsWhitespace);
      |d| >= 2 && d[0] in {'.', '_'} && d[1] in {'.', '_'}
  {
    var lowered := ToLower(Trim(name));
    assert lowered[0] == Trim(name)[0] && lowered[1] == Trim(name)[1];
    CollapseRunsKeepsFirstTwo(lowered, IsWhitespace);
  }

  /** With two leading dots or underscores, the last two rewrites start with a hyphen. */
  lemma StrippedFront(dashed: string)
    requires |dashed| >= 2 && dashed[0] in {'.', '_'} && dashed[1] in {'.', '_'}
    ensures var r := CollapseRuns(StripLeadingDotOrUnderscore(dashed), IsDisallowed);
      r != [] && r[0] == '-'
  {
    var stripped := StripLeadingDotOrUnderscore(dashed);
    assert stripped != [] && IsDisallowed(stripped[0]);
    CollapseRunsFront(stripped, IsDisallowed);
  }

  /** A trailing character outside `[a-z0-9-~]` (other than an upper-case letter) becomes
      a trailing hyphen rather than being removed. */
  lemma SanitiseTrailingSymbol(name: string)
    requires |Trim(name)| >= 2
    requires var t := Trim(name); IsDisallowed(t[|t| - 1]) && !('A' <= t[|t| - 1] <= 'Z')
    ensures ToValidPackageName(name) != ""
    ensures ToValidPackageName(name)[|ToValidPackageName(name)| - 1] == '-'
  {
    DashedBack(name);
    StrippedBack(CollapseRuns(ToLower(Trim(name)), IsWhitespace));
  }

  /** Lower-casing and the whitespace replace keep a last character that is neither
      whitespace nor an upper-case letter, and at least two characters. */
  lemma DashedBack(name: string)
    requires |Trim(name)| >= 2
    requires var t := Trim(name); !('A' <= t[|t| - 1] <= 'Z')
    ensures var t := Trim(name); var d := CollapseRuns(ToLower(t), IsWhitespace);
      |d| >= 2 && d[|d| - 1] == t[|t| - 1]
  {
    var t := Trim(name);
    var lowered := ToLower(t);
    assert !IsWhitespace(lowered[0]) && lowered[|lowered| - 1] == t[|t| - 1];
    CollapseRunsKeepsEnds(lowered, IsWhitespace);
  }

  /** With at least two characters and a last one outside `[a-z0-9-~]`, the last two
      rewrites end with a hyphen. */
  lemma StrippedBack(dashed: string)
    requires |dashed| >= 2 && IsDisallowed(dashed[|dashed| - 1])
    ensures var r := CollapseRuns(StripLeadingDotOrUnderscore(dashed), IsDisallowed);
      r != [] && r[|r| - 1] == '-'
  {
    var stripped := StripLeadingDotOrUnderscore(dashed);
    assert stripped != [] && stripped[|stripped| - 1] == dashed[|dashed| - 1];
    CollapseRunsBack(stripped, IsDisallowed);
  }

  /** The steps behind `SanitiseMyCoolApp`. Each takes its literal through a parameter, so
      that the verifier reasons about one rewrite at a time instead of evaluating the whole
      chain on the literal. */
  lemma MyCoolAppLowered(name: string)
    requires name == "My Cool App!"
    ensures ToLower(Trim(name)) == "my cool app!"
  {
    MyCoolAppTrimmed(name);
    MyCoolAppCase(name);
  }

  lemma MyCoolAppTrimmed(name: string)
    requires name == "My Cool App!"
    ensures Trim(name) == name
  {
    assert !IsWhitespace(name[0]) && !IsWhitespace(name[|name| - 1]);
  }

  lemma MyCoolAppCase(name: string)
    requires name == "My Cool App!"
    ensures ToLower(name) == "my cool app!"
  {
    var lowered := ToLower(name);
    assert forall i :: 0 <= i < |name| ==> lowered[i] == "my cool app!"[i];
  }

  lemma MyCoolAppDashed(lowered: string)
    requires lowered == "my cool app!"
    ensures CollapseRuns(lowered, IsWhitespace) == "my-cool-app!"
  {
    var w1, w2, w3 := "my", "cool", "app!";
    MyCoolAppWords(lowered, w1, w2, w3);
    CollapseRunsThreeWords(w1, w2, w3, IsWhitespace);
    MyCoolAppJoined(w1, w2, w3);
  }

  lemma MyCoolAppWords(lowered: string, w1: string, w2: string, w3: string)
    requires lowered == "my cool app!" && w1 == "my" && w2 == "cool" && w3 == "app!"
    ensures lowered == w1 + ([' '] + (w2 + ([' '] + w3)))
    ensures forall i :: 0 <= i < |w1| ==> !IsWhitespace(w1[i])
    ensures forall i :: 0 <= i < |w2| ==> !IsWhitespace(w2[i])
    ensures forall i :: 0 <= i < |w3| ==> !IsWhitespace(w3[i])
  {
  }

  lemma MyCoolAppJoined(w1: string, w2: string, w3: string)
    requires w1 == "my" && w2 == "cool" && w3 == "app!"
    ensures w1 + ("-" + (w2 + ("-" + w3))) == "my-cool-app!"
  {
  }

  lemma MyCoolAppFinished(dashed: string)
    requires dashed == "my-cool-app!"
    ensures CollapseRuns(StripLeadingDotOrUnderscore(dashed), IsDisallowed) == "my-cool-app-"
  {
    var keep := dashed[..11];
    assert dashed == keep + ['!'];
    assert forall i :: 0 <= i < |keep| ==> !IsDisallowed(keep[i]);
    TrailingSymbolBecomesHyphen(keep, '!');
  }

  lemma TrailingSymbolBecomesHyphen(keep: string, c: char)
    requires keep != [] && keep[0] != '.' && keep[0] != '_'
    requires forall i :: 0 <= i < |keep| ==> !IsDisallowed(keep[i])
    requires IsDisallowed(c)
    ensures CollapseRuns(StripLeadingDotOrUnderscore(keep + [c]), IsDisallowed) == keep + "-"
  {
    assert StripLeadingDotOrUnderscore(keep + [c]) == keep + [c];
    CollapseRunsSingle(c, [], IsDisallowed);
    CollapseRunsKeepsPrefix(keep, [c], IsDisallowed);
  }

  /** A trailing `!` is not dropped: it becomes a trailing hyphen. */
  lemma SanitiseMyCoolApp(name: string)
    requires name == "My Cool App!"
    ensures ToValidPackageName(name) == "my-cool-app-"
  {
    MyCoolAppLowered(name);
    var lowered := ToLower(Trim(name));
    MyCoolAppDashed(lowered);
    MyCoolAppFinished(CollapseRuns(lowered, IsWhitespace));
  }
}
