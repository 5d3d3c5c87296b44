/** The false-positive filter and quote stripping that the scanner applies to
    matches of the rule named "LinkFinder" (apkleaks/apkleaks.py:123-126).

    The filter is the Python regular expression
      ^.(L[a-z]|application|audio|fonts|image|kotlin|layout|multipart|plain|text|video).*\/.+
    tried with re.match, so it is anchored at the start and need not reach the
    end; without DOTALL every `.` stands for any character but a newline. */
module LinkFinder {

  /** The name of the rule whose matches are filtered and stripped. */
  const RuleName: string := "LinkFinder"

  /** The literal alternatives of the regular expression's group. */
  const Words: seq<string> :=
    ["application", "audio", "fonts", "image", "kotlin", "layout",
     "multipart", "plain", "text", "video"]

  /** `w` occurs in `s` starting at index `i`. */
  predicate StartsWith(s: string, i: nat, w: string)
  {
    i + |w| <= |s| && s[i..i + |w|] == w
  }

  /** No newline among `s[i..j]`: what `.*` can consume. */
  ghost predicate NoNewline(s: string, i: nat, j: nat)
  {
    forall k :: i <= k < j && k < |s| ==> s[k] != '\n'
  }

  /** A slash at `j`, followed by at least one non-newline character: what
      `\/.+` needs at index `j`. */
  ghost predicate SlashAt(s: string, j: nat)
  {
    j + 1 < |s| && s[j] == '/' && s[j + 1] != '\n'
  }

  /** What `.*\/.+` accepts from index `i` on: a slash reached without
      crossing a newline and followed by at least one non-newline character.
      This is the regular expression's meaning, stated as an existential. */
  ghost predicate SlashReachable(s: string, i: nat)
  {
    exists j: nat :: i <= j && SlashAt(s, j) && NoNewline(s, i, j)
  }

  /** The whole regular expression, alternative by alternative. */
  ghost predicate MatchesNoisePattern(s: string)
  {
    |s| >= 1 && s[0] != '\n' &&
    ((|s| >= 3 && s[1] == 'L' && 'a' <= s[2] <= 'z' && SlashReachable(s, 3)) ||
     (exists w :: w in Words && StartsWith(s, 1, w) && SlashReachable(s, 1 + |w|)))
  }

  /** Executable scan for `.*\/.+` from index `i`: walk right until a newline
      stops the walk or a slash with a non-newline successor is found. */
  function SlashAhead(s: string, i: nat): bool
    decreases |s| - i
  {
    if i + 1 >= |s| then false
    else if s[i] == '\n' then false
    else if s[i] == '/' && s[i + 1] != '\n' then true
    else SlashAhead(s, i + 1)
  }

  /** The filter as the scanner evaluates it: true when the match is dropped. */
  predicate IsNoise(s: string)
  {
    |s| >= 1 && s[0] != '\n' &&
    ((|s| >= 3 && s[1] == 'L' && 'a' <= s[2] <= 'z' && SlashAhead(s, 3)) ||
     (exists w :: w in Words && StartsWith(s, 1, w) && SlashAhead(s, 1 + |w|)))
  }

  /** Python's `secret[1:-1]`: drop the first and the last character; a string
      shorter than two characters becomes empty. */
  function Strip(s: string): (r: string)
    ensures |s| >= 2 ==> s == [s[0]] + r + [s[|s| - 1]]
    ensures |s| < 2 ==> r == ""
  {
    if |s| < 2 then "" else s[1..|s| - 1]
  }

  /** The executable slash scan decides exactly the regular expression's tail. */
  lemma {:induction false} SlashAheadIsRegex(s: string, i: nat)
    ensures SlashAhead(s, i) <==> SlashReachable(s, i)
    decreases |s| - i
  {
    if i + 1 >= |s| {
    } else if s[i] == '\n' {
      forall j: nat | i <= j && SlashAt(s, j)
        ensures !NoNewline(s, i, j)
      {
        assert i < j && s[i] == '\n';
      }
    } else if s[i] == '/' && s[i + 1] != '\n' {
      assert SlashAt(s, i) && NoNewline(s, i, i);
    } else {
      SlashAheadIsRegex(s, i + 1);
      if SlashReachable(s, i) {
        var j: nat :| i <= j && SlashAt(s, j) && NoNewline(s, i, j);
        assert j != i;
        assert NoNewline(s, i + 1, j);
      }
      if SlashReachable(s, i + 1) {
        var j: nat :| i + 1 <= j && SlashAt(s, j) && NoNewline(s, i + 1, j);
        assert NoNewline(s, i, j);
      }
    }
  }

  /** The filter the scanner evaluates drops a match exactly when the regular
      expression matches it. */
  lemma IsNoiseIsRegex(s: string)
    ensures IsNoise(s) <==> MatchesNoisePattern(s)
  {
    SlashAheadIsRegex(s, 3);
    forall w | w in Words
      ensures SlashAhead(s, 1 + |w|) <==> SlashReachable(s, 1 + |w|)
    {
      SlashAheadIsRegex(s, 1 + |w|);
    }
  }

  /** Stripping undoes the wrapping of a string in any two delimiters, such as
      the quotes the decompiler leaves around a string literal. */
  lemma StripUnwraps(open: char, m: string, close: char)
    ensures Strip([open] + m + [close]) == m
  {
    var s := [open] + m + [close];
    assert s[1..|s| - 1] == m;
  }

  /** A content type from a decompiled string literal is dropped. */
  lemma ContentTypeDropped()
    ensures IsNoise("'application/json; charset=utf-8'")
  {
    var noise := "'application/json; charset=utf-8'";
    var w := Words[0];
    assert noise == "'" + w + "/json; charset=utf-8'";
    assert StartsWith(noise, 1, w) by {
      assert noise[1..12] == w;
    }
    assert noise[12] == '/' && noise[13] == 'j';
    assert SlashAhead(noise, 1 + |w|);
  }

  /** An endpoint is kept and loses its quotes. */
  lemma EndpointKept()
    ensures !IsNoise("'https://api.example.com/v1/login'")
  {
    var link := "'https://api.example.com/v1/login'";
    assert link[1] == 'h';
    forall w | w in Words
      ensures !StartsWith(link, 1, w)
    {
      assert w[0] != 'h';
      if 1 + |w| <= |link| {
        assert link[1..1 + |w|][0] == 'h';
      }
    }
  }

  /** The kept endpoint is emitted without its quotes. */
  lemma EndpointUnquoted()
    ensures Strip("'https://api.example.com/v1/login'") == "https://api.example.com/v1/login"
  {
    var link := "https://api.example.com/v1/login";
    assert "'https://api.example.com/v1/login'" == ['\''] + link + ['\''];
    StripUnwraps('\'', link, '\'');
  }
}
