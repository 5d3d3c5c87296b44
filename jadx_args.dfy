/** The argument list that the scanner hands to the jadx decompiler
    (apkleaks/apkleaks.py:93-97): the fixed prefix `[jadx, file, "-d", tempdir]`
    followed by the user's extra argument string cut up by
    `re.split(r"\\s|=", disarg)`.

    The raw pattern `\\s|=` matches the two characters backslash and `s`, or an
    equals sign: it does not match whitespace. `re.split` keeps empty pieces.
    When the extra argument string is missing, `re.split` raises, the exception
    is swallowed and the list keeps only its prefix. */
module JadxArgs {
  import opened Wrappers

  /** A separator of the pattern starts at index `i` of `s`. */
  predicate SeparatorAt(s: string, i: nat)
  {
    (i + 1 < |s| && s[i] == '\\' && s[i + 1] == 's') || (i < |s| && s[i] == '=')
  }

  /** `s` contains no separator of the pattern. */
  predicate Clean(s: string)
  {
    forall i: nat :: i < |s| ==> !SeparatorAt(s, i)
  }

  /** `s` contains no backslash-`s` pair, so every separator in it is `=`. */
  predicate NoBackslashS(s: string)
  {
    forall i: nat :: i + 1 < |s| ==> !(s[i] == '\\' && s[i + 1] == 's')
  }

  /** `re.split(r"\\s|=", s)`: scanning left to right, cut at every backslash-`s`
      pair and at every `=`, keeping the (possibly empty) pieces in order. */
  function Split(s: string): (pieces: seq<string>)
    ensures |pieces| >= 1
    decreases |s|
  {
    if |s| == 0 then [""]
    else if |s| >= 2 && s[0] == '\\' && s[1] == 's' then [""] + Split(s[2..])
    else if s[0] == '=' then [""] + Split(s[1..])
    else
      var rest := Split(s[1..]);
      [[s[0]] + rest[0]] + rest[1..]
  }

  /** The full argument list for the decompiler. */
  function Args(jadx: string, file: string, tempdir: string, disarg: Option<string>): (args: seq<string>)
    ensures |args| >= 4 && args[..4] == [jadx, file, "-d", tempdir]
    ensures disarg.None? ==> |args| == 4
    ensures disarg.Some? ==> |args| >= 5 && forall k :: 4 <= k < |args| ==> Clean(args[k])
    ensures disarg.Some? ==>
              |Separators(disarg.value)| == |args| - 5 &&
              JoinWith(args[4..], Separators(disarg.value)) == disarg.value
  {
    var prefix := [jadx, file, "-d", tempdir];
    match disarg
    case None => prefix
    case Some(extra) =>
      SplitPiecesClean(extra);
      SplitRebuilds(extra);
      assert (prefix + Split(extra))[4..] == Split(extra);
      prefix + Split(extra)
  }

  /** The first piece is a prefix of the input. */
  lemma {:induction false} SplitFirstIsPrefix(s: string)
    ensures |Split(s)[0]| <= |s| && Split(s)[0] == s[..|Split(s)[0]|]
    decreases |s|
  {
    if |s| > 0 && !SeparatorAt(s, 0) {
      SplitFirstIsPrefix(s[1..]);
      var first := Split(s[1..])[0];
      assert Split(s)[0] == [s[0]] + first;
      assert s[..1 + |first|] == [s[0]] + s[1..][..|first|];
    }
  }

  /** No piece that Split returns contains a separator. */
  lemma {:induction false} SplitPiecesClean(s: string)
    ensures forall k :: 0 <= k < |Split(s)| ==> Clean(Split(s)[k])
    decreases |s|
  {
    if |s| == 0 {
    } else if |s| >= 2 && s[0] == '\\' && s[1] == 's' {
      SplitPiecesClean(s[2..]);
    } else if s[0] == '=' {
      SplitPiecesClean(s[1..]);
    } else {
      SplitPiecesClean(s[1..]);
      var rest := Split(s[1..]);
      var first := [s[0]] + rest[0];
      forall i: nat | i < |first|
        ensures !SeparatorAt(first, i)
      {
        if i > 0 {
          assert !SeparatorAt(rest[0], i - 1);
        } else if |rest[0]| > 0 {
          SplitFirstIsPrefix(s[1..]);
          assert rest[0][0] == s[1];
        }
      }
      assert Split(s) == [first] + rest[1..];
    }
  }

  /** Splitting a clean piece followed by a separator (or by nothing) yields
      that piece glued to the first piece of what follows. */
  lemma {:induction false} SplitCleanPrefix(p: string, t: string)
    requires Clean(p)
    requires t == [] || SeparatorAt(t, 0)
    ensures Split(p + t) == [p + Split(t)[0]] + Split(t)[1..]
    decreases |p|
  {
    if |p| == 0 {
      var r := Split(t);
      assert p + t == t;
      assert p + r[0] == r[0];
      assert [r[0]] + r[1..] == r;
    } else {
      var s := p + t;
      var first, others := Split(t)[0], Split(t)[1..];
      CleanTail(p);
      SplitCleanPrefix(p[1..], t);
      CleanHead(p);
      NoSeparatorAtJoin(p, t);
      assert s[1..] == p[1..] + t;
      SplitStep(s, p[1..], first, others);
      assert [s[0]] + p[1..] == p;
    }
  }

  /** A clean first character followed by a separator (or nothing) starts no
      separator. */
  lemma NoSeparatorAtJoin(p: string, t: string)
    requires |p| >= 1 && p[0] != '='
    requires |p| >= 2 ==> !(p[0] == '\\' && p[1] == 's')
    requires t == [] || SeparatorAt(t, 0)
    ensures !SeparatorAt(p + t, 0) && (p + t)[0] == p[0]
  {
    var s := p + t;
    if |p| >= 2 {
      assert s[1] == p[1];
    } else if |s| >= 2 {
      assert s[1] == t[0];
    }
  }

  /** Split at a character that starts no separator: the character joins the
      first piece of what follows. */
  lemma SplitStep(s: string, a: string, first: string, others: seq<string>)
    requires |s| >= 1 && !SeparatorAt(s, 0)
    requires Split(s[1..]) == [a + first] + others
    ensures Split(s) == [[s[0]] + a + first] + others
  {
    var rest := Split(s[1..]);
    assert rest[1..] == others;
    assert [s[0]] + rest[0] == [s[0]] + a + first;
  }

  /** The first character of a clean piece starts no separator. */
  lemma CleanHead(p: string)
    requires |p| >= 1 && Clean(p)
    ensures p[0] != '=' && (|p| >= 2 ==> !(p[0] == '\\' && p[1] == 's'))
  {
    assert !SeparatorAt(p, 0);
  }

  /** Dropping the first character keeps a piece clean. */
  lemma CleanTail(p: string)
    requires |p| >= 1 && Clean(p)
    ensures Clean(p[1..])
  {
    forall i: nat | i < |p[1..]|
      ensures !SeparatorAt(p[1..], i)
    {
      assert !SeparatorAt(p, i + 1);
    }
  }

  /** The separators `re.split` cuts at, in order: each is backslash-`s` or `=`. */
  function Separators(s: string): (seps: seq<string>)
    ensures |seps| == |Split(s)| - 1
    ensures forall k :: 0 <= k < |seps| ==> seps[k] == "\\s" || seps[k] == "="
    decreases |s|
  {
    if |s| == 0 then []
    else if |s| >= 2 && s[0] == '\\' && s[1] == 's' then ["\\s"] + Separators(s[2..])
    else if s[0] == '=' then ["="] + Separators(s[1..])
    else Separators(s[1..])
  }

  /** Pieces glued back together, with `seps[k]` between piece `k` and piece
      `k + 1`. */
  function JoinWith(pieces: seq<string>, seps: seq<string>): (joined: string)
    requires |pieces| >= 1 && |seps| == |pieces| - 1
  {
    if |pieces| == 1 then pieces[0]
    else pieces[0] + seps[0] + JoinWith(pieces[1..], seps[1..])
  }

  /** `n` equals signs, the separators of an `=`-joined list. */
  function AllEquals(n: nat): (seps: seq<string>)
    ensures |seps| == n && forall k :: 0 <= k < n ==> seps[k] == "="
  {
    seq(n, _ => "=")
  }

  /** The pieces glued back together with `=`, as `"=".join(pieces)`. */
  function Join(pieces: seq<string>): (joined: string)
  {
    if pieces == [] then "" else JoinWith(pieces, AllEquals(|pieces| - 1))
  }

  /** Round trip: clean pieces joined with `=` split back into themselves. */
  lemma SplitJoin(pieces: seq<string>)
    requires |pieces| >= 1
    requires forall k :: 0 <= k < |pieces| ==> Clean(pieces[k])
    ensures Split(Join(pieces)) == pieces
  {
    SplitJoinWith(pieces, AllEquals(|pieces| - 1));
  }

  /** Round trip the other way: a string without a backslash-`s` pair is
      recovered by joining its pieces with `=`. */
  lemma JoinSplit(s: string)
    requires NoBackslashS(s)
    ensures Join(Split(s)) == s
  {
    SplitRebuilds(s);
    SeparatorsAllEquals(s);
    assert Separators(s) == AllEquals(|Split(s)| - 1);
  }

  /** Without a backslash-`s` pair, every separator found is `=`. */
  lemma {:induction false} SeparatorsAllEquals(s: string)
    requires NoBackslashS(s)
    ensures forall k :: 0 <= k < |Separators(s)| ==> Separators(s)[k] == "="
    decreases |s|
  {
    if |s| > 0 {
      assert NoBackslashS(s[1..]) by {
        forall i: nat | i + 1 < |s[1..]|
          ensures !(s[1..][i] == '\\' && s[1..][i + 1] == 's')
        {
          assert !(s[i + 1] == '\\' && s[i + 2] == 's');
        }
      }
      SeparatorsAllEquals(s[1..]);
      assert !(|s| >= 2 && s[0] == '\\' && s[1] == 's');
    }
  }

  /** Nothing is lost: the pieces, glued back with the separators found between
      them, rebuild the input. A backslash-`s` cuts just like `=`. */
  lemma {:induction false} SplitRebuilds(s: string)
    ensures JoinWith(Split(s), Separators(s)) == s
    decreases |s|
  {
    if |s| == 0 {
    } else if |s| >= 2 && s[0] == '\\' && s[1] == 's' {
      SplitRebuilds(s[2..]);
      assert s == "\\s" + s[2..];
      RebuildAfterSeparator("\\s", s[2..]);
    } else if s[0] == '=' {
      SplitRebuilds(s[1..]);
      assert s == "=" + s[1..];
      RebuildAfterSeparator("=", s[1..]);
    } else {
      SplitRebuilds(s[1..]);
      var rest := Split(s[1..]);
      assert Split(s) == [[s[0]] + rest[0]] + rest[1..];
      JoinWithKeep(s[0], rest, Separators(s[1..]));
      assert s == [s[0]] + s[1..];
    }
  }

  /** A separator in front of a rebuilt string is rebuilt too. */
  lemma RebuildAfterSeparator(sep: string, r: string)
    requires sep == "\\s" || sep == "="
    requires JoinWith(Split(r), Separators(r)) == r
    ensures JoinWith(Split(sep + r), Separators(sep + r)) == sep + r
  {
    var t := sep + r;
    assert t[|sep|..] == r;
    SplitAfterSeparator(sep, r);
    assert Separators(t) == [sep] + Separators(r);
    JoinWithCons("", sep, Split(r), Separators(r));
    assert "" + sep + r == t;
  }

  /** JoinWith of a piece in front of at least one more. */
  lemma JoinWithCons(p: string, sep: string, rest: seq<string>, seps: seq<string>)
    requires |rest| >= 1 && |seps| == |rest| - 1
    ensures JoinWith([p] + rest, [sep] + seps) == p + sep + JoinWith(rest, seps)
  {
    assert ([p] + rest)[1..] == rest;
    assert ([sep] + seps)[1..] == seps;
  }

  /** JoinWith of pieces whose first piece starts with `c`. */
  lemma JoinWithKeep(c: char, pieces: seq<string>, seps: seq<string>)
    requires |pieces| >= 1 && |seps| == |pieces| - 1
    ensures JoinWith([[c] + pieces[0]] + pieces[1..], seps) == [c] + JoinWith(pieces, seps)
  {
    var head := [c] + pieces[0];
    if |pieces| > 1 {
      var tail := pieces[1..];
      assert [seps[0]] + seps[1..] == seps;
      JoinWithCons(head, seps[0], tail, seps[1..]);
      JoinWithCons(pieces[0], seps[0], tail, seps[1..]);
      assert [pieces[0]] + tail == pieces;
      GlueAssoc(c, pieces[0], seps[0], JoinWith(tail, seps[1..]));
    } else {
      assert JoinWith([head], seps) == head;
      assert JoinWith(pieces, seps) == pieces[0];
    }
  }

  /** Conversely, clean pieces glued with any separators split back into
      exactly those pieces, so `Split(s)` is the only clean decomposition of
      `s` at separators. */
  lemma {:induction false} SplitJoinWith(pieces: seq<string>, seps: seq<string>)
    requires |pieces| >= 1 && |seps| == |pieces| - 1
    requires forall k :: 0 <= k < |pieces| ==> Clean(pieces[k])
    requires forall k :: 0 <= k < |seps| ==> seps[k] == "\\s" || seps[k] == "="
    ensures Split(JoinWith(pieces, seps)) == pieces
    decreases |pieces|
  {
    if |pieces| == 1 {
      SplitCleanPrefix(pieces[0], "");
      assert pieces[0] + "" == pieces[0];
    } else {
      var tail := JoinWith(pieces[1..], seps[1..]);
      var t := seps[0] + tail;
      assert SeparatorAt(t, 0) && Split(t) == [""] + pieces[1..] by {
        SplitJoinWith(pieces[1..], seps[1..]);
        SplitAfterSeparator(seps[0], tail);
      }
      assert JoinWith(pieces, seps) == pieces[0] + t by {
        JoinWithCons(pieces[0], seps[0], pieces[1..], seps[1..]);
        assert [pieces[0]] + pieces[1..] == pieces;
        assert [seps[0]] + seps[1..] == seps;
        assert pieces[0] + seps[0] + tail == pieces[0] + t;
      }
      assert Split(pieces[0] + t) == [pieces[0]] + pieces[1..] by {
        SplitCleanPrefix(pieces[0], t);
        assert pieces[0] + "" == pieces[0];
      }
      assert [pieces[0]] + pieces[1..] == pieces;
    }
  }

  /** A separator in front cuts off an empty piece. */
  lemma SplitAfterSeparator(sep: string, tail: string)
    requires sep == "\\s" || sep == "="
    ensures SeparatorAt(sep + tail, 0)
    ensures Split(sep + tail) == [""] + Split(tail)
  {
    var t := sep + tail;
    assert t[|sep|..] == tail;
  }

  /** A literal backslash-`s` cuts like `=`. */
  lemma BackslashSSplits()
    ensures Split("-j\\s4=x") == ["-j", "4", "x"]
  {
    var pieces := ["-j", "4", "x"];
    assert Clean("-j") by {
      forall i: nat | i < 2
        ensures !SeparatorAt("-j", i)
      {
      }
    }
    assert Clean("4") && Clean("x");
    SplitJoinWith(pieces, ["\\s", "="]);
    assert JoinWith(pieces, ["\\s", "="]) == "-j\\s4=x";
  }

  /** Regrouping a leading character. */
  lemma GlueAssoc(c: char, p: string, sep: string, t: string)
    ensures [c] + p + sep + t == [c] + (p + sep + t)
  {
  }

  /** When the extra argument string is `=`-separated clean words, the
      decompiler receives exactly the prefix followed by those words. */
  lemma ArgsOfJoinedWords(jadx: string, file: string, tempdir: string, words: seq<string>)
    requires |words| >= 1
    requires forall k :: 0 <= k < |words| ==> Clean(words[k])
    ensures Args(jadx, file, tempdir, Some(Join(words))) == [jadx, file, "-d", tempdir] + words
  {
    SplitJoin(words);
  }

  /** Whitespace does not separate: an argument string with spaces and no
      separator reaches the decompiler as one argument. */
  lemma WhitespaceNotSplit()
    ensures Split("-j 4") == ["-j 4"]
  {
    var s := "-j 4";
    assert Clean(s) by {
      forall i: nat | i < |s|
        ensures !SeparatorAt(s, i)
      {
        assert s[i] in {'-', 'j', ' ', '4'};
      }
    }
    SplitJoin([s]);
  }
}
