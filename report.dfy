/** What one `extract` call and one whole `scanning` pass produce, as functions
    of their inputs (apkleaks/apkleaks.py:117-155). The class in module ApkLeaks
    is proved to change its state exactly as these functions say.

    A rule maps a name to one pattern or to a list of patterns. Scanning turns
    the rules into calls `(name, pattern)` in the rule file's order, asks the
    tree searcher for the matches of each pattern, and hands every
    `(name, matches)` batch to `extract`. */
module Report {
  import LinkFinder

  /** The value of a rule in the rule file: one pattern, or a list of them. */
  datatype RuleValue = Scalar(pattern: string) | List(patterns: seq<string>)

  datatype Rule = Rule(name: string, value: RuleValue)

  /** One search the scanner starts: a rule name and one of its patterns. */
  datatype Call = Call(name: string, pattern: string)

  /** The arguments of one `extract` call: a rule name and the raw matches. */
  datatype Batch = Batch(name: string, matches: seq<string>)

  /** One entry of the structured report's `results` list. */
  datatype RuleResult = RuleResult(name: string, matches: seq<string>)

  // ---------------------------------------------------------------------------
  // extract: what is written to the output stream and what is recorded
  // ---------------------------------------------------------------------------

  /** What one raw match contributes to the text output: LinkFinder matches
      that the filter drops contribute nothing, the others are stripped of
      their first and last character; other rules' matches are kept verbatim. */
  function EmitOne(name: string, secret: string): (r: seq<string>)
    ensures |r| <= 1
    ensures name != LinkFinder.RuleName ==> r == [secret]
    ensures name == LinkFinder.RuleName ==>
              (r == [] <==> LinkFinder.IsNoise(secret)) &&
              (r != [] ==> r[0] == LinkFinder.Strip(secret))
  {
    if name == LinkFinder.RuleName then
      if LinkFinder.IsNoise(secret) then [] else [LinkFinder.Strip(secret)]
    else [secret]
  }

  /** The secrets `extract` writes for a list of raw matches, in input order. */
  function Emitted(name: string, matches: seq<string>): (r: seq<string>)
    ensures |r| <= |matches|
    decreases |matches|
  {
    if matches == [] then []
    else Emitted(name, matches[..|matches| - 1]) + EmitOne(name, matches[|matches| - 1])
  }

  /** One write to the output file: `text` and a newline in text mode, the empty
      string in JSON mode. */
  function Line(json: bool, text: string): (line: string)
  {
    if json then "" else text + "\n"
  }

  /** The `- <secret>` writes for the emitted secrets. */
  function SecretLines(json: bool, secrets: seq<string>): (r: seq<string>)
    ensures |r| == |secrets|
  {
    seq(|secrets|, k requires 0 <= k < |secrets| => Line(json, "- " + secrets[k]))
  }

  /** Every write of one `extract(name, matches)` call, in order. */
  function ExtractWrites(json: bool, name: string, matches: seq<string>): (writes: seq<string>)
  {
    if matches == [] then []
    else [Line(json, "[" + name + "]")] + SecretLines(json, Emitted(name, matches)) + [Line(json, "")]
  }

  /** What one `extract(name, matches)` call appends to the report's results:
      the raw matches under the rule's name, when there are any. */
  function ExtractResults(name: string, matches: seq<string>): (r: seq<RuleResult>)
    ensures |r| == if matches == [] then 0 else 1
    ensures r != [] ==> r[0].name == name && r[0].matches == matches
  {
    if matches == [] then [] else [RuleResult(name, matches)]
  }

  // ---------------------------------------------------------------------------
  // scanning: rules to calls to batches
  // ---------------------------------------------------------------------------

  /** The calls one rule issues: one per list element, or one for a scalar. */
  function Expand(rule: Rule): (calls: seq<Call>)
    ensures rule.value.Scalar? ==> calls == [Call(rule.name, rule.value.pattern)]
    ensures |calls| == PatternCount(rule.value)
    ensures forall k :: 0 <= k < |calls| ==> calls[k].name == rule.name
  {
    match rule.value
    case Scalar(p) => [Call(rule.name, p)]
    case List(ps) => seq(|ps|, k requires 0 <= k < |ps| => Call(rule.name, ps[k]))
  }

  /** The number of patterns a rule value holds. */
  function PatternCount(value: RuleValue): (n: nat)
  {
    match value
    case Scalar(_) => 1
    case List(ps) => |ps|
  }

  /** The number of calls a rule set issues. */
  function CallCount(rules: seq<Rule>): (n: nat)
  {
    if rules == [] then 0
    else CallCount(rules[..|rules| - 1]) + PatternCount(rules[|rules| - 1].value)
  }

  /** All calls of a rule set, rule by rule in the rule file's order. */
  function Flatten(rules: seq<Rule>): (calls: seq<Call>)
    ensures |calls| == CallCount(rules)
    decreases |rules|
  {
    if rules == [] then []
    else Flatten(rules[..|rules| - 1]) + Expand(rules[|rules| - 1])
  }

  /** The `extract` arguments for a sequence of calls, each pattern searched
      by `finder` under the decompiled directory `dir`. */
  function BatchesOf(calls: seq<Call>, finder: (string, string) -> seq<string>, dir: string): (bs: seq<Batch>)
    ensures |bs| == |calls|
  {
    seq(|calls|, k requires 0 <= k < |calls| => Batch(calls[k].name, finder(calls[k].pattern, dir)))
  }

  /** The `extract` arguments of a whole scanning pass, in dispatch order. */
  function Batches(rules: seq<Rule>, finder: (string, string) -> seq<string>, dir: string): (bs: seq<Batch>)
  {
    BatchesOf(Flatten(rules), finder, dir)
  }

  /** The report's results after `extract` ran on every batch in order. */
  function Aggregate(bs: seq<Batch>): (r: seq<RuleResult>)
    ensures |r| <= |bs|
    ensures forall k :: 0 <= k < |r| ==> r[k].matches != []
    decreases |bs|
  {
    if bs == [] then []
    else Aggregate(bs[..|bs| - 1]) + ExtractResults(bs[|bs| - 1].name, bs[|bs| - 1].matches)
  }

  /** Everything written to the output stream by `extract` on every batch. */
  function AllWrites(json: bool, bs: seq<Batch>): (writes: seq<string>)
    decreases |bs|
  {
    if bs == [] then []
    else AllWrites(json, bs[..|bs| - 1]) + ExtractWrites(json, bs[|bs| - 1].name, bs[|bs| - 1].matches)
  }

  /** Some batch has at least one raw match. */
  predicate AnyMatch(bs: seq<Batch>)
  {
    exists k :: 0 <= k < |bs| && bs[k].matches != []
  }

  /** The text the output stream holds after a sequence of writes. */
  function Concat(writes: seq<string>): (text: string)
  {
    if writes == [] then "" else Concat(writes[..|writes| - 1]) + writes[|writes| - 1]
  }

  // ---------------------------------------------------------------------------
  // Lemmas
  // ---------------------------------------------------------------------------

  /** The layout of one `extract` call's writes: nothing without a match;
      otherwise the header `[name]`, one `- <secret>` line per emitted secret
      in order, and a blank line, each the empty string in JSON mode. */
  lemma ExtractWritesLayout(json: bool, name: string, matches: seq<string>)
    ensures matches == [] ==> ExtractWrites(json, name, matches) == []
    ensures matches != [] ==>
              var r := ExtractWrites(json, name, matches);
              var secrets := Emitted(name, matches);
              && |r| == |secrets| + 2
              && r[0] == (if json then "" else "[" + name + "]" + "\n")
              && r[|r| - 1] == (if json then "" else "\n")
              && forall k :: 0 <= k < |secrets| ==> r[k + 1] == (if json then "" else "- " + secrets[k] + "\n")
  {
    if matches != [] {
      var secrets := Emitted(name, matches);
      var lines := SecretLines(json, secrets);
      var r := [Line(json, "[" + name + "]")] + lines + [Line(json, "")];
      assert ExtractWrites(json, name, matches) == r;
      assert r[|r| - 1] == Line(json, "");
      forall k | 0 <= k < |secrets|
        ensures r[k + 1] == (if json then "" else "- " + secrets[k] + "\n")
      {
        assert r[k + 1] == lines[k];
      }
    }
  }

  /** Regrouping of three consecutive runs of writes or calls. */
  lemma ConcatAssoc<T>(a: seq<T>, b: seq<T>, c: seq<T>)
    ensures a + b + c == a + (b + c)
  {
  }

  /** Regrouping of the writes `extract` makes. */
  lemma RegroupWrites<T>(before: seq<T>, header: T, middle: seq<T>, footer: T)
    ensures before + [header] + middle + [footer] == before + ([header] + middle + [footer])
  {
  }

  /** The secrets of two lists of matches are the secrets of each, in order. */
  lemma {:induction false} EmittedAppend(name: string, a: seq<string>, b: seq<string>)
    ensures Emitted(name, a + b) == Emitted(name, a) + Emitted(name, b)
    decreases |b|
  {
    if b == [] {
      assert a + b == a;
    } else {
      var b' := b[..|b| - 1];
      assert (a + b)[..|a + b| - 1] == a + b';
      EmittedAppend(name, a, b');
    }
  }

  /** Rules other than LinkFinder emit every raw match verbatim. */
  lemma {:induction false} EmittedVerbatim(name: string, matches: seq<string>)
    requires name != LinkFinder.RuleName
    ensures Emitted(name, matches) == matches
    decreases |matches|
  {
    if matches != [] {
      var init := matches[..|matches| - 1];
      EmittedVerbatim(name, init);
      assert EmitOne(name, matches[|matches| - 1]) == [matches[|matches| - 1]];
      assert init + [matches[|matches| - 1]] == matches;
    }
  }

  /** For LinkFinder, the emitted secrets are exactly the stripped matches that
      the filter keeps: each comes from a kept match, and each kept match
      appears. */
  lemma {:induction false} EmittedLinkFinder(matches: seq<string>)
    ensures forall e :: e in Emitted(LinkFinder.RuleName, matches) ==>
              exists m :: m in matches && !LinkFinder.IsNoise(m) && e == LinkFinder.Strip(m)
    ensures forall m :: m in matches && !LinkFinder.IsNoise(m) ==>
              LinkFinder.Strip(m) in Emitted(LinkFinder.RuleName, matches)
    decreases |matches|
  {
    if matches != [] {
      var init := matches[..|matches| - 1];
      var last := matches[|matches| - 1];
      EmittedLinkFinder(init);
      assert matches == init + [last];
      forall m | m in matches
        ensures m in init || m == last
      {
      }
    }
  }

  /** The quirk of `extract`: a LinkFinder batch whose every match is dropped
      writes only its header and blank line, yet records the raw matches and
      therefore counts as a finding. */
  lemma {:induction false} AllNoiseStillRecorded(json: bool, matches: seq<string>)
    requires matches != []
    requires forall k :: 0 <= k < |matches| ==> LinkFinder.IsNoise(matches[k])
    ensures Emitted(LinkFinder.RuleName, matches) == []
    ensures ExtractWrites(json, LinkFinder.RuleName, matches) ==
              [Line(json, "[" + LinkFinder.RuleName + "]"), Line(json, "")]
    ensures ExtractResults(LinkFinder.RuleName, matches) == [RuleResult(LinkFinder.RuleName, matches)]
  {
    AllNoiseEmitsNothing(matches);
  }

  lemma {:induction false} AllNoiseEmitsNothing(matches: seq<string>)
    requires forall k :: 0 <= k < |matches| ==> LinkFinder.IsNoise(matches[k])
    ensures Emitted(LinkFinder.RuleName, matches) == []
    decreases |matches|
  {
    if matches != [] {
      AllNoiseEmitsNothing(matches[..|matches| - 1]);
    }
  }

  /** A rule given as one pattern issues the same calls as the same rule given
      as a one-element list. */
  lemma ScalarIsSingletonList(name: string, p: string)
    ensures Expand(Rule(name, Scalar(p))) == Expand(Rule(name, List([p])))
  {
  }

  /** The calls of two rule sets in sequence are the calls of each, in order. */
  lemma {:induction false} FlattenAppend(a: seq<Rule>, b: seq<Rule>)
    ensures Flatten(a + b) == Flatten(a) + Flatten(b)
    decreases |b|
  {
    if b == [] {
      assert a + b == a;
    } else {
      var b' := b[..|b| - 1];
      var last := b[|b| - 1];
      assert (a + b)[..|a + b| - 1] == a + b';
      assert (a + b)[|a + b| - 1] == last;
      FlattenAppend(a, b');
      assert Flatten(a + b) == Flatten(a + b') + Expand(last);
      assert Flatten(b) == Flatten(b') + Expand(last);
      ConcatAssoc(Flatten(a), Flatten(b'), Expand(last));
    }
  }

  /** The results of two runs of batches in sequence are the results of each,
      in order: results are appended in dispatch order and never reordered. */
  lemma {:induction false} AggregateAppend(a: seq<Batch>, b: seq<Batch>)
    ensures Aggregate(a + b) == Aggregate(a) + Aggregate(b)
    decreases |b|
  {
    if b == [] {
      assert a + b == a;
    } else {
      var b' := b[..|b| - 1];
      assert (a + b)[..|a + b| - 1] == a + b';
      AggregateAppend(a, b');
    }
  }

  /** The report lists exactly the batches with at least one raw match: each
      result comes from such a batch, and each such batch has a result. */
  lemma {:induction false} AggregateExactly(bs: seq<Batch>)
    ensures forall r :: r in Aggregate(bs) ==>
              exists k :: 0 <= k < |bs| && bs[k].matches != [] && r == RuleResult(bs[k].name, bs[k].matches)
    ensures forall k :: 0 <= k < |bs| && bs[k].matches != [] ==>
              RuleResult(bs[k].name, bs[k].matches) in Aggregate(bs)
    decreases |bs|
  {
    if bs != [] {
      var init := bs[..|bs| - 1];
      AggregateExactly(init);
      forall r | r in Aggregate(bs)
        ensures exists k :: 0 <= k < |bs| && bs[k].matches != [] && r == RuleResult(bs[k].name, bs[k].matches)
      {
        if r in Aggregate(init) {
          var k :| 0 <= k < |init| && init[k].matches != [] && r == RuleResult(init[k].name, init[k].matches);
          assert bs[k] == init[k];
        } else {
          assert r == RuleResult(bs[|bs| - 1].name, bs[|bs| - 1].matches);
        }
      }
      forall k | 0 <= k < |bs| && bs[k].matches != []
        ensures RuleResult(bs[k].name, bs[k].matches) in Aggregate(bs)
      {
        if k < |bs| - 1 {
          assert bs[k] == init[k];
        }
      }
    }
  }

  /** The report is non-empty exactly when some batch had a raw match; this is
      when `scanned` becomes true. */
  lemma {:induction false} AggregateNonEmpty(bs: seq<Batch>)
    ensures Aggregate(bs) != [] <==> AnyMatch(bs)
    decreases |bs|
  {
    if bs != [] {
      var init := bs[..|bs| - 1];
      AggregateNonEmpty(init);
      if AnyMatch(init) {
        var k :| 0 <= k < |init| && init[k].matches != [];
        assert bs[k] == init[k];
      }
      if AnyMatch(bs) && bs[|bs| - 1].matches == [] {
        var k :| 0 <= k < |bs| && bs[k].matches != [];
        assert init[k] == bs[k];
      }
    }
  }

  /** Without a single raw match nothing is written to the output stream. */
  lemma {:induction false} NoMatchNoWrites(json: bool, bs: seq<Batch>)
    requires !AnyMatch(bs)
    ensures AllWrites(json, bs) == []
    decreases |bs|
  {
    if bs != [] {
      var init := bs[..|bs| - 1];
      assert !AnyMatch(init) by {
        forall k | 0 <= k < |init|
          ensures init[k].matches == []
        {
          assert bs[k] == init[k];
        }
      }
      NoMatchNoWrites(json, init);
      assert bs[|bs| - 1].matches == [];
    }
  }

  /** In JSON mode every write of the scanning pass is empty, so the file ends
      up holding only the document written at cleanup. */
  lemma {:induction false} JsonModeWritesNothing(bs: seq<Batch>)
    ensures Concat(AllWrites(true, bs)) == ""
    decreases |bs|
  {
    if bs != [] {
      var init := bs[..|bs| - 1];
      var last := bs[|bs| - 1];
      JsonModeWritesNothing(init);
      var w := ExtractWrites(true, last.name, last.matches);
      assert AllWrites(true, bs) == AllWrites(true, init) + w;
      JsonWritesEmpty(last.name, last.matches);
      ConcatOfEmpties(w);
      ConcatAppend(AllWrites(true, init), w);
    }
  }

  /** In JSON mode each write of `extract` is the empty string. */
  lemma JsonWritesEmpty(name: string, matches: seq<string>)
    ensures forall k :: 0 <= k < |ExtractWrites(true, name, matches)| ==> ExtractWrites(true, name, matches)[k] == ""
  {
    if matches != [] {
      var lines := SecretLines(true, Emitted(name, matches));
      assert forall k :: 0 <= k < |lines| ==> lines[k] == "";
    }
  }

  lemma {:induction false} ConcatOfEmpties(ws: seq<string>)
    requires forall k :: 0 <= k < |ws| ==> ws[k] == ""
    ensures Concat(ws) == ""
    decreases |ws|
  {
    if ws != [] {
      ConcatOfEmpties(ws[..|ws| - 1]);
    }
  }

  lemma {:induction false} ConcatAppend(a: seq<string>, b: seq<string>)
    ensures Concat(a + b) == Concat(a) + Concat(b)
    decreases |b|
  {
    if b == [] {
      assert a + b == a;
    } else {
      var b' := b[..|b| - 1];
      assert (a + b)[..|a + b| - 1] == a + b';
      ConcatAppend(a, b');
    }
  }

  /** One more call appends one batch: the batch of that call's pattern. */
  lemma BatchesStep(calls: seq<Call>, c: Call, finder: (string, string) -> seq<string>, dir: string)
    ensures BatchesOf(calls + [c], finder, dir) ==
              BatchesOf(calls, finder, dir) + [Batch(c.name, finder(c.pattern, dir))]
  {
  }

  /** What one more `extract` call adds to the results, to the writes and to
      the `scanned` condition. */
  lemma ExtractStep(json: bool, bs: seq<Batch>, b: Batch)
    ensures Aggregate(bs + [b]) == Aggregate(bs) + ExtractResults(b.name, b.matches)
    ensures AllWrites(json, bs + [b]) == AllWrites(json, bs) + ExtractWrites(json, b.name, b.matches)
    ensures AnyMatch(bs + [b]) <==> AnyMatch(bs) || b.matches != []
  {
    assert (bs + [b])[..|bs|] == bs;
    if AnyMatch(bs) {
      var k :| 0 <= k < |bs| && bs[k].matches != [];
      assert (bs + [b])[k] == bs[k];
    }
    if AnyMatch(bs + [b]) && b.matches == [] {
      var k :| 0 <= k < |bs + [b]| && (bs + [b])[k].matches != [];
      assert bs[k] == (bs + [b])[k];
    }
  }

  /** Emitting one more match of a list extends the emitted secrets by what
      that match contributes. */
  lemma EmittedPrefix(name: string, matches: seq<string>, i: nat)
    requires i < |matches|
    ensures Emitted(name, matches[..i + 1]) == Emitted(name, matches[..i]) + EmitOne(name, matches[i])
  {
    assert matches[..i + 1][..i] == matches[..i];
  }

  lemma SecretLinesAppend(json: bool, a: seq<string>, b: seq<string>)
    ensures SecretLines(json, a + b) == SecretLines(json, a) + SecretLines(json, b)
  {
  }

  /** The calls of a list-valued rule, one pattern more. */
  lemma ExpandListStep(name: string, ps: seq<string>, j: nat)
    requires j < |ps|
    ensures Expand(Rule(name, List(ps)))[..j + 1] == Expand(Rule(name, List(ps)))[..j] + [Call(name, ps[j])]
  {
    var calls := Expand(Rule(name, List(ps)));
    assert calls[j] == Call(name, ps[j]);
  }

  /** The calls of the first `i + 1` rules are those of the first `i` rules
      followed by those of rule `i`. */
  lemma FlattenStep(rules: seq<Rule>, i: nat)
    requires i < |rules|
    ensures Flatten(rules[..i + 1]) == Flatten(rules[..i]) + Expand(rules[i])
  {
    assert rules[..i + 1][..i] == rules[..i];
  }
}
