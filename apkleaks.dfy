/** The result-aggregation state of the scanner (class `APKLeaks` in
    apkleaks/apkleaks.py): the structured report `out_json`, the `scanned`
    flag and the output file, and the three operations that change them —
    `extract`, `scanning` and the final decision of `cleanup`.

    The output file is the sequence of strings passed to its `write` calls.
    The tree searcher, the JSON serialiser and the outcome of each attempt to
    delete the output file are parameters. The scan threads are run one after
    the other, in the order in which `scanning` starts them. */
module ApkLeaks {
  import opened Wrappers
  import opened Report

  /** The dictionary `out_json`: empty until scanning starts, then holding the
      package name and the results list. */
  datatype OutJson = Empty | Document(package: string, results: seq<RuleResult>)

  /** The outcome of one `os.remove` of the output file: it succeeds, it raises
      `PermissionError` (caught, retried after a pause), or it raises any other
      error (not caught: it leaves `cleanup`). */
  datatype RemoveOutcome = Removed | PermissionDenied | OtherError

  /** What `cleanup` decided: the report was kept, or the empty output file was
      discarded after `attempts` removal attempts, the last of which had the
      outcome `last`. */
  datatype CleanupResult = Saved | Discarded(attempts: nat, last: RemoveOutcome)

  /** The number of times `cleanup` tries to delete an empty output file. */
  const RemoveAttempts: nat := 5

  /** The removal loop stopped after `attempts` attempts with outcome `last`:
      every earlier attempt was refused with a permission error, and it stopped
      early only because an attempt succeeded or raised another error. */
  predicate SettledAfter(tryRemove: nat -> RemoveOutcome, attempts: nat, last: RemoveOutcome)
  {
    && 1 <= attempts <= RemoveAttempts
    && last == tryRemove(attempts - 1)
    && (forall k: nat :: k < attempts - 1 ==> tryRemove(k) == PermissionDenied)
    && (attempts < RemoveAttempts ==> last != PermissionDenied)
  }

  /** The retry loop of `cleanup` (apkleaks/apkleaks.py:208-213): try to delete
      the output file at most five times, stopping at the first attempt that
      does not raise `PermissionError`. `tryRemove(k)` is the outcome of the
      attempt numbered `k`. */
  method RemoveOutput(tryRemove: nat -> RemoveOutcome) returns (attempts: nat, last: RemoveOutcome)
    ensures SettledAfter(tryRemove, attempts, last)
  {
    attempts, last := 0, PermissionDenied;
    for k := 0 to RemoveAttempts
      invariant attempts == k
      invariant forall j: nat :: j < k ==> tryRemove(j) == PermissionDenied
      invariant k > 0 ==> last == tryRemove(k - 1)
    {
      last := tryRemove(k);
      attempts := k + 1;
      if last != PermissionDenied {
        break;
      }
    }
  }

  /** The removal loop's outcome is determined by the attempts' outcomes. */
  lemma SettledUnique(tryRemove: nat -> RemoveOutcome, a1: nat, l1: RemoveOutcome, a2: nat, l2: RemoveOutcome)
    requires SettledAfter(tryRemove, a1, l1) && SettledAfter(tryRemove, a2, l2)
    ensures a1 == a2 && l1 == l2
  {
  }

  class APKLeaks {
    /** `self.json`: true for JSON output, false for text output. */
    const json: bool
    /** The package name of the analysed application, when it could be read. */
    const apk: Option<string>
    /** The directory the decompiler wrote its sources into. */
    const tempdir: string

    var outJson: OutJson
    var scanned: bool
    /** The strings written to the output file, in order. */
    var fileout: seq<string>
    var closed: bool
    /** The output file is still on disk. */
    var outputExists: bool

    /** A finding was recorded only into a started report, and every recorded
        result holds at least one match. */
    ghost predicate Valid()
      reads this
    {
      && (scanned ==> outJson.Document?)
      && (outJson.Document? ==>
            forall k :: 0 <= k < |outJson.results| ==> outJson.results[k].matches != [])
    }

    /** The state after `__init__` (apkleaks/apkleaks.py:27-40): an empty
        `out_json`, `scanned` false, the output file created and open. */
    constructor (json: bool, apk: Option<string>, tempdir: string)
      ensures Valid()
      ensures this.json == json && this.apk == apk && this.tempdir == tempdir
      ensures outJson == Empty && !scanned && fileout == [] && !closed && outputExists
    {
      this.json := json;
      this.apk := apk;
      this.tempdir := tempdir;
      outJson := Empty;
      scanned := false;
      fileout := [];
      closed := false;
      outputExists := true;
    }

    /** `extract(name, matches)` (apkleaks/apkleaks.py:117-132). With no match
        nothing changes. Otherwise the file receives the rule's header, one
        line per emitted secret and a blank line (only empty strings in JSON
        mode); the raw, unfiltered matches are appended to the results; and
        `scanned` becomes true, even when the filter dropped every match.
        The results list must exist: without it the source raises `KeyError`. */
    method Extract(name: string, matches: seq<string>)
      requires Valid() && outJson.Document? && !closed
      modifies this`fileout, this`outJson, this`scanned
      ensures Valid()
      ensures fileout == old(fileout) + ExtractWrites(json, name, matches)
      ensures outJson == Document(old(outJson).package, old(outJson).results + ExtractResults(name, matches))
      ensures scanned == (old(scanned) || matches != [])
    {
      if |matches| > 0 {
        fileout := fileout + [Line(json, "[" + name + "]")];
        WriteSecrets(name, matches);
        RegroupWrites(old(fileout), Line(json, "[" + name + "]"), SecretLines(json, Emitted(name, matches)), Line(json, ""));
        fileout := fileout + [Line(json, "")];
        outJson := Document(outJson.package, outJson.results + [RuleResult(name, matches)]);
        scanned := true;
      }
    }

    /** The `for secret in matches` loop of `extract`
        (apkleaks/apkleaks.py:122-129): one line per emitted secret, in the
        order of the matches. */
    method WriteSecrets(name: string, matches: seq<string>)
      modifies this`fileout
      ensures fileout == old(fileout) + SecretLines(json, Emitted(name, matches))
    {
      var i := 0;
      while i < |matches|
        invariant 0 <= i <= |matches|
        invariant fileout == old(fileout) + SecretLines(json, Emitted(name, matches[..i]))
      {
        ghost var before := SecretLines(json, Emitted(name, matches[..i]));
        ghost var more := SecretLines(json, EmitOne(name, matches[i]));
        EmittedPrefix(name, matches, i);
        SecretLinesAppend(json, Emitted(name, matches[..i]), EmitOne(name, matches[i]));
        WriteSecret(name, matches[i]);
        ConcatAssoc(old(fileout), before, more);
        i := i + 1;
      }
      assert matches[..|matches|] == matches;
    }

    /** One turn of the `for secret in matches` loop of `extract`
        (apkleaks/apkleaks.py:122-129): a LinkFinder match that the filter
        drops is skipped; a kept LinkFinder match is written without its first
        and last character; any other rule's match is written as it is. */
    method WriteSecret(name: string, secret: string)
      modifies this`fileout
      ensures fileout == old(fileout) + SecretLines(json, EmitOne(name, secret))
    {
      var emitted := secret;
      if name == LinkFinder.RuleName {
        if LinkFinder.IsNoise(secret) {
          return;
        }
        emitted := LinkFinder.Strip(secret);
      }
      fileout := fileout + [Line(json, "- " + emitted)];
    }

    /** The output file and the report reflect `extract` having run, in order,
        on the batches of `calls`, starting from the writes `start` and the
        flag `wasScanned`. */
    ghost predicate Reflects(calls: seq<Call>, finder: (string, string) -> seq<string>,
                             package: string, start: seq<string>, wasScanned: bool)
      reads this
    {
      var bs := BatchesOf(calls, finder, tempdir);
      && outJson == Document(package, Aggregate(bs))
      && fileout == start + AllWrites(json, bs)
      && scanned == (wasScanned || AnyMatch(bs))
    }

    /** Run `extract` on one more call's matches and keep `Reflects`. */
    method ScanOne(call: Call, finder: (string, string) -> seq<string>, ghost done: seq<Call>,
                   ghost package: string, ghost start: seq<string>, ghost wasScanned: bool)
      requires Valid() && !closed
      requires Reflects(done, finder, package, start, wasScanned)
      modifies this`fileout, this`outJson, this`scanned
      ensures Valid()
      ensures Reflects(done + [call], finder, package, start, wasScanned)
    {
      ghost var bs := BatchesOf(done, finder, tempdir);
      var matches := finder(call.pattern, tempdir);
      ghost var b := Batch(call.name, matches);
      Extract(call.name, matches);
      BatchesStep(done, call, finder, tempdir);
      ExtractStep(json, bs, b);
      ConcatAssoc(start, AllWrites(json, bs), ExtractWrites(json, b.name, b.matches));
    }

    /** The inner loop of `scanning` for a list-valued rule
        (apkleaks/apkleaks.py:143-149): one search and one `extract` per
        pattern, in list order. */
    method ScanList(name: string, ps: seq<string>, finder: (string, string) -> seq<string>,
                    ghost done: seq<Call>, ghost package: string, ghost start: seq<string>, ghost wasScanned: bool)
      requires Valid() && !closed
      requires Reflects(done, finder, package, start, wasScanned)
      modifies this`fileout, this`outJson, this`scanned
      ensures Valid()
      ensures Reflects(done + Expand(Rule(name, List(ps))), finder, package, start, wasScanned)
    {
      ghost var calls := Expand(Rule(name, List(ps)));
      ghost var cur := done;
      assert done + calls[..0] == done;
      for j := 0 to |ps|
        invariant Valid() && !closed
        invariant cur == done + calls[..j]
        invariant Reflects(cur, finder, package, start, wasScanned)
      {
        ScanOne(Call(name, ps[j]), finder, cur, package, start, wasScanned);
        ExpandListStep(name, ps, j);
        ConcatAssoc(done, calls[..j], [Call(name, ps[j])]);
        cur := cur + [Call(name, ps[j])];
      }
      assert calls[..|ps|] == calls;
    }

    /** `scanning()` (apkleaks/apkleaks.py:134-155). Without a package the run
        exits and nothing changes. Otherwise `out_json` is reset to the package
        and an empty results list, and `extract` runs once per pattern: once
        per element of a list-valued rule, in list order, and once for a
        scalar rule, rule after rule in the rule file's order. */
    method Scanning(rules: seq<Rule>, finder: (string, string) -> seq<string>) returns (ok: bool)
      requires Valid() && !closed
      modifies this`fileout, this`outJson, this`scanned
      ensures Valid()
      ensures ok <==> apk.Some?
      ensures !ok ==> fileout == old(fileout) && outJson == old(outJson) && scanned == old(scanned)
      ensures ok ==> Reflects(Flatten(rules), finder, apk.value, old(fileout), old(scanned))
    {
      if apk.None? {
        return false;
      }
      ok := true;
      var package := apk.value;
      outJson := Document(package, []);
      ghost var start := fileout;
      ghost var wasScanned := scanned;
      ghost var done: seq<Call> := [];
      for i := 0 to |rules|
        invariant done == Flatten(rules[..i])
        invariant Valid() && !closed
        invariant Reflects(done, finder, package, start, wasScanned)
      {
        var name := rules[i].name;
        match rules[i].value {
          case List(ps) =>
            ScanList(name, ps, finder, done, package, start, wasScanned);
          case Scalar(p) =>
            ScanOne(Call(name, p), finder, done, package, start, wasScanned);
        }
        FlattenStep(rules, i);
        done := done + Expand(rules[i]);
      }
      assert rules[..|rules|] == rules;
    }

    /** The final-output decision of `cleanup()` (apkleaks/apkleaks.py:202-214).
        After a finding, the file receives the serialised report (the empty
        string in text mode) and is closed; that report holds the package and
        lists only rules with at least one match. Otherwise the file is closed and
        deleted with at most five attempts; it is gone exactly when an attempt
        succeeded. `dump` is the JSON serialiser. */
    method Cleanup(dump: OutJson -> string, tryRemove: nat -> RemoveOutcome) returns (result: CleanupResult)
      requires Valid() && !closed
      modifies this`fileout, this`closed, this`outputExists
      ensures Valid() && closed
      ensures scanned ==> result == Saved
      ensures scanned ==> outJson.Document?
      ensures scanned ==> forall k :: 0 <= k < |outJson.results| ==> outJson.results[k].matches != []
      ensures scanned ==> fileout == old(fileout) + [if json then dump(outJson) else ""]
      ensures scanned ==> outputExists == old(outputExists)
      ensures !scanned ==> result.Discarded? && SettledAfter(tryRemove, result.attempts, result.last)
      ensures !scanned ==> fileout == old(fileout)
      ensures !scanned ==> outputExists == (old(outputExists) && result.last != Removed)
    {
      if scanned {
        fileout := fileout + [if json then dump(outJson) else ""];
        closed := true;
        result := Saved;
      } else {
        closed := true;
        var attempts, last := RemoveOutput(tryRemove);
        if last == Removed {
          outputExists := false;
        }
        result := Discarded(attempts, last);
      }
    }
  }

  /** One scan from a freshly constructed scanner: `scanning`, then `cleanup`.
      Without a package `scanning` exits, and this client stops without
      calling `cleanup`. Otherwise the report is
      kept exactly when some pattern had a raw match; then the file holds the
      writes of every `extract` call followed by the serialised report, and in
      JSON mode those writes are all empty so the file is the document alone.
      With no match nothing was written and the file is discarded. */
  method Run(json: bool, apk: Option<string>, tempdir: string, rules: seq<Rule>,
             finder: (string, string) -> seq<string>, dump: OutJson -> string,
             tryRemove: nat -> RemoveOutcome)
    returns (written: seq<string>, result: Option<CleanupResult>)
    ensures apk.None? ==> written == [] && result == None
    ensures apk.Some? ==>
              var bs := Batches(rules, finder, tempdir);
              && result.Some?
              && (result.value == Saved <==> AnyMatch(bs))
              && (AnyMatch(bs) ==>
                    written == AllWrites(json, bs) +
                               [if json then dump(Document(apk.value, Aggregate(bs))) else ""])
              && (!AnyMatch(bs) ==>
                    written == [] && result.value.Discarded? &&
                    SettledAfter(tryRemove, result.value.attempts, result.value.last))
  {
    var app := new APKLeaks(json, apk, tempdir);
    var ok := app.Scanning(rules, finder);
    if !ok {
      return [], None;
    }
    ghost var bs := Batches(rules, finder, tempdir);
    ghost var writes := AllWrites(json, bs);
    assert app.fileout == [] + writes;
    assert [] + writes == writes;
    assert app.scanned == AnyMatch(bs);
    assert app.outJson == Document(apk.value, Aggregate(bs));
    if !AnyMatch(bs) {
      NoMatchNoWrites(json, bs);
    }
    var r := app.Cleanup(dump, tryRemove);
    written, result := app.fileout, Some(r);
  }
}
