/** `LiDomainScanner`: the candidate list `run` assembles, the record
    `query_domain_check` builds from a registry reply, and the scanner's
    shared set of available domains and log of results, updated one query
    at a time. */
module Scanner {
  import opened Common
  import opened Status
  import opened Reply
  import opened Labels
  import opened Alphabet
  import opened Generator
  import opened RepeatPatterns

  /** The registry's top-level domain, appended to every label. */
  const Tld: string := ".li"

  /** One query's outcome (the clock timestamp is not modelled). */
  datatype DomainResult = DomainResult(domain: string, status: DomainStatus, replyCode: i32, message: string)

  /** The line sent to the registry for `domain` (line 133). */
  function QueryLine(domain: string): (line: string)
    ensures line == domain + Tld + "\n"
  {
    domain + ".li\n"
  }

  /** The registry's side of the exchange: the reply text it sends to the
      `n`-th query of a scan, given the query line. */
  type Registry = (nat, string) -> string

  // ---------------------------------------------------------------------------
  // One query

  /** The record `query_domain_check` builds for `domain` once the reply
      `response` has been read (lines 138-158). */
  function ResultOf(domain: string, response: string): (r: DomainResult)
    ensures r.domain == domain + Tld
    ensures (r.replyCode, r.message) == ParseReply(response)
  {
    var reply := ParseReply(response);
    DomainResult(domain + ".li", FromReplyCode(reply.0), reply.0, reply.1)
  }

  /** A reply of the registry's form is recorded with its own code and
      message and the status the code stands for. */
  lemma ResultOfFormatted(domain: string, code: i32, message: string)
    requires IsTrimmed(message)
    ensures ResultOf(domain, FormatReply(code, message))
            == DomainResult(domain + Tld, FromReplyCode(code), code, message)
  {
    ParseFormatReply(code, message);
  }

  /** A reply that is not of the form `<code>:<message>` is recorded as an
      error with the sentinel code, never as available. */
  lemma ResultOfGarbage(domain: string, response: string)
    requires ':' !in Trim(response)
    ensures ResultOf(domain, response) == DomainResult(domain + Tld, Error, Sentinel, Trim(response))
  {
    ParseReplyNoColon(response);
  }

  // ---------------------------------------------------------------------------
  // A scan

  /** The records of a sequential scan of `domains`, in dispatch order. */
  function Probes(domains: seq<string>, registry: Registry): (rs: seq<DomainResult>)
    ensures |rs| == |domains|
    ensures forall i :: 0 <= i < |rs| ==> rs[i] == ResultOf(domains[i], registry(i, QueryLine(domains[i])))
  {
    seq(|domains|, i requires 0 <= i < |domains| => ResultOf(domains[i], registry(i, QueryLine(domains[i]))))
  }

  lemma ProbesStep(domains: seq<string>, registry: Registry, i: nat)
    requires i < |domains|
    ensures Probes(domains[..i + 1], registry)
            == Probes(domains[..i], registry) + [ResultOf(domains[i], registry(i, QueryLine(domains[i])))]
  {
    var longer := Probes(domains[..i + 1], registry);
    var shorter := Probes(domains[..i], registry);
    forall k | 0 <= k < i
      ensures longer[k] == shorter[k]
    {
      assert domains[..i + 1][k] == domains[..i][k];
    }
    assert longer == shorter + [longer[i]];
  }

  /** Appending the record of the `i`-th query extends the scan by one
      query, and the available set by that record's domain when available. */
  lemma QueryStep(domains: seq<string>, registry: Registry, i: nat,
                  collected: seq<DomainResult>, result: DomainResult)
    requires i < |domains| && collected == Probes(domains[..i], registry)
    requires result == ResultOf(domains[i], registry(i, QueryLine(domains[i])))
    ensures collected + [result] == Probes(domains[..i + 1], registry)
    ensures AvailableOf(collected + [result])
            == AvailableOf(collected) + (if result.status == Available then {result.domain} else {})
  {
    ProbesStep(domains, registry, i);
    AvailableOfAppend(collected, [result]);
    AvailableOfSingle(result);
  }

  /** The domains of the available records. */
  function AvailableOf(rs: seq<DomainResult>): set<string>
  {
    if rs == [] then {}
    else
      var r := rs[|rs| - 1];
      AvailableOf(rs[..|rs| - 1]) + (if r.status == Available then {r.domain} else {})
  }

  /** A domain is in the set exactly when some record of it is available. */
  lemma {:induction false} AvailableOfMember(rs: seq<DomainResult>, d: string)
    ensures d in AvailableOf(rs) <==> exists i :: 0 <= i < |rs| && rs[i].status == Available && rs[i].domain == d
  {
    if rs != [] {
      var init := rs[..|rs| - 1];
      AvailableOfMember(init, d);
      if exists i :: 0 <= i < |rs| && rs[i].status == Available && rs[i].domain == d {
        var i :| 0 <= i < |rs| && rs[i].status == Available && rs[i].domain == d;
        if i < |rs| - 1 {
          assert init[i] == rs[i];
        }
      }
      if exists i :: 0 <= i < |init| && init[i].status == Available && init[i].domain == d {
        var i :| 0 <= i < |init| && init[i].status == Available && init[i].domain == d;
        assert rs[i] == init[i];
      }
    }
  }

  lemma {:induction false} AvailableOfAppend(a: seq<DomainResult>, b: seq<DomainResult>)
    ensures AvailableOf(a + b) == AvailableOf(a) + AvailableOf(b)
    decreases |b|
  {
    if b == [] {
      assert a + b == a;
    } else {
      var init := b[..|b| - 1];
      AvailableOfAppend(a, init);
      assert (a + b)[..|a + b| - 1] == a + init;
    }
  }

  lemma AvailableOfSingle(r: DomainResult)
    ensures AvailableOf([r]) == if r.status == Available then {r.domain} else {}
  {
    assert [r][..0] == [];
  }

  /** Recording a list of results a second time adds no available domain:
      the set keeps one copy of each. */
  lemma AvailableOfRepeated(rs: seq<DomainResult>)
    ensures AvailableOf(rs + rs) == AvailableOf(rs)
  {
    AvailableOfAppend(rs, rs);
  }

  lemma SuffixCancel(x: string, y: string)
    requires x + Tld == y + Tld
    ensures x == y
  {
    assert x == (x + Tld)[..|x|];
    assert y == (y + Tld)[..|y|];
  }

  /** A record is available exactly when the reply's code is 1. */
  lemma ResultAvailable(domain: string, response: string)
    ensures ResultOf(domain, response).status == Available <==> ParseReply(response).0 == 1
  {
  }

  /** `<domain>.li` is reported available exactly when some query of
      `domain` in the scan was answered with the code 1. */
  lemma AvailableIff(domains: seq<string>, registry: Registry, domain: string)
    ensures domain + Tld in AvailableOf(Probes(domains, registry)) <==>
            exists i :: 0 <= i < |domains| && domains[i] == domain
                        && ParseReply(registry(i, QueryLine(domain))).0 == 1
  {
    var rs := Probes(domains, registry);
    AvailableOfMember(rs, domain + Tld);
    if domain + Tld in AvailableOf(rs) {
      var i :| 0 <= i < |rs| && rs[i].status == Available && rs[i].domain == domain + Tld;
      SuffixCancel(domains[i], domain);
      ResultAvailable(domain, registry(i, QueryLine(domain)));
    }
    if exists i :: 0 <= i < |domains| && domains[i] == domain
                   && ParseReply(registry(i, QueryLine(domain))).0 == 1 {
      var i :| 0 <= i < |domains| && domains[i] == domain
               && ParseReply(registry(i, QueryLine(domain))).0 == 1;
      ResultAvailable(domain, registry(i, QueryLine(domain)));
      assert rs[i].status == Available && rs[i].domain == domain + Tld;
    }
  }

  /** Three labels answered with the codes 1, 0 and -95 (as "1:ok",
      "0:taken" and "-95:slow" are, by `OkReply`, `TakenReply` and
      `RateLimitedReply`): only the first is reported available, the others
      are recorded as registered and rate limited. */
  lemma ThreeRepliesScenario(a: string, b: string, c: string, ra: string, rb: string, rc: string)
    requires ParseReply(ra).0 == 1 && ParseReply(rb).0 == 0 && ParseReply(rc).0 == -95
    ensures ResultOf(a, ra).status == Available
    ensures ResultOf(b, rb).status == Registered
    ensures ResultOf(c, rc).status == RateLimited
    ensures AvailableOf([ResultOf(a, ra), ResultOf(b, rb), ResultOf(c, rc)]) == {a + Tld}
  {
    ResultAvailable(a, ra);
    ThreeRecords(ResultOf(a, ra), ResultOf(b, rb), ResultOf(c, rc));
  }

  lemma ThreeRecords(r0: DomainResult, r1: DomainResult, r2: DomainResult)
    requires r0.status == Available && r1.status != Available && r2.status != Available
    ensures AvailableOf([r0, r1, r2]) == {r0.domain}
  {
    AvailableOfSingle(r0);
    AvailableOfSingle(r1);
    AvailableOfSingle(r2);
    AvailableOfAppend([r0], [r1]);
    AvailableOfAppend([r0] + [r1], [r2]);
    assert [r0, r1, r2] == [r0] + [r1] + [r2];
  }

  // ---------------------------------------------------------------------------
  // The scanner

  class LiDomainScanner {
    /** Every `<label>.li` some query found available. */
    var availableDomains: set<string>
    /** Every record, in the order the scan collected them. */
    var results: seq<DomainResult>

    /** Between scans the set holds exactly the available domains of the log. */
    ghost predicate Consistent()
      reads this
    {
      availableDomains == AvailableOf(results)
    }

    /** `new` (lines 96-112), without the output directory. */
    constructor()
      ensures availableDomains == {} && results == []
      ensures Consistent()
    {
      availableDomains := {};
      results := [];
    }

    /** `query_domain_check` once the reply has been read (lines 133-158):
        builds the record and, for an available domain, inserts
        `<label>.li` into the set. */
    method QueryDomainCheck(domain: string, response: string) returns (result: DomainResult)
      modifies this`availableDomains
      ensures result == ResultOf(domain, response)
      ensures availableDomains
              == old(availableDomains) + (if result.status == Available then {result.domain} else {})
    {
      result := ResultOf(domain, response);
      if result.status == Available {
        availableDomains := availableDomains + {result.domain};
      }
    }

    /** Lines 262-285, one query after another: the `n`-th domain is sent
        to `registry` as the `n`-th query; each record is kept in order. */
    method QueryAll(domains: seq<string>, registry: Registry) returns (collected: seq<DomainResult>)
      modifies this`availableDomains
      ensures collected == Probes(domains, registry)
      ensures availableDomains == old(availableDomains) + AvailableOf(collected)
    {
      collected := [];
      for i := 0 to |domains|
        invariant collected == Probes(domains[..i], registry)
        invariant availableDomains == old(availableDomains) + AvailableOf(collected)
      {
        var domain := domains[i];
        var result := QueryDomainCheck(domain, registry(i, QueryLine(domain)));
        QueryStep(domains, registry, i, collected, result);
        collected := collected + [result];
      }
      assert domains[..|domains|] == domains;
    }

    /** Lines 287-291: the records are appended to the log in order. */
    method AppendResults(collected: seq<DomainResult>)
      modifies this`results
      ensures results == old(results) + collected
    {
      for i := 0 to |collected|
        invariant results == old(results) + collected[..i]
      {
        results := results + [collected[i]];
        assert collected[..i + 1] == collected[..i] + [collected[i]];
      }
      assert collected[..|collected|] == collected;
    }

    /** `scan_domains` (lines 251-296), run sequentially. */
    method ScanDomains(domains: seq<string>, registry: Registry)
      modifies this
      ensures results == old(results) + Probes(domains, registry)
      ensures availableDomains == old(availableDomains) + AvailableOf(Probes(domains, registry))
      ensures old(Consistent()) ==> Consistent()
    {
      var collected := QueryAll(domains, registry);
      AppendResults(collected);
      AvailableOfAppend(old(results), collected);
    }

    /** `run` (lines 330-355) without the console output and the saving of
        the results: assembles the candidates, then scans them. */
    method Run(fullScan: bool, lettersOnly: bool, registry: Registry)
      modifies this
      ensures results == old(results) + Probes(Candidates(fullScan, lettersOnly), registry)
      ensures availableDomains
              == old(availableDomains) + AvailableOf(Probes(Candidates(fullScan, lettersOnly), registry))
      ensures old(Consistent()) ==> Consistent()
    {
      var allDomains := CollectCandidates(fullScan, lettersOnly);
      ScanDomains(allDomains, registry);
    }
  }

  // ---------------------------------------------------------------------------
  // The candidates

  /** The labels of lengths 1 to `n`, shortest first. */
  function UpTo(n: nat, lettersOnly: bool): seq<string> {
    if n == 0 then [] else UpTo(n - 1, lettersOnly) + Generated(n, lettersOnly)
  }

  /** What `run` scans: every label of length 1 to 4 in full-scan mode,
      else those of length 1 to 3 followed by the repeat patterns. */
  function Candidates(fullScan: bool, lettersOnly: bool): seq<string> {
    if fullScan then UpTo(4, lettersOnly)
    else UpTo(3, lettersOnly) + RepeatPatternDomains(Symbols(lettersOnly))
  }

  /** Lines 331-343. */
  method CollectCandidates(fullScan: bool, lettersOnly: bool) returns (allDomains: seq<string>)
    ensures allDomains == Candidates(fullScan, lettersOnly)
  {
    allDomains := [];
    var maxLength := if fullScan then 4 else 3;
    for length := 1 to maxLength + 1
      invariant allDomains == UpTo(length - 1, lettersOnly)
    {
      var generated := GenerateDomains(length, lettersOnly);
      allDomains := allDomains + generated;
    }
    if !fullScan {
      var patterns := GenerateRepeatPatternDomains(lettersOnly);
      allDomains := allDomains + patterns;
    }
  }

  /** The members of `UpTo(n)`: the admissible labels of 1 to `n`
      characters over the generator's alphabet. */
  lemma {:induction false} UpToMember(n: nat, lettersOnly: bool, s: string)
    requires n <= 4
    ensures s in UpTo(n, lettersOnly) <==> 1 <= |s| <= n && IsLabelOver(s, |s|, Chars(lettersOnly))
  {
    if n > 0 {
      UpToMember(n - 1, lettersOnly, s);
      GeneratedMember(n, lettersOnly, s);
    }
  }

  /** `GeneratedFacts`, for one string. */
  lemma GeneratedMember(n: nat, lettersOnly: bool, s: string)
    requires 1 <= n <= 4
    ensures s in Generated(n, lettersOnly) <==> |s| == n && IsLabelOver(s, |s|, Chars(lettersOnly))
  {
    GeneratedFacts(n, lettersOnly);
  }

  lemma GeneratedLength(n: nat, lettersOnly: bool, s: string)
    ensures s in Generated(n, lettersOnly) ==> |s| == n
  {
    if 1 <= n <= 4 {
      GeneratedMember(n, lettersOnly, s);
    }
  }

  lemma {:induction false} UpToLength(n: nat, lettersOnly: bool, s: string)
    ensures s in UpTo(n, lettersOnly) ==> 1 <= |s| <= n
  {
    if n > 0 {
      UpToLength(n - 1, lettersOnly, s);
      GeneratedLength(n, lettersOnly, s);
    }
  }

  lemma GeneratedDistinct(n: nat, lettersOnly: bool)
    ensures Distinct(Generated(n, lettersOnly))
  {
    GeneratedFacts(n, lettersOnly);
  }

  /** `UpTo(n)` lists each label once. */
  lemma {:induction false} UpToDistinct(n: nat, lettersOnly: bool)
    requires n <= 4
    ensures Distinct(UpTo(n, lettersOnly))
  {
    if n > 0 {
      UpToDistinct(n - 1, lettersOnly);
      GeneratedDistinct(n, lettersOnly);
      var a := UpTo(n - 1, lettersOnly);
      var b := Generated(n, lettersOnly);
      forall s | s in a ensures s !in b {
        UpToLength(n - 1, lettersOnly, s);
        GeneratedLength(n, lettersOnly, s);
      }
      DistinctConcat(a, b);
    }
  }

  /** Full-scan mode scans exactly the labels of 1 to 4 characters over the
      alphabet that pass `is_valid_domain`, each once. */
  lemma FullScanCandidates(lettersOnly: bool, s: string)
    ensures s in Candidates(true, lettersOnly) <==> 1 <= |s| <= 4 && IsLabelOver(s, |s|, Chars(lettersOnly))
    ensures Distinct(Candidates(true, lettersOnly))
  {
    UpToMember(4, lettersOnly, s);
    UpToDistinct(4, lettersOnly);
  }

  /** The default mode scans the admissible labels of 1 to 3 characters and
      then the four-symbol labels with at most two different symbols, each
      once. */
  lemma DefaultScanCandidates(lettersOnly: bool, s: string)
    ensures s in Candidates(false, lettersOnly) <==>
            (1 <= |s| <= 3 && IsLabelOver(s, |s|, Chars(lettersOnly)))
            || (|s| == 4 && (forall i :: 0 <= i < 4 ==> s[i] in Symbols(lettersOnly)) && AtMostTwoSymbols(s))
    ensures Distinct(Candidates(false, lettersOnly))
  {
    var cs := Symbols(lettersOnly);
    UpToMember(3, lettersOnly, s);
    UpToDistinct(3, lettersOnly);
    RepeatPatternDomainsMember(cs, s);
    SymbolsFacts(lettersOnly);
    RepeatPatternDomainsDistinct(cs);
    forall w | w in UpTo(3, lettersOnly) ensures w !in RepeatPatternDomains(cs) {
      UpToMember(3, lettersOnly, w);
      RepeatPatternDomainsMember(cs, w);
    }
    DistinctConcat(UpTo(3, lettersOnly), RepeatPatternDomains(cs));
  }

  /** Every scanned label passes `is_valid_domain`. */
  lemma CandidatesValid(fullScan: bool, lettersOnly: bool, s: string)
    requires s in Candidates(fullScan, lettersOnly)
    ensures IsValidDomain(s)
  {
    if fullScan {
      FullScanCandidates(lettersOnly, s);
    } else {
      DefaultScanCandidates(lettersOnly, s);
      if |s| == 4 {
        SymbolStringIsValid(lettersOnly, s);
      }
    }
  }
}
