/** `generate_domains`: every admissible label of one length, the single
    characters listed directly and the longer labels found by a depth-first
    search over an explicit stack. */
module Generator {
  import opened Common
  import opened Labels
  import opened Alphabet

  // ---------------------------------------------------------------------------
  // What the search emits

  /** The cut at line 194: a hyphen is never appended to a non-empty prefix
      that already ends in a hyphen. */
  predicate Pruned(prefix: string, c: char) {
    prefix != [] && c == '-' && prefix[|prefix| - 1] == '-'
  }

  /** The labels emitted, in order, once `prefix` is popped from the stack:
      a full-length prefix is emitted if it passes the filter; a shorter one
      pushes its extensions, whose own output follows, last pushed first.
      `prune` switches the cut on (the search as written) or off. */
  function Dfs(prefix: string, length: nat, chars: string, prune: bool): seq<string>
    requires |prefix| <= length
    decreases length - |prefix|, |chars| + 1
  {
    if |prefix| == length then (if IsValidDomain(prefix) then [prefix] else [])
    else Children(prefix, length, chars, prune, chars)
  }

  /** The output after the extensions of `prefix` by each character of `cs`
      have been pushed in order: the extension by the last one is popped
      first. */
  function Children(prefix: string, length: nat, chars: string, prune: bool, cs: string): seq<string>
    requires |prefix| < length
    decreases length - |prefix|, |cs|
  {
    if cs == [] then []
    else
      var c := cs[|cs| - 1];
      (if prune && Pruned(prefix, c) then [] else Dfs(prefix + [c], length, chars, prune))
      + Children(prefix, length, chars, prune, cs[..|cs| - 1])
  }

  predicate Bounded(stack: seq<string>, length: nat) {
    forall k :: 0 <= k < |stack| ==> |stack[k]| <= length
  }

  /** The output still owed to the entries of `stack`, top entry first. */
  function Pending(stack: seq<string>, length: nat, chars: string): seq<string>
    requires Bounded(stack, length)
  {
    if stack == [] then []
    else Dfs(stack[|stack| - 1], length, chars, true) + Pending(stack[..|stack| - 1], length, chars)
  }

  /** A single character as a one-character string, for each of `cs`. */
  function Singletons(cs: string): (r: seq<string>)
    ensures |r| == |cs|
  {
    seq(|cs|, i requires 0 <= i < |cs| => [cs[i]])
  }

  /** What `generate_domains(length, letters_only)` returns. */
  function Generated(length: nat, lettersOnly: bool): seq<string> {
    if length == 1 then Singletons(Symbols(lettersOnly))
    else if 2 <= length <= 4 then Dfs([], length, Chars(lettersOnly), true)
    else []
  }

  // ---------------------------------------------------------------------------
  // Termination measure of the search

  /** Entries a stack entry with `k` characters still to add can give rise to. */
  ghost function TreeSize(k: nat, n: nat): nat {
    if k == 0 then 1 else 1 + Times(n, TreeSize(k - 1, n))
  }

  /** `i * w`, by repeated addition. */
  ghost function Times(i: nat, w: nat): nat {
    if i == 0 then 0 else Times(i - 1, w) + w
  }

  ghost function Weight(stack: seq<string>, length: nat, n: nat): nat
    requires Bounded(stack, length)
  {
    if stack == [] then 0
    else Weight(stack[..|stack| - 1], length, n) + TreeSize(length - |stack[|stack| - 1]|, n)
  }

  /** The entries the `for` loop at lines 193-198 pushes for `prefix`, one
      per character of `cs` in order, the cut ones left out. */
  function Extensions(prefix: string, cs: string): (r: seq<string>)
    ensures forall k :: 0 <= k < |r| ==> |r[k]| == |prefix| + 1
  {
    if cs == [] then []
    else
      var c := cs[|cs| - 1];
      Extensions(prefix, cs[..|cs| - 1]) + (if Pruned(prefix, c) then [] else [prefix + [c]])
  }

  lemma ExtensionsStep(prefix: string, chars: string, i: nat)
    requires i < |chars|
    ensures Extensions(prefix, chars[..i + 1])
            == Extensions(prefix, chars[..i]) + (if Pruned(prefix, chars[i]) then [] else [prefix + [chars[i]]])
  {
    assert chars[..i + 1][..i] == chars[..i];
  }

  /** Popping the top entry leaves its output due first. */
  lemma PopPending(stack: seq<string>, length: nat, chars: string)
    requires Bounded(stack, length) && stack != []
    ensures Bounded(stack[..|stack| - 1], length)
    ensures Pending(stack, length, chars)
            == Dfs(stack[|stack| - 1], length, chars, true) + Pending(stack[..|stack| - 1], length, chars)
    ensures Weight(stack, length, |chars|)
            == Weight(stack[..|stack| - 1], length, |chars|) + TreeSize(length - |stack[|stack| - 1]|, |chars|)
  {
  }

  lemma BoundedAfterPush(stack: seq<string>, prefix: string, length: nat, cs: string)
    requires Bounded(stack, length) && |prefix| < length
    ensures Bounded(stack + Extensions(prefix, cs), length)
  {
    var ext := Extensions(prefix, cs);
    forall k | 0 <= k < |stack + ext| ensures |(stack + ext)[k]| <= length {
      if k >= |stack| { assert (stack + ext)[k] == ext[k - |stack|]; }
    }
  }

  /** After the extensions of a popped entry are pushed, the output still
      owed is that entry's output followed by what was owed before. */
  lemma {:induction false} PendingAfterPush(stack: seq<string>, prefix: string, length: nat, chars: string, cs: string)
    requires Bounded(stack, length) && |prefix| < length
    ensures Bounded(stack + Extensions(prefix, cs), length)
    ensures Pending(stack + Extensions(prefix, cs), length, chars)
            == Children(prefix, length, chars, true, cs) + Pending(stack, length, chars)
    decreases |cs|
  {
    if cs != [] {
      var c := cs[|cs| - 1];
      var init := cs[..|cs| - 1];
      var before := stack + Extensions(prefix, init);
      PendingAfterPush(stack, prefix, length, chars, init);
      BoundedAfterPush(stack, prefix, length, cs);
      assert stack + Extensions(prefix, cs)
             == before + (if Pruned(prefix, c) then [] else [prefix + [c]]);
      if !Pruned(prefix, c) {
        var child := prefix + [c];
        PendingPushOne(before, child, length, chars);
        AppendAssoc(Dfs(child, length, chars, true), Children(prefix, length, chars, true, init),
                    Pending(stack, length, chars));
      } else {
        assert before + [] == before;
        assert Children(prefix, length, chars, true, cs) == [] + Children(prefix, length, chars, true, init);
      }
    } else {
      assert stack + Extensions(prefix, cs) == stack;
    }
  }

  /** Pushing one entry puts its output in front of what was owed. */
  lemma PendingPushOne(stack: seq<string>, child: string, length: nat, chars: string)
    requires Bounded(stack + [child], length) && |child| <= length
    ensures Bounded(stack, length)
    ensures Pending(stack + [child], length, chars) == Dfs(child, length, chars, true) + Pending(stack, length, chars)
  {
    var pushed := stack + [child];
    assert pushed[..|pushed| - 1] == stack;
    forall k | 0 <= k < |stack| ensures |stack[k]| <= length {
      assert stack[k] == pushed[k];
    }
  }

  lemma PushWeight(stack: seq<string>, child: string, length: nat, n: nat)
    requires Bounded(stack + [child], length) && |child| <= length
    ensures Bounded(stack, length)
    ensures Weight(stack + [child], length, n) == Weight(stack, length, n) + TreeSize(length - |child|, n)
  {
    var pushed := stack + [child];
    assert pushed[..|pushed| - 1] == stack;
    forall k | 0 <= k < |stack| ensures |stack[k]| <= length {
      assert stack[k] == pushed[k];
    }
  }

  /** Pushing the extensions adds at most one subtree per character. */
  lemma {:induction false} WeightAfterPush(stack: seq<string>, prefix: string, length: nat, chars: string, cs: string)
    requires Bounded(stack, length) && |prefix| < length
    ensures Bounded(stack + Extensions(prefix, cs), length)
    ensures Weight(stack + Extensions(prefix, cs), length, |chars|)
            <= Weight(stack, length, |chars|) + Times(|cs|, TreeSize(length - |prefix| - 1, |chars|))
    decreases |cs|
  {
    BoundedAfterPush(stack, prefix, length, cs);
    if cs == [] {
      assert stack + Extensions(prefix, cs) == stack;
    } else {
      var c := cs[|cs| - 1];
      var init := cs[..|cs| - 1];
      var before := stack + Extensions(prefix, init);
      var w := TreeSize(length - |prefix| - 1, |chars|);
      WeightAfterPush(stack, prefix, length, chars, init);
      assert Times(|cs|, w) == Times(|init|, w) + w;
      if Pruned(prefix, c) {
        assert stack + Extensions(prefix, cs) == before;
      } else {
        assert stack + Extensions(prefix, cs) == before + [prefix + [c]];
        PushWeight(before, prefix + [c], length, |chars|);
      }
    }
  }

  // ---------------------------------------------------------------------------
  // The generator

  /** Replacing a popped entry shorter than `length` by its extensions keeps
      the output owed and makes the measure drop. */
  lemma SearchStep(rest: seq<string>, current: string, length: nat, chars: string)
    requires Bounded(rest, length) && |current| < length
    ensures Bounded(rest + Extensions(current, chars), length)
    ensures Pending(rest + Extensions(current, chars), length, chars)
            == Dfs(current, length, chars, true) + Pending(rest, length, chars)
    ensures Weight(rest + Extensions(current, chars), length, |chars|)
            < Weight(rest, length, |chars|) + TreeSize(length - |current|, |chars|)
  {
    PendingAfterPush(rest, current, length, chars, chars);
    WeightAfterPush(rest, current, length, chars, chars);
    assert TreeSize(length - |current|, |chars|)
           == 1 + Times(|chars|, TreeSize(length - |current| - 1, |chars|));
  }

  /** Emitting a popped entry of full length, if it passes the filter,
      accounts for its share of the output. */
  lemma EmitStep(domains: seq<string>, current: string, length: nat, chars: string, owed: seq<string>)
    requires |current| == length
    ensures domains + (Dfs(current, length, chars, true) + owed)
            == (if IsValidDomain(current) then domains + [current] else domains) + owed
  {
    if IsValidDomain(current) {
      assert (domains + [current]) + owed == domains + ([current] + owed);
    } else {
      assert [] + owed == owed;
    }
  }

  /** The `for` loop at lines 193-198: pushes the extension of `current` by
      each character of `chars` in order, skipping the cut ones. */
  method PushExtensions(stack: seq<string>, current: string, chars: string) returns (pushed: seq<string>)
    ensures pushed == stack + Extensions(current, chars)
  {
    pushed := stack;
    assert chars[..0] == [];
    for i := 0 to |chars|
      invariant pushed == stack + Extensions(current, chars[..i])
    {
      var c := chars[i];
      ExtensionsStep(current, chars, i);
      if current != [] && c == '-' && current[|current| - 1] == '-' {
        continue;
      }
      pushed := pushed + [current + [c]];
    }
    assert chars[..|chars|] == chars;
  }

  /** The arm for length 1 (lines 176-182): each character of the alphabet
      but the hyphen, as a one-character label, in alphabet order. */
  method SingleCharacters(lettersOnly: bool) returns (domains: seq<string>)
    ensures domains == Singletons(Symbols(lettersOnly))
  {
    var chars := Chars(lettersOnly);
    ghost var symbols := Symbols(lettersOnly);
    SymbolsFacts(lettersOnly);
    domains := [];
    for i := 0 to |chars|
      invariant domains == Singletons(symbols[..if i <= |symbols| then i else |symbols|])
    {
      var c := chars[i];
      if c != '-' {
        assert i < |symbols| && c == symbols[i];
        assert symbols[..i + 1] == symbols[..i] + [c];
        domains := domains + [[c]];
      }
    }
    assert symbols[..|symbols|] == symbols;
  }

  /** One pass of the `while let` loop (lines 185-198): pops the top entry;
      emits it if it has full length and passes the filter, otherwise pushes
      its extensions. The output owed shifts to `domains` without loss and
      the measure drops. */
  method SearchPass(domains: seq<string>, stack: seq<string>, length: nat, chars: string)
    returns (domains': seq<string>, stack': seq<string>)
    requires Bounded(stack, length) && stack != []
    ensures Bounded(stack', length)
    ensures domains' + Pending(stack', length, chars) == domains + Pending(stack, length, chars)
    ensures Weight(stack', length, |chars|) < Weight(stack, length, |chars|)
  {
    var current := stack[|stack| - 1];
    PopPending(stack, length, chars);
    stack' := stack[..|stack| - 1];
    ghost var rest := stack';
    ghost var owed := Pending(rest, length, chars);
    if |current| == length {
      EmitStep(domains, current, length, chars, owed);
      domains' := domains;
      if IsValidDomain(current) {
        domains' := domains' + [current];
      }
      return;
    }
    domains' := domains;
    stack' := PushExtensions(stack', current, chars);
    SearchStep(rest, current, length, chars);
  }

  /** The arm for lengths 2 to 4 (lines 184-199): a depth-first search from
      the empty prefix over an explicit stack. */
  method SearchLabels(length: nat, chars: string) returns (domains: seq<string>)
    requires length >= 1
    ensures domains == Dfs([], length, chars, true)
  {
    domains := [];
    var stack: seq<string> := [[]];
    while stack != []
      invariant Bounded(stack, length)
      invariant domains + Pending(stack, length, chars) == Dfs([], length, chars, true)
      decreases Weight(stack, length, |chars|)
    {
      domains, stack := SearchPass(domains, stack, length, chars);
    }
  }

  /** `generate_domains` (lines 162-205): the labels of one length over the
      alphabet `Chars(lettersOnly)`; no label for a length outside 1 to 4. */
  method GenerateDomains(length: nat, lettersOnly: bool) returns (domains: seq<string>)
    ensures domains == Generated(length, lettersOnly)
  {
    match length {
      case 1 =>
        domains := SingleCharacters(lettersOnly);
      case 2 | 3 | 4 =>
        domains := SearchLabels(length, Chars(lettersOnly));
      case _ =>
        domains := [];
    }
  }

  // ---------------------------------------------------------------------------
  // What the search finds

  /** `s` is a string of `length` characters of `chars` that passes the filter. */
  predicate IsLabelOver(s: string, length: nat, chars: string) {
    |s| == length && (forall i :: 0 <= i < |s| ==> s[i] in chars) && IsValidDomain(s)
  }

  /** Every emitted string passes the filter, has the full length, extends
      the popped prefix, and uses only characters of the alphabet. */
  lemma {:induction false} DfsSound(prefix: string, length: nat, chars: string, prune: bool, s: string)
    requires |prefix| <= length
    requires s in Dfs(prefix, length, chars, prune)
    ensures |s| == length && s[..|prefix|] == prefix && IsValidDomain(s)
    ensures forall i :: |prefix| <= i < length ==> s[i] in chars
    decreases length - |prefix|, |chars| + 1
  {
    if |prefix| < length {
      ChildrenSound(prefix, length, chars, prune, chars, s);
    }
  }

  lemma {:induction false} ChildrenSound(prefix: string, length: nat, chars: string, prune: bool, cs: string, s: string)
    requires |prefix| < length
    requires s in Children(prefix, length, chars, prune, cs)
    ensures |s| == length && s[..|prefix|] == prefix && IsValidDomain(s)
    ensures s[|prefix|] in cs
    ensures forall i :: |prefix| < i < length ==> s[i] in chars
    decreases length - |prefix|, |cs|
  {
    var c := cs[|cs| - 1];
    var head := if prune && Pruned(prefix, c) then [] else Dfs(prefix + [c], length, chars, prune);
    if s in head {
      DfsSound(prefix + [c], length, chars, prune, s);
      assert s[..|prefix| + 1][..|prefix|] == s[..|prefix|];
      assert s[|prefix|] == s[..|prefix| + 1][|prefix|];
    } else {
      ChildrenSound(prefix, length, chars, prune, cs[..|cs| - 1], s);
    }
  }

  /** Every full-length extension of the popped prefix by characters of the
      alphabet that passes the filter is emitted. */
  lemma {:induction false} DfsComplete(prefix: string, length: nat, chars: string, prune: bool, s: string)
    requires |prefix| <= length
    requires |s| == length && s[..|prefix|] == prefix && IsValidDomain(s)
    requires forall i :: |prefix| <= i < length ==> s[i] in chars
    ensures s in Dfs(prefix, length, chars, prune)
    decreases length - |prefix|, |chars| + 1
  {
    if |prefix| == length {
      assert s == prefix;
    } else {
      ChildrenComplete(prefix, length, chars, prune, chars, s);
    }
  }

  lemma {:induction false} ChildrenComplete(prefix: string, length: nat, chars: string, prune: bool, cs: string, s: string)
    requires |prefix| < length
    requires |s| == length && s[..|prefix|] == prefix && IsValidDomain(s)
    requires s[|prefix|] in cs
    requires forall i :: |prefix| < i < length ==> s[i] in chars
    ensures s in Children(prefix, length, chars, prune, cs)
    decreases length - |prefix|, |cs|
  {
    var c := cs[|cs| - 1];
    if s[|prefix|] == c {
      if Pruned(prefix, c) {
        HyphenPairInvalid(s, |prefix| - 1);
      }
      assert s[..|prefix| + 1] == prefix + [c];
      DfsComplete(prefix + [c], length, chars, prune, s);
    } else {
      ChildrenComplete(prefix, length, chars, prune, cs[..|cs| - 1], s);
    }
  }

  /** Over an alphabet without repeats, nothing is emitted twice. */
  lemma {:induction false} DfsDistinct(prefix: string, length: nat, chars: string, prune: bool)
    requires |prefix| <= length
    requires Distinct(chars)
    ensures Distinct(Dfs(prefix, length, chars, prune))
    decreases length - |prefix|, |chars| + 1
  {
    if |prefix| < length {
      ChildrenDistinct(prefix, length, chars, prune, chars);
    }
  }

  lemma {:induction false} ChildrenDistinct(prefix: string, length: nat, chars: string, prune: bool, cs: string)
    requires |prefix| < length
    requires Distinct(chars) && Distinct(cs)
    ensures Distinct(Children(prefix, length, chars, prune, cs))
    decreases length - |prefix|, |cs|
  {
    if cs != [] {
      var c := cs[|cs| - 1];
      var init := cs[..|cs| - 1];
      var head := if prune && Pruned(prefix, c) then [] else Dfs(prefix + [c], length, chars, prune);
      var tail := Children(prefix, length, chars, prune, init);
      if !(prune && Pruned(prefix, c)) {
        DfsDistinct(prefix + [c], length, chars, prune);
      }
      ChildrenDistinct(prefix, length, chars, prune, init);
      forall s | s in head ensures s !in tail {
        DfsSound(prefix + [c], length, chars, prune, s);
        assert s[|prefix|] == s[..|prefix| + 1][|prefix|] == c;
        if s in tail {
          ChildrenSound(prefix, length, chars, prune, init, s);
        }
      }
      DistinctConcat(head, tail);
    }
  }

  /** The cut at line 194 only discards what the final filter would reject:
      the search emits the same labels, in the same order, without it. */
  lemma {:induction false} PruningIsSound(prefix: string, length: nat, chars: string)
    requires |prefix| <= length
    ensures Dfs(prefix, length, chars, true) == Dfs(prefix, length, chars, false)
    decreases length - |prefix|, |chars| + 1
  {
    if |prefix| < length {
      ChildrenPruningIsSound(prefix, length, chars, chars);
    }
  }

  lemma {:induction false} ChildrenPruningIsSound(prefix: string, length: nat, chars: string, cs: string)
    requires |prefix| < length
    ensures Children(prefix, length, chars, true, cs) == Children(prefix, length, chars, false, cs)
    decreases length - |prefix|, |cs|
  {
    if cs != [] {
      var c := cs[|cs| - 1];
      ChildrenPruningIsSound(prefix, length, chars, cs[..|cs| - 1]);
      PruningIsSound(prefix + [c], length, chars);
      if Pruned(prefix, c) {
        var unpruned := Dfs(prefix + [c], length, chars, false);
        if unpruned != [] {
          var s := unpruned[0];
          DfsSound(prefix + [c], length, chars, false, s);
          assert s[|prefix| - 1] == s[..|prefix|][|prefix| - 1];
          assert s[|prefix|] == s[..|prefix| + 1][|prefix|];
          HyphenPairInvalid(s, |prefix| - 1);
        }
      }
    }
  }

  /** `generate_domains(length, letters_only)` for a length of 1 to 4 returns
      exactly the labels of that length over its alphabet that pass the
      filter, each once. */
  lemma GeneratedFacts(length: nat, lettersOnly: bool)
    ensures 1 <= length <= 4 ==>
      forall s :: s in Generated(length, lettersOnly) <==> IsLabelOver(s, length, Chars(lettersOnly))
    ensures Distinct(Generated(length, lettersOnly))
  {
    if length == 1 {
      SingleCharacterFacts(lettersOnly);
    } else if 2 <= length <= 4 {
      var chars := Chars(lettersOnly);
      forall s ensures s in Generated(length, lettersOnly) <==> IsLabelOver(s, length, chars) {
        if s in Generated(length, lettersOnly) {
          DfsSound([], length, chars, true, s);
        }
        if IsLabelOver(s, length, chars) {
          DfsComplete([], length, chars, true, s);
        }
      }
      CharsFacts(lettersOnly);
      DfsDistinct([], length, chars, true);
    }
  }

  /** Length 1: the one-character labels over the alphabet, each once. */
  lemma SingleCharacterFacts(lettersOnly: bool)
    ensures forall s :: s in Generated(1, lettersOnly) <==> IsLabelOver(s, 1, Chars(lettersOnly))
    ensures Distinct(Generated(1, lettersOnly))
  {
    var chars := Chars(lettersOnly);
    var symbols := Symbols(lettersOnly);
    CharsFacts(lettersOnly);
    SymbolsFacts(lettersOnly);
    forall s ensures s in Generated(1, lettersOnly) <==> IsLabelOver(s, 1, chars) {
      if s in Generated(1, lettersOnly) {
        var k :| 0 <= k < |symbols| && s == [symbols[k]];
        assert symbols[k] in symbols;
        SymbolStringIsValid(lettersOnly, s);
        assert s[0] == chars[k];
      }
      if IsLabelOver(s, 1, chars) {
        ValidDomainIff(s);
        var k :| 0 <= k < |chars| && chars[k] == s[0];
        assert k < |symbols|;
        assert s == [symbols[k]] == Singletons(symbols)[k];
      }
    }
  }

  /** Length 1 lists each symbol once: 26 letters-only, 36 otherwise, none a
      hyphen. */
  lemma SingleCharacterCount(lettersOnly: bool)
    ensures |Generated(1, lettersOnly)| == if lettersOnly then 26 else 36
    ensures forall s :: s in Generated(1, lettersOnly) ==> |s| == 1 && s[0] != '-'
  {
    SymbolsFacts(lettersOnly);
  }
}
