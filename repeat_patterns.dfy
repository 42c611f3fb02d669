/** `generate_repeat_pattern_domains`: the four-character labels made of at
    most two different symbols, listed in three groups. */
module RepeatPatterns {
  import opened Common
  import opened Labels
  import opened Alphabet

  // ---------------------------------------------------------------------------
  // What the generator lists

  /** Lines 224-229: three `c1` and one `c2`, the `c2` moving from the last
      place to the first. */
  function ThreeOne(c1: char, c2: char): seq<string> {
    [[c1, c1, c1, c2], [c1, c1, c2, c1], [c1, c2, c1, c1], [c2, c1, c1, c1]]
  }

  /** Lines 238-242: two `c1` and two `c2`, `c1` first. */
  function TwoTwo(c1: char, c2: char): seq<string> {
    [[c1, c1, c2, c2], [c1, c2, c2, c1], [c1, c2, c1, c2]]
  }

  /** The labels the inner loop of the first (`threeOne`) or the second pair
      loop adds for `c1` and `c2`. */
  function Pattern(threeOne: bool, c1: char, c2: char): seq<string> {
    if threeOne then ThreeOne(c1, c2) else TwoTwo(c1, c2)
  }

  /** Lines 216-218: four copies of each symbol, in alphabet order. */
  function AllSame(cs: string): (r: seq<string>)
    ensures |r| == |cs|
  {
    seq(|cs|, i requires 0 <= i < |cs| => [cs[i], cs[i], cs[i], cs[i]])
  }

  /** One pass of an inner loop: `c1` against each of `bs` in order, equal
      pairs skipped. */
  function Row(threeOne: bool, c1: char, bs: string): seq<string>
    decreases |bs|
  {
    if bs == [] then []
    else
      var c2 := bs[|bs| - 1];
      Row(threeOne, c1, bs[..|bs| - 1]) + (if c1 != c2 then Pattern(threeOne, c1, c2) else [])
  }

  /** A whole pair loop: one row for each of `firsts` in order. */
  function Rows(threeOne: bool, firsts: string, cs: string): seq<string>
    decreases |firsts|
  {
    if firsts == [] then []
    else Rows(threeOne, firsts[..|firsts| - 1], cs) + Row(threeOne, firsts[|firsts| - 1], cs)
  }

  /** What `generate_repeat_pattern_domains` returns for the symbols `cs`. */
  function RepeatPatternDomains(cs: string): seq<string> {
    AllSame(cs) + Rows(true, cs, cs) + Rows(false, cs, cs)
  }

  // ---------------------------------------------------------------------------
  // The generator

  lemma RowStep(threeOne: bool, c1: char, cs: string, j: nat)
    requires j < |cs|
    ensures Row(threeOne, c1, cs[..j + 1])
            == Row(threeOne, c1, cs[..j]) + (if c1 != cs[j] then Pattern(threeOne, c1, cs[j]) else [])
  {
    assert cs[..j + 1][..j] == cs[..j];
  }

  lemma RowsUnfold(threeOne: bool, firsts: string, cs: string, i: nat)
    requires i < |firsts|
    ensures Rows(threeOne, firsts[..i + 1], cs) == Rows(threeOne, firsts[..i], cs) + Row(threeOne, firsts[i], cs)
  {
    assert firsts[..i + 1][..i] == firsts[..i];
  }

  /** Appending the row of `firsts[i]` to a list ending in the rows of
      `firsts[..i]` gives the list ending in the rows of `firsts[..i + 1]`. */
  lemma RowsStep(threeOne: bool, domains: seq<string>, firsts: string, i: nat,
                 extended: seq<string>, next: seq<string>)
    requires i < |firsts|
    requires extended == domains + Rows(threeOne, firsts[..i], firsts)
    requires next == extended + Row(threeOne, firsts[i], firsts)
    ensures next == domains + Rows(threeOne, firsts[..i + 1], firsts)
  {
    RowsUnfold(threeOne, firsts, firsts, i);
    AppendAssoc(domains, Rows(threeOne, firsts[..i], firsts), Row(threeOne, firsts[i], firsts));
  }

  /** Lines 216-218. */
  method AllSameLoop(chars: string) returns (domains: seq<string>)
    ensures domains == AllSame(chars)
  {
    domains := [];
    for i := 0 to |chars|
      invariant domains == AllSame(chars[..i])
    {
      var c := chars[i];
      domains := domains + [[c, c, c, c]];
    }
    assert chars[..|chars|] == chars;
  }

  /** The inner loop at lines 222-231: `ThreeOne(c1, c2)` for each `c2`
      of `chars` other than `c1`. */
  method ThreeOneRow(c1: char, chars: string, domains: seq<string>) returns (extended: seq<string>)
    ensures extended == domains + Row(true, c1, chars)
  {
    extended := domains;
    for j := 0 to |chars|
      invariant extended == domains + Row(true, c1, chars[..j])
    {
      var c2 := chars[j];
      RowStep(true, c1, chars, j);
      if c1 != c2 {
        extended := extended + [[c1, c1, c1, c2], [c1, c1, c2, c1], [c1, c2, c1, c1], [c2, c1, c1, c1]];
      }
    }
    assert chars[..|chars|] == chars;
  }

  /** Lines 221-232: the first pair loop appends `ThreeOne` for every ordered
      pair of different symbols. */
  method ThreeOneLoop(chars: string, domains: seq<string>) returns (extended: seq<string>)
    ensures extended == domains + Rows(true, chars, chars)
  {
    extended := domains;
    assert chars[..0] == [];
    for i := 0 to |chars|
      invariant extended == domains + Rows(true, chars[..i], chars)
    {
      var next := ThreeOneRow(chars[i], chars, extended);
      RowsStep(true, domains, chars, i, extended, next);
      extended := next;
    }
    assert chars[..|chars|] == chars;
  }

  /** The inner loop at lines 236-244: `TwoTwo(c1, c2)` for each `c2` of
      `chars` other than `c1`. */
  method TwoTwoRow(c1: char, chars: string, domains: seq<string>) returns (extended: seq<string>)
    ensures extended == domains + Row(false, c1, chars)
  {
    extended := domains;
    for j := 0 to |chars|
      invariant extended == domains + Row(false, c1, chars[..j])
    {
      var c2 := chars[j];
      RowStep(false, c1, chars, j);
      if c1 != c2 {
        extended := extended + [[c1, c1, c2, c2], [c1, c2, c2, c1], [c1, c2, c1, c2]];
      }
    }
    assert chars[..|chars|] == chars;
  }

  /** Lines 235-245: the second pair loop appends `TwoTwo` for every ordered
      pair of different symbols. */
  method TwoTwoLoop(chars: string, domains: seq<string>) returns (extended: seq<string>)
    ensures extended == domains + Rows(false, chars, chars)
  {
    extended := domains;
    assert chars[..0] == [];
    for i := 0 to |chars|
      invariant extended == domains + Rows(false, chars[..i], chars)
    {
      var next := TwoTwoRow(chars[i], chars, extended);
      RowsStep(false, domains, chars, i, extended, next);
      extended := next;
    }
    assert chars[..|chars|] == chars;
  }

  /** `generate_repeat_pattern_domains` (lines 207-249): the three groups
      over the symbols, hyphen excluded. */
  method GenerateRepeatPatternDomains(lettersOnly: bool) returns (domains: seq<string>)
    ensures domains == RepeatPatternDomains(Symbols(lettersOnly))
  {
    var chars := Symbols(lettersOnly);
    domains := AllSameLoop(chars);
    domains := ThreeOneLoop(chars, domains);
    domains := TwoTwoLoop(chars, domains);
  }

  // ---------------------------------------------------------------------------
  // What the list holds

  /** Among the four characters of `w` no three are pairwise different: `w`
      is made of at most two symbols. */
  predicate AtMostTwoSymbols(w: string)
    requires |w| == 4
  {
    forall i, j, k :: 0 <= i < j < k < 4 ==> w[i] == w[j] || w[i] == w[k] || w[j] == w[k]
  }

  /** How often the first character of `w` occurs in it: 4 for the first
      group, 3 or 1 for the second, 2 for the third. */
  function FirstCount(w: string): nat
    requires |w| == 4
  {
    1 + (if w[1] == w[0] then 1 else 0) + (if w[2] == w[0] then 1 else 0) + (if w[3] == w[0] then 1 else 0)
  }

  /** The `c1` a label of a pair group was made from. */
  function Lead(threeOne: bool, w: string): char
    requires |w| == 4
  {
    if threeOne then (if w[0] == w[1] then w[0] else w[2]) else w[0]
  }

  /** The `c2` a label of a pair group was made from. */
  function Minor(threeOne: bool, w: string): char
    requires |w| == 4
  {
    if threeOne then
      if w[0] == w[1] then (if w[2] == w[0] then w[3] else w[2])
      else if w[0] == w[2] then w[1] else w[0]
    else if w[1] != w[0] then w[1] else w[2]
  }

  /** Each label of a pattern has four characters, drawn from its pair, tells
      its group by `FirstCount` and its pair by `Lead` and `Minor`. */
  lemma PatternShape(threeOne: bool, c1: char, c2: char, w: string)
    requires c1 != c2
    ensures w in Pattern(threeOne, c1, c2) ==>
      && |w| == 4 && AtMostTwoSymbols(w)
      && (forall i :: 0 <= i < 4 ==> w[i] == c1 || w[i] == c2)
      && Lead(threeOne, w) == c1 && Minor(threeOne, w) == c2
      && if threeOne then FirstCount(w) % 2 == 1 else FirstCount(w) == 2
  {
  }

  lemma PatternDistinct(threeOne: bool, c1: char, c2: char)
    requires c1 != c2
    ensures Distinct(Pattern(threeOne, c1, c2))
  {
    var p := Pattern(threeOne, c1, c2);
    forall i, j | 0 <= i < j < |p| ensures p[i] != p[j] {
      assert Minor(threeOne, p[i]) == c2 == Minor(threeOne, p[j]);
      if threeOne {
        assert p[i][3 - i] == c2 && p[j][3 - i] == c1;
      } else {
        assert p[i][1 + i / 2] == c2 || p[i][2] != p[j][2] || p[i][3] != p[j][3];
      }
    }
  }

  /** A label is in the row of `c1` exactly when it belongs to the pattern of
      `c1` and some different `c2` of `bs`. */
  lemma {:induction false} RowMember(threeOne: bool, c1: char, bs: string, w: string)
    ensures w in Row(threeOne, c1, bs) <==>
            exists c2 :: c2 in bs && c1 != c2 && w in Pattern(threeOne, c1, c2)
    decreases |bs|
  {
    if bs != [] {
      var init := bs[..|bs| - 1];
      var last := bs[|bs| - 1];
      RowMember(threeOne, c1, init, w);
      assert bs == init + [last];
      if exists c2 :: c2 in bs && c1 != c2 && w in Pattern(threeOne, c1, c2) {
        var c2 :| c2 in bs && c1 != c2 && w in Pattern(threeOne, c1, c2);
        if c2 != last {
          assert c2 in init;
        }
      }
    }
  }

  /** A label is in a pair group exactly when it is in the row of some
      `c1` of `firsts`. */
  lemma {:induction false} RowsMember(threeOne: bool, firsts: string, cs: string, w: string)
    ensures w in Rows(threeOne, firsts, cs) <==> exists c1 :: c1 in firsts && w in Row(threeOne, c1, cs)
    decreases |firsts|
  {
    if firsts != [] {
      var init := firsts[..|firsts| - 1];
      var last := firsts[|firsts| - 1];
      RowsMember(threeOne, init, cs, w);
      assert firsts == init + [last];
      if exists c1 :: c1 in firsts && w in Row(threeOne, c1, cs) {
        var c1 :| c1 in firsts && w in Row(threeOne, c1, cs);
        if c1 != last {
          assert c1 in init;
        }
      }
    }
  }

  /** A label is in a pair group exactly when it belongs to the pattern of
      some `c1` of `firsts` and some different `c2` of `cs`. */
  lemma PairGroupMember(threeOne: bool, firsts: string, cs: string, w: string)
    ensures w in Rows(threeOne, firsts, cs) <==>
            exists c1, c2 :: c1 in firsts && c2 in cs && c1 != c2 && w in Pattern(threeOne, c1, c2)
  {
    RowsMember(threeOne, firsts, cs, w);
    if w in Rows(threeOne, firsts, cs) {
      var c1 :| c1 in firsts && w in Row(threeOne, c1, cs);
      RowMember(threeOne, c1, cs, w);
    }
    if exists c1, c2 :: c1 in firsts && c2 in cs && c1 != c2 && w in Pattern(threeOne, c1, c2) {
      var c1, c2 :| c1 in firsts && c2 in cs && c1 != c2 && w in Pattern(threeOne, c1, c2);
      RowMember(threeOne, c1, cs, w);
    }
  }

  lemma {:induction false} RowDistinct(threeOne: bool, c1: char, bs: string)
    requires Distinct(bs)
    ensures Distinct(Row(threeOne, c1, bs))
    decreases |bs|
  {
    if bs != [] {
      var init := bs[..|bs| - 1];
      var c2 := bs[|bs| - 1];
      assert Distinct(init) by {
        forall i, j | 0 <= i < j < |init| ensures init[i] != init[j] {
          assert init[i] == bs[i] && init[j] == bs[j];
        }
      }
      RowDistinct(threeOne, c1, init);
      if c1 != c2 {
        PatternDistinct(threeOne, c1, c2);
        forall w | w in Row(threeOne, c1, init) ensures w !in Pattern(threeOne, c1, c2) {
          RowMember(threeOne, c1, init, w);
          var b :| b in init && c1 != b && w in Pattern(threeOne, c1, b);
          PatternShape(threeOne, c1, b, w);
          PatternShape(threeOne, c1, c2, w);
          var k :| 0 <= k < |init| && init[k] == b;
          assert bs[k] != bs[|bs| - 1];
        }
        DistinctConcat(Row(threeOne, c1, init), Pattern(threeOne, c1, c2));
      }
    }
  }

  lemma {:induction false} RowsDistinct(threeOne: bool, firsts: string, cs: string)
    requires Distinct(firsts) && Distinct(cs)
    ensures Distinct(Rows(threeOne, firsts, cs))
    decreases |firsts|
  {
    if firsts != [] {
      var init := firsts[..|firsts| - 1];
      var c1 := firsts[|firsts| - 1];
      assert Distinct(init) by {
        forall i, j | 0 <= i < j < |init| ensures init[i] != init[j] {
          assert init[i] == firsts[i] && init[j] == firsts[j];
        }
      }
      RowsDistinct(threeOne, init, cs);
      RowDistinct(threeOne, c1, cs);
      forall w | w in Rows(threeOne, init, cs) ensures w !in Row(threeOne, c1, cs) {
        PairGroupMember(threeOne, init, cs, w);
        var a, b :| a in init && b in cs && a != b && w in Pattern(threeOne, a, b);
        PatternShape(threeOne, a, b, w);
        var k :| 0 <= k < |init| && init[k] == a;
        assert a != c1 by { assert firsts[k] != firsts[|firsts| - 1]; }
        RowMember(threeOne, c1, cs, w);
        forall b' | b' in cs && c1 != b' ensures w !in Pattern(threeOne, c1, b') {
          PatternShape(threeOne, c1, b', w);
        }
      }
      DistinctConcat(Rows(threeOne, init, cs), Row(threeOne, c1, cs));
    }
  }

  /** A label of a pair group has four characters of `cs`, at most two
      different ones, and is told apart from the other groups by
      `FirstCount`. */
  lemma RowsShape(threeOne: bool, cs: string, w: string)
    requires w in Rows(threeOne, cs, cs)
    ensures |w| == 4 && AtMostTwoSymbols(w)
    ensures forall i :: 0 <= i < 4 ==> w[i] in cs
    ensures if threeOne then FirstCount(w) % 2 == 1 else FirstCount(w) == 2
  {
    PairGroupMember(threeOne, cs, cs, w);
    var c1, c2 :| c1 in cs && c2 in cs && c1 != c2 && w in Pattern(threeOne, c1, c2);
    PatternShape(threeOne, c1, c2, w);
  }

  /** No label is listed twice when the symbols are distinct. */
  lemma RepeatPatternDomainsDistinct(cs: string)
    requires Distinct(cs)
    ensures Distinct(RepeatPatternDomains(cs))
  {
    var same := AllSame(cs);
    var three := Rows(true, cs, cs);
    var two := Rows(false, cs, cs);
    assert Distinct(same) by {
      forall i, j | 0 <= i < j < |same| ensures same[i] != same[j] {
        assert same[i][0] == cs[i] && same[j][0] == cs[j];
      }
    }
    RowsDistinct(true, cs, cs);
    RowsDistinct(false, cs, cs);
    forall w | w in same ensures w !in three && FirstCount(w) == 4 {
      if w in three { RowsShape(true, cs, w); }
    }
    DistinctConcat(same, three);
    forall w | w in same + three ensures w !in two {
      if w in two {
        RowsShape(false, cs, w);
        if w in three { RowsShape(true, cs, w); }
      }
    }
    DistinctConcat(same + three, two);
  }

  /** The list holds exactly the strings of four characters of `cs` with at
      most two different characters. */
  lemma RepeatPatternDomainsMember(cs: string, w: string)
    ensures w in RepeatPatternDomains(cs) <==>
            |w| == 4 && (forall i :: 0 <= i < 4 ==> w[i] in cs) && AtMostTwoSymbols(w)
  {
    var same := AllSame(cs);
    if w in same {
      var k :| 0 <= k < |same| && same[k] == w;
    } else if w in Rows(true, cs, cs) {
      RowsShape(true, cs, w);
    } else if w in Rows(false, cs, cs) {
      RowsShape(false, cs, w);
    }
    if |w| == 4 && (forall i :: 0 <= i < 4 ==> w[i] in cs) && AtMostTwoSymbols(w) {
      RepeatPatternDomainsComplete(cs, w);
    }
  }

  lemma RepeatPatternDomainsComplete(cs: string, w: string)
    requires |w| == 4 && (forall i :: 0 <= i < 4 ==> w[i] in cs) && AtMostTwoSymbols(w)
    ensures w in RepeatPatternDomains(cs)
  {
    var a := w[0];
    if w[1] == a && w[2] == a && w[3] == a {
      var k :| 0 <= k < |cs| && cs[k] == a;
      assert AllSame(cs)[k] == w;
    } else {
      var b := if w[1] != a then w[1] else if w[2] != a then w[2] else w[3];
      assert forall i :: 0 <= i < 4 ==> w[i] == a || w[i] == b;
      assert b in cs;
      assert w == [a, w[1], w[2], w[3]];
      var pick :=
        if w == [a, a, a, b] || w == [a, a, b, a] || w == [a, b, a, a] then (true, a, b)
        else if w == [a, b, b, b] then (true, b, a)
        else (false, a, b);
      assert w in Pattern(pick.0, pick.1, pick.2);
      RowMember(pick.0, pick.1, cs, w);
      RowsMember(pick.0, cs, cs, w);
    }
  }

  /** The size of a row, for distinct `bs`. */
  lemma {:induction false} RowLength(threeOne: bool, c1: char, bs: string)
    requires Distinct(bs)
    ensures var others := |bs| - if c1 in bs then 1 else 0;
            |Row(threeOne, c1, bs)| == if threeOne then 4 * others else 3 * others
    decreases |bs|
  {
    if bs != [] {
      var init := bs[..|bs| - 1];
      assert bs == init + [bs[|bs| - 1]];
      assert Distinct(init) by {
        forall i, j | 0 <= i < j < |init| ensures init[i] != init[j] {
          assert init[i] == bs[i] && init[j] == bs[j];
        }
      }
      RowLength(threeOne, c1, init);
      if c1 == bs[|bs| - 1] {
        assert c1 !in init;
      }
    }
  }

  lemma MulStep(n: int, m: int)
    ensures (n - 1) * m + m == n * m
  {
  }

  /** The size of a pair group: each symbol of `firsts` against every other
      symbol of `cs`. */
  lemma {:induction false} RowsLength(threeOne: bool, firsts: string, cs: string)
    requires Distinct(cs)
    requires forall i :: 0 <= i < |firsts| ==> firsts[i] in cs
    ensures |Rows(threeOne, firsts, cs)| == |firsts| * (if threeOne then 4 * (|cs| - 1) else 3 * (|cs| - 1))
    decreases |firsts|
  {
    var m := if threeOne then 4 * (|cs| - 1) else 3 * (|cs| - 1);
    if firsts != [] {
      var n := |firsts|;
      var init := firsts[..n - 1];
      assert forall i :: 0 <= i < n - 1 ==> init[i] == firsts[i];
      RowsLength(threeOne, init, cs);
      RowLength(threeOne, firsts[n - 1], cs);
      MulStep(n, m);
    }
  }

  /** The size of the list: `N` labels of one symbol,
      `4 N (N - 1)` of three and one, `3 N (N - 1)` of two and two, for `N`
      distinct symbols: 4576 letters-only, 8856 with digits. */
  lemma RepeatPatternDomainsLength(lettersOnly: bool)
    ensures |RepeatPatternDomains(Symbols(lettersOnly))| == if lettersOnly then 4576 else 8856
  {
    var cs := Symbols(lettersOnly);
    SymbolsFacts(lettersOnly);
    RowsLength(true, cs, cs);
    RowsLength(false, cs, cs);
  }

  /** Every listed label passes `is_valid_domain`. */
  lemma RepeatPatternDomainsValid(lettersOnly: bool, w: string)
    requires w in RepeatPatternDomains(Symbols(lettersOnly))
    ensures IsValidDomain(w)
  {
    RepeatPatternDomainsMember(Symbols(lettersOnly), w);
    SymbolStringIsValid(lettersOnly, w);
  }
}
