/** The character sets the candidate generators draw from. */
module Alphabet {
  import opened Common
  import opened Labels

  /** The lower-case ASCII letters `a` to `z`, in order. */
  const Letters: string := Run('a', 26)
  /** The ASCII digits `0` to `9`, in order. */
  const Digits: string := Run('0', 10)

  /** The two constants spelled out as the source writes them. */
  lemma AlphabetLiterals()
    ensures Letters == "abcdefghijklmnopqrstuvwxyz"
    ensures Digits == "0123456789"
  {
  }

  /** The label symbols, hyphen excluded: the alphabet of
      `generate_repeat_pattern_domains`. */
  function Symbols(lettersOnly: bool): string {
    if lettersOnly then Letters else Letters + Digits
  }

  /** The alphabet of `generate_domains`: the symbols, then the hyphen. */
  function Chars(lettersOnly: bool): string {
    Symbols(lettersOnly) + "-"
  }

  /** `n` consecutive ASCII characters from `first` on. */
  function Run(first: char, n: nat): string
    requires first as int + n <= 0x80
  {
    seq(n, i requires 0 <= i < n => (first as int + i) as char)
  }

  /** 26 symbols letters-only, 36 otherwise; all distinct, none a hyphen,
      each an ASCII letter or digit. */
  lemma SymbolsFacts(lettersOnly: bool)
    ensures |Symbols(lettersOnly)| == if lettersOnly then 26 else 36
    ensures Distinct(Symbols(lettersOnly))
    ensures '-' !in Symbols(lettersOnly)
    ensures forall i :: 0 <= i < |Symbols(lettersOnly)| ==> IsAsciiAlphanumeric(Symbols(lettersOnly)[i])
  {
    var s := Symbols(lettersOnly);
    forall i, j | 0 <= i < j < |s| ensures s[i] != s[j] {
      if i < 26 <= j {
        assert s[i] == Letters[i] && s[j] == Digits[j - 26];
      }
    }
  }

  /** The generator's alphabet has no repeated character and holds only
      characters the label filter admits. */
  lemma CharsFacts(lettersOnly: bool)
    ensures |Chars(lettersOnly)| == |Symbols(lettersOnly)| + 1
    ensures Distinct(Chars(lettersOnly))
    ensures forall i :: 0 <= i < |Chars(lettersOnly)| ==>
              IsAsciiAlphanumeric(Chars(lettersOnly)[i]) || Chars(lettersOnly)[i] == '-'
  {
    SymbolsFacts(lettersOnly);
    var s := Chars(lettersOnly);
    forall i | 0 <= i < |s| ensures s[i] == '-' <==> i == |s| - 1 {
      if i < |s| - 1 { assert s[i] == Symbols(lettersOnly)[i]; }
    }
  }

  /** Any string of 1 to 4 symbols passes the label filter. */
  lemma SymbolStringIsValid(lettersOnly: bool, w: string)
    requires 1 <= |w| <= 4
    requires forall i :: 0 <= i < |w| ==> w[i] in Symbols(lettersOnly)
    ensures IsValidDomain(w)
  {
    SymbolsFacts(lettersOnly);
    forall i | 0 <= i < |w| ensures IsAsciiAlphanumeric(w[i]) && w[i] != '-' {
      var k :| 0 <= k < |Symbols(lettersOnly)| && Symbols(lettersOnly)[k] == w[i];
    }
    ValidDomainIff(w);
  }
}
