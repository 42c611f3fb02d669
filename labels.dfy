/** The label filter `is_valid_domain` and the Rust string primitives it is
    written with. */
module Labels {

  /** Rust's `char::is_ascii_alphanumeric`. */
  predicate IsAsciiAlphanumeric(c: char) {
    ('a' <= c <= 'z') || ('A' <= c <= 'Z') || ('0' <= c <= '9')
  }

  /** Bytes taken by `c` in UTF-8. */
  function Utf8Width(c: char): (w: nat)
    ensures 1 <= w <= 4
    ensures w == 1 <==> c as int < 0x80
  {
    if c as int < 0x80 then 1
    else if c as int < 0x800 then 2
    else if c as int < 0x1_0000 then 3
    else 4
  }

  predicate IsAscii(s: string) {
    forall i :: 0 <= i < |s| ==> s[i] as int < 0x80
  }

  /** Rust's `str::len`: the length of the UTF-8 encoding, in bytes. */
  function Utf8Len(s: string): (n: nat)
    ensures n >= |s|
    ensures n == |s| <==> IsAscii(s)
  {
    if s == [] then 0
    else
      var n := Utf8Width(s[0]) + Utf8Len(s[1..]);
      assert IsAscii(s) <==> s[0] as int < 0x80 && IsAscii(s[1..]) by {
        if IsAscii(s[1..]) && s[0] as int < 0x80 {
          forall i | 0 <= i < |s| ensures s[i] as int < 0x80 {
            if i > 0 { assert s[i] == s[1..][i - 1]; }
          }
        }
      }
      n
  }

  predicate StartsWith(s: string, c: char) {
    |s| > 0 && s[0] == c
  }

  predicate EndsWith(s: string, c: char) {
    |s| > 0 && s[|s| - 1] == c
  }

  /** Rust's `str::contains` with a string pattern, as a scan from the left. */
  predicate Contains(s: string, pat: string)
    decreases |s|
  {
    |pat| <= |s| && (s[..|pat|] == pat || (s != [] && Contains(s[1..], pat)))
  }

  /** Positions `i` and `i + 1` of `s` both hold a hyphen. */
  predicate HyphenPairAt(s: string, i: int) {
    0 <= i < |s| - 1 && s[i] == '-' && s[i + 1] == '-'
  }

  /** `is_valid_domain`: byte length 1 to 4, no hyphen at either end, no
      `--`, and only ASCII letters, digits and hyphens. */
  predicate IsValidDomain(domain: string) {
    && 1 <= Utf8Len(domain) <= 4
    && !(StartsWith(domain, '-') || EndsWith(domain, '-') || Contains(domain, "--"))
    && forall i :: 0 <= i < |domain| ==> IsAsciiAlphanumeric(domain[i]) || domain[i] == '-'
  }

  lemma {:induction false} ContainsDoubleHyphen(s: string)
    ensures Contains(s, "--") <==> exists i :: HyphenPairAt(s, i)
    decreases |s|
  {
    if |s| >= 2 {
      ContainsDoubleHyphen(s[1..]);
      if s[..2] == "--" {
        assert HyphenPairAt(s, 0);
      } else {
        assert !HyphenPairAt(s, 0) by { assert s[..2] == [s[0], s[1]]; }
        if exists i :: HyphenPairAt(s[1..], i) {
          var i :| HyphenPairAt(s[1..], i);
          assert HyphenPairAt(s, i + 1);
        }
        if exists i :: HyphenPairAt(s, i) {
          var i :| HyphenPairAt(s, i);
          assert HyphenPairAt(s[1..], i - 1);
        }
      }
    } else {
      assert forall i :: !HyphenPairAt(s, i);
    }
  }

  /** The filter, read character by character: `is_valid_domain` holds
      exactly for strings of 1 to 4 characters that neither start nor end
      with a hyphen, have no two adjacent hyphens, and consist of ASCII
      letters, digits and hyphens. Byte length and character count agree on
      every string that passes the character test. */
  lemma ValidDomainIff(s: string)
    ensures IsValidDomain(s) <==>
      && 1 <= |s| <= 4
      && s[0] != '-'
      && s[|s| - 1] != '-'
      && (forall i :: !HyphenPairAt(s, i))
      && (forall i :: 0 <= i < |s| ==> IsAsciiAlphanumeric(s[i]) || s[i] == '-')
  {
    ContainsDoubleHyphen(s);
    if forall i :: 0 <= i < |s| ==> IsAsciiAlphanumeric(s[i]) || s[i] == '-' {
      assert IsAscii(s);
    }
  }

  /** A string with a hyphen pair is never a valid label. */
  lemma HyphenPairInvalid(s: string, i: int)
    requires HyphenPairAt(s, i)
    ensures !IsValidDomain(s)
  {
    ContainsDoubleHyphen(s);
  }
}
