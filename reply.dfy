/** Reading the registry's reply `"<code>:<message>"` (the parse at the end of
    `query_domain_check`), with the Rust string functions it relies on:
    `str::trim`, `str::split_once` and `i32::from_str`. */
module Reply {
  import opened Common
  import opened Status

  // ---------------------------------------------------------------------------
  // str::trim

  /** Rust's `char::is_whitespace`: the Unicode White_Space property. */
  predicate IsWhitespace(c: char) {
    var n := c as int;
    (0x09 <= n <= 0x0D) || n == 0x20 || n == 0x85 || n == 0xA0 || n == 0x1680
    || (0x2000 <= n <= 0x200A) || n == 0x2028 || n == 0x2029 || n == 0x202F
    || n == 0x205F || n == 0x3000
  }

  predicate AllWhitespace(s: string) {
    forall i :: 0 <= i < |s| ==> IsWhitespace(s[i])
  }

  /** Neither end of `s` is whitespace. */
  predicate IsTrimmed(s: string) {
    s == [] || (!IsWhitespace(s[0]) && !IsWhitespace(s[|s| - 1]))
  }

  /** `str::trim_start`: drops the leading whitespace. */
  function TrimStart(s: string): string {
    if s != [] && IsWhitespace(s[0]) then TrimStart(s[1..]) else s
  }

  /** `str::trim_end`: drops the trailing whitespace. */
  function TrimEnd(s: string): string {
    if s != [] && IsWhitespace(s[|s| - 1]) then TrimEnd(s[..|s| - 1]) else s
  }

  /** `TrimStart` keeps a suffix, all of what it drops is whitespace, and
      what it keeps does not start with whitespace. */
  lemma {:induction false} TrimStartFacts(s: string)
    ensures var r := TrimStart(s);
            |r| <= |s| && r == s[|s| - |r|..] && AllWhitespace(s[..|s| - |r|])
            && (r == [] || !IsWhitespace(r[0]))
  {
    if s != [] && IsWhitespace(s[0]) {
      TrimStartFacts(s[1..]);
      var r := TrimStart(s[1..]);
      assert s[..|s| - |r|] == [s[0]] + s[1..][..|s[1..]| - |r|];
    }
  }

  /** `TrimEnd` keeps a prefix, all of what it drops is whitespace, and what
      it keeps does not end with whitespace. */
  lemma {:induction false} TrimEndFacts(s: string)
    ensures var r := TrimEnd(s);
            |r| <= |s| && r == s[..|r|] && AllWhitespace(s[|r|..])
            && (r == [] || !IsWhitespace(r[|r| - 1]))
  {
    if s != [] && IsWhitespace(s[|s| - 1]) {
      TrimEndFacts(s[..|s| - 1]);
      var r := TrimEnd(s[..|s| - 1]);
      assert s[|r|..] == s[..|s| - 1][|r|..] + [s[|s| - 1]];
    }
  }

  /** `str::trim`: the middle of `s` left after both whitespace runs go. */
  function Trim(s: string): string {
    TrimEnd(TrimStart(s))
  }

  /** The trim has no whitespace at its ends and is what is left of `s` once
      a whitespace prefix and a whitespace suffix are cut. */
  lemma TrimFacts(s: string)
    ensures IsTrimmed(Trim(s))
    ensures exists i, j :: 0 <= i <= j <= |s| && Trim(s) == s[i..j] && AllWhitespace(s[..i]) && AllWhitespace(s[j..])
  {
    var t := TrimStart(s);
    TrimStartFacts(s);
    var r := TrimEnd(t);
    TrimEndFacts(t);
    var i := |s| - |t|;
    var j := i + |r|;
    assert r == s[i..j] && s[j..] == t[|r|..];
    assert r != [] ==> r[0] == t[0];
  }

  /** A string without whitespace at either end is its own trim. */
  lemma TrimOfTrimmed(s: string)
    requires IsTrimmed(s)
    ensures Trim(s) == s
  {
  }

  /** Trimming twice is trimming once. */
  lemma TrimIdempotent(s: string)
    ensures Trim(Trim(s)) == Trim(s)
  {
    TrimFacts(s);
    TrimOfTrimmed(Trim(s));
  }

  // ---------------------------------------------------------------------------
  // str::split_once

  /** `str::split_once(sep)`: the text before the first `sep` and the text
      after it, or None when `sep` does not occur. */
  function SplitOnce(s: string, sep: char): Option<(string, string)>
  {
    if s == [] then None
    else if s[0] == sep then Some(([], s[1..]))
    else
      match SplitOnce(s[1..], sep)
      case None => None
      case Some((before, after)) => Some(([s[0]] + before, after))
  }

  /** `split_once` finds nothing exactly when there is no separator, and
      otherwise cuts at a separator with none before it. */
  lemma {:induction false} SplitOnceFacts(s: string, sep: char)
    ensures SplitOnce(s, sep).None? <==> sep !in s
    ensures var r := SplitOnce(s, sep);
            r.Some? ==> s == r.value.0 + [sep] + r.value.1 && sep !in r.value.0
  {
    if s != [] && s[0] != sep {
      SplitOnceFacts(s[1..], sep);
      assert s == [s[0]] + s[1..];
    }
  }

  /** The split at the first separator is the only split whose left part has
      no separator. */
  lemma SplitUnique(a1: string, b1: string, a2: string, b2: string, sep: char)
    requires a1 + [sep] + b1 == a2 + [sep] + b2
    requires sep !in a1 && sep !in a2
    ensures a1 == a2 && b1 == b2
  {
    var s := a1 + [sep] + b1;
    assert s[|a1|] == sep && s[|a2|] == sep;
    assert |a1| == |a2|;
    assert a1 == s[..|a1|] == a2;
    assert b1 == s[|a1| + 1..] == b2;
  }

  // ---------------------------------------------------------------------------
  // i32::from_str

  predicate IsDigit(c: char) {
    '0' <= c <= '9'
  }

  predicate AllDigits(s: string) {
    forall i :: 0 <= i < |s| ==> IsDigit(s[i])
  }

  /** The number a run of decimal digits denotes. */
  function DigitsValue(ds: string): nat
    requires AllDigits(ds)
  {
    if ds == [] then 0
    else DigitsValue(ds[..|ds| - 1]) * 10 + (ds[|ds| - 1] as int - '0' as int)
  }

  /** `i32::from_str`: an optional `+` or `-`, then one or more ASCII digits,
      whose value must lie in the `i32` range; nothing else (no spaces) is
      accepted. */
  function ParseI32(s: string): Option<i32>
  {
    if s == [] then None
    else
      var negative := s[0] == '-';
      var digits := if s[0] == '-' || s[0] == '+' then s[1..] else s;
      if digits == [] || !AllDigits(digits) then None
      else
        var magnitude: int := DigitsValue(digits);
        var v := if negative then -magnitude else magnitude;
        if -0x8000_0000 <= v < 0x8000_0000 then Some(v) else None
  }

  /** Decimal digits of `n`, most significant first, no leading zero. */
  function NatDigits(n: nat): (ds: string)
    ensures ds != [] && AllDigits(ds)
  {
    if n < 10 then ['0' + n as char]
    else NatDigits(n / 10) + ['0' + (n % 10) as char]
  }

  /** How Rust prints an `i32` (a leading `-` for negatives). */
  function ShowI32(n: i32): (s: string)
    ensures s != [] && (s[0] == '-' || IsDigit(s[0]))
    ensures ':' !in s
  {
    var m: int := n;
    if m < 0 then "-" + NatDigits(-m) else NatDigits(m)
  }

  lemma {:induction false} NatDigitsValue(n: nat)
    ensures DigitsValue(NatDigits(n)) == n
  {
    if n >= 10 {
      var ds := NatDigits(n);
      assert ds[..|ds| - 1] == NatDigits(n / 10);
      NatDigitsValue(n / 10);
    }
  }

  /** Parsing what Rust prints for an `i32` gives the number back. */
  lemma ParseShowI32(n: i32)
    ensures ParseI32(ShowI32(n)) == Some(n)
  {
    var m: int := n;
    NatDigitsValue(if m < 0 then -m else m);
    var s := ShowI32(n);
    if m < 0 {
      assert s[1..] == NatDigits(-m);
    }
  }

  /** What a successful parse accepted: a sign at most, then digits only. */
  lemma ParseI32Accepts(s: string)
    requires ParseI32(s).Some?
    ensures s != []
    ensures var digits := if s[0] == '-' || s[0] == '+' then s[1..] else s;
            digits != [] && AllDigits(digits)
    ensures !IsWhitespace(s[0]) && !IsWhitespace(s[|s| - 1])
  {
  }

  // ---------------------------------------------------------------------------
  // The reply

  /** The reading of a registry reply (lines 138-143): trim it; split at the
      first ':'; the left part parsed as an `i32` is the code (the sentinel
      -99 when it does not parse), the trimmed right part the message. With
      no ':' the code is -99 and the whole trimmed reply is the message. */
  function ParseReply(response: string): (i32, string)
  {
    var response := Trim(response);
    match SplitOnce(response, ':')
    case Some((code, msg)) => (ParseI32(code).GetOr(Sentinel), Trim(msg))
    case None => (Sentinel, response)
  }

  /** A reply without ':' is an error reply carrying the trimmed text. */
  lemma ParseReplyNoColon(response: string)
    requires ':' !in Trim(response)
    ensures ParseReply(response) == (Sentinel, Trim(response))
    ensures FromReplyCode(ParseReply(response).0) == Error
  {
    SplitOnceFacts(Trim(response), ':');
  }

  /** The same, for a reply that arrives already trimmed. */
  lemma ParseReplyTrimmedNoColon(response: string)
    requires IsTrimmed(response) && ':' !in response
    ensures ParseReply(response) == (Sentinel, response)
  {
    TrimOfTrimmed(response);
    ParseReplyNoColon(response);
  }

  /** With a ':' the reply splits at the first one: the code comes from the
      text before it (or is -99), the message is the trimmed text after it. */
  lemma ParseReplyFirstColon(response: string, before: string, after: string)
    requires Trim(response) == before + ":" + after
    requires ':' !in before
    ensures ParseReply(response).0 == ParseI32(before).GetOr(Sentinel)
    ensures ParseReply(response).1 == Trim(after)
  {
    var t := Trim(response);
    var r := SplitOnce(t, ':');
    SplitOnceFacts(t, ':');
    SplitUnique(r.value.0, r.value.1, before, after, ':');
  }

  /** The registry's format: a code, a ':' and the message. */
  function FormatReply(code: i32, message: string): string {
    ShowI32(code) + ":" + message
  }

  /** Reading a well-formed reply returns its code and message, whatever the
      message holds (further colons included) as long as it has no whitespace
      at its ends. */
  lemma ParseFormatReply(code: i32, message: string)
    requires IsTrimmed(message)
    ensures ParseReply(FormatReply(code, message)) == (code, message)
  {
    var shown := ShowI32(code);
    var s := FormatReply(code, message);
    assert s[0] == shown[0];
    assert s[|s| - 1] == if message == [] then ':' else message[|message| - 1];
    TrimOfTrimmed(s);
    ParseReplyFirstColon(s, shown, message);
    ParseShowI32(code);
    TrimOfTrimmed(message);
  }

  /** A reply's code is always in the `i32` range and is -99 unless the text
      before the first ':' is a well-formed number. */
  lemma ParseReplyCodeSource(response: string)
    requires ParseReply(response).0 != Sentinel
    ensures ':' in Trim(response)
  {
    SplitOnceFacts(Trim(response), ':');
  }

  lemma GarbageReply()
    ensures ParseReply("garbage") == (-99, "garbage")
  {
    ParseReplyTrimmedNoColon("garbage");
  }

  lemma OkReply()
    ensures ParseReply("1:ok") == (1, "ok")
  {
    assert NatDigits(1) == "1";
    assert ShowI32(1) == "1";
    assert FormatReply(1, "ok") == "1:ok";
    assert IsTrimmed("ok");
    ParseFormatReply(1, "ok");
  }

  lemma TakenReply()
    ensures ParseReply("0:taken") == (0, "taken")
  {
    assert NatDigits(0) == "0";
    assert ShowI32(0) == "0";
    assert FormatReply(0, "taken") == "0:taken";
    assert IsTrimmed("taken");
    ParseFormatReply(0, "taken");
  }

  lemma RateLimitedReply()
    ensures ParseReply("-95:slow") == (-95, "slow")
  {
    assert NatDigits(9) == "9";
    assert NatDigits(95) == "95";
    assert ShowI32(-95) == "-95";
    assert FormatReply(-95, "slow") == "-95:slow";
    assert IsTrimmed("slow");
    ParseFormatReply(-95, "slow");
  }
}
