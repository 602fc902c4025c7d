/** Character classes and the two string primitives of PHP that the memory-limit
    rule relies on: `strtolower` on a single character and `trim` with its default
    character list. Strings are sequences of characters; PHP's byte strings are
    taken to hold ASCII text. */
module PhpStrings {

  predicate IsDigit(c: char) {
    '0' <= c <= '9'
  }

  predicate IsAsciiUpper(c: char) {
    'A' <= c <= 'Z'
  }

  /** The white space PHP skips in front of a number when it converts a string
      (space, tab, line feed, carriage return, vertical tab, form feed). */
  predicate IsNumericSpace(c: char) {
    c == ' ' || c == '\t' || c == '\n' || c == '\r' || c == '\U{000B}' || c == '\U{000C}'
  }

  /** The characters `trim` strips by default (space, tab, line feed, carriage
      return, NUL, vertical tab). */
  predicate IsTrimmable(c: char) {
    c == ' ' || c == '\t' || c == '\n' || c == '\r' || c == '\0' || c == '\U{000B}'
  }

  predicate AllTrimmable(s: string) {
    forall i :: 0 <= i < |s| ==> IsTrimmable(s[i])
  }

  /** Neither end of `s` is a character `trim` would strip. */
  predicate TrimClean(s: string) {
    s == [] || (!IsTrimmable(s[0]) && !IsTrimmable(s[|s| - 1]))
  }

  /** `strtolower` on one character: ASCII upper-case letters become lower case,
      everything else is left alone. */
  function ToLower(c: char): (r: char)
    ensures !IsAsciiUpper(r)
    ensures r != c ==> IsAsciiUpper(c)
    ensures IsAsciiUpper(c) ==> 'a' <= r <= 'z' && r as int - c as int == 'a' as int - 'A' as int
  {
    if IsAsciiUpper(c) then (c as int - 'A' as int + 'a' as int) as char else c
  }

  /** `ltrim`: drops the leading run of trimmable characters. */
  function TrimLeft(s: string): string {
    if |s| > 0 && IsTrimmable(s[0]) then TrimLeft(s[1..]) else s
  }

  /** `rtrim`: drops the trailing run of trimmable characters. */
  function TrimRight(s: string): string {
    if |s| > 0 && IsTrimmable(s[|s| - 1]) then TrimRight(s[..|s| - 1]) else s
  }

  /** `ltrim` keeps a suffix, what it drops is trimmable and what it keeps does
      not start with a trimmable character. */
  lemma {:induction false} TrimLeftSpec(s: string)
    ensures |TrimLeft(s)| <= |s| && TrimLeft(s) == s[|s| - |TrimLeft(s)|..]
    ensures TrimLeft(s) == [] || !IsTrimmable(TrimLeft(s)[0])
    ensures AllTrimmable(s[..|s| - |TrimLeft(s)|])
    decreases |s|
  {
    if |s| > 0 && IsTrimmable(s[0]) {
      TrimLeftSpec(s[1..]);
      var r := TrimLeft(s[1..]);
      assert s[..|s| - |r|] == [s[0]] + s[1..][..|s| - 1 - |r|];
    }
  }

  /** `rtrim` keeps a prefix, what it drops is trimmable and what it keeps does
      not end with a trimmable character. */
  lemma {:induction false} TrimRightSpec(s: string)
    ensures |TrimRight(s)| <= |s| && TrimRight(s) == s[..|TrimRight(s)|]
    ensures TrimRight(s) == [] || !IsTrimmable(TrimRight(s)[|TrimRight(s)| - 1])
    ensures AllTrimmable(s[|TrimRight(s)|..])
    decreases |s|
  {
    if |s| > 0 && IsTrimmable(s[|s| - 1]) {
      TrimRightSpec(s[..|s| - 1]);
      var r := TrimRight(s[..|s| - 1]);
      assert s[|r|..] == s[..|s| - 1][|r|..] + [s[|s| - 1]];
    }
  }

  /** `trim` with the default character list. */
  function Trim(s: string): (r: string)
    ensures TrimClean(r)
    ensures |r| <= |s|
  {
    TrimLeftSpec(s);
    TrimRightSpec(TrimLeft(s));
    var l := TrimLeft(s);
    var r := TrimRight(l);
    assert r != [] ==> r[0] == l[0];
    r
  }

  lemma {:induction false} TrimLeftOfPadded(pad: string, s: string)
    requires AllTrimmable(pad)
    requires s == [] || !IsTrimmable(s[0])
    ensures TrimLeft(pad + s) == s
    decreases |pad|
  {
    if pad != [] {
      assert (pad + s)[1..] == pad[1..] + s;
      TrimLeftOfPadded(pad[1..], s);
    } else {
      assert pad + s == s;
    }
  }

  lemma {:induction false} TrimRightOfPadded(s: string, pad: string)
    requires AllTrimmable(pad)
    requires s == [] || !IsTrimmable(s[|s| - 1])
    ensures TrimRight(s + pad) == s
    decreases |pad|
  {
    if pad != [] {
      assert (s + pad)[..|s + pad| - 1] == s + pad[..|pad| - 1];
      TrimRightOfPadded(s, pad[..|pad| - 1]);
    } else {
      assert s + pad == s;
    }
  }

  /** `trim` recovers a clean string from any padding of trimmable characters
      on either side; with the ensures of Trim this characterises it fully. */
  lemma TrimOfPadded(before: string, s: string, after: string)
    requires AllTrimmable(before) && AllTrimmable(after)
    requires TrimClean(s)
    ensures Trim(before + s + after) == s
  {
    if s == [] {
      assert before + s + after == before + after;
      if after == [] {
        assert before + after == before + [];
        TrimLeftOfPadded(before, []);
      } else {
        AllTrimmableConcat(before, after);
        TrimLeftOfPadded(before + after, []);
        assert before + after == (before + after) + [];
      }
    } else {
      assert before + s + after == before + (s + after);
      TrimLeftOfPadded(before, s + after);
      TrimRightOfPadded(s, after);
    }
  }

  lemma AllTrimmableConcat(a: string, b: string)
    requires AllTrimmable(a) && AllTrimmable(b)
    ensures AllTrimmable(a + b)
  {
    forall i | 0 <= i < |a + b| ensures IsTrimmable((a + b)[i]) {
      if i >= |a| {
        assert (a + b)[i] == b[i - |a|];
      }
    }
  }

  lemma Regroup(a: string, b: string, c: string, d: string, e: string)
    ensures a + (b + c + d) + e == (a + b) + c + (d + e)
  {
  }

  /** Every string is its trimmed core between two runs of trimmable
      characters. */
  lemma Decompose(s: string) returns (lead: string, trail: string)
    ensures s == lead + Trim(s) + trail
    ensures AllTrimmable(lead) && AllTrimmable(trail)
  {
    var l := TrimLeft(s);
    lead := LeadOf(s);
    trail := TrailOf(l);
    Nest(s, lead, l, TrimRight(l), trail);
  }

  lemma Nest(s: string, lead: string, l: string, r: string, trail: string)
    requires s == lead + l && l == r + trail
    ensures s == lead + r + trail
  {
  }

  lemma LeadOf(s: string) returns (lead: string)
    ensures s == lead + TrimLeft(s) && AllTrimmable(lead)
  {
    TrimLeftSpec(s);
    var l := TrimLeft(s);
    lead := s[..|s| - |l|];
    SplitAt(s, |s| - |l|);
  }

  lemma TrailOf(l: string) returns (trail: string)
    ensures l == TrimRight(l) + trail && AllTrimmable(trail)
  {
    TrimRightSpec(l);
    var r := TrimRight(l);
    trail := l[|r|..];
    SplitAt(l, |r|);
  }

  lemma SplitAt(s: string, k: nat)
    requires k <= |s|
    ensures s == s[..k] + s[k..]
  {
  }

  /** Extra trimmable characters on either side do not change the result. */
  lemma TrimIgnoresPadding(before: string, s: string, after: string)
    requires AllTrimmable(before) && AllTrimmable(after)
    ensures Trim(before + s + after) == Trim(s)
  {
    var lead, trail := Decompose(s);
    Regroup(before, lead, Trim(s), trail, after);
    AllTrimmableConcat(before, lead);
    AllTrimmableConcat(trail, after);
    TrimOfPadded(before + lead, Trim(s), trail + after);
  }

  /** Trimming twice is the same as trimming once. */
  lemma TrimIdempotent(s: string)
    ensures Trim(Trim(s)) == Trim(s)
  {
    var t := Trim(s);
    assert t == [] + t + [];
    TrimOfPadded([], t, []);
  }
}
