/** The two string operations the core applies to user input: Python's
    str.strip() (mesh texts and node ids) and str.lower() (alert frequencies). */
module Text {

  /** The characters for which Python's str.isspace() holds, which are the
      characters str.strip() removes when called without arguments. */
  predicate IsSpace(c: char) {
    var n := c as int;
    (9 <= n <= 13) || (28 <= n <= 32) || n == 0x85 || n == 0xA0 || n == 0x1680
    || (0x2000 <= n <= 0x200A) || n == 0x2028 || n == 0x2029 || n == 0x202F
    || n == 0x205F || n == 0x3000
  }

  predicate AllSpace(s: string) {
    forall i :: 0 <= i < |s| ==> IsSpace(s[i])
  }

  /** True when s neither starts nor ends with white space. */
  predicate Trimmed(s: string) {
    s == [] || (!IsSpace(s[0]) && !IsSpace(s[|s| - 1]))
  }

  /** s without its leading white space. */
  function TrimStart(s: string): (r: string)
    ensures |r| <= |s|
  {
    if s != [] && IsSpace(s[0]) then TrimStart(s[1..]) else s
  }

  /** s without its trailing white space. */
  function TrimEnd(s: string): (r: string)
    ensures |r| <= |s|
  {
    if s != [] && IsSpace(s[|s| - 1]) then TrimEnd(s[..|s| - 1]) else s
  }

  /** TrimStart removes a run of white space and stops at the first other
      character. */
  lemma {:induction false} TrimStartRemovesLead(s: string)
    ensures var r := TrimStart(s);
      r == s[|s| - |r|..] && AllSpace(s[..|s| - |r|]) && (r == [] || !IsSpace(r[0]))
    decreases |s|
  {
    if s != [] && IsSpace(s[0]) {
      TrimStartRemovesLead(s[1..]);
      var r := TrimStart(s[1..]);
      assert s[1..][|s| - 1 - |r|..] == s[|s| - |r|..];
      assert s[..|s| - |r|] == [s[0]] + s[1..][..|s| - 1 - |r|];
    }
  }

  /** TrimEnd removes a run of white space and stops at the last other
      character. */
  lemma {:induction false} TrimEndRemovesTrail(s: string)
    ensures var r := TrimEnd(s);
      r == s[..|r|] && AllSpace(s[|r|..]) && (r == [] || !IsSpace(r[|r| - 1]))
    decreases |s|
  {
    if s != [] && IsSpace(s[|s| - 1]) {
      TrimEndRemovesTrail(s[..|s| - 1]);
      var r := TrimEnd(s[..|s| - 1]);
      assert s[..|s| - 1][..|r|] == s[..|r|];
      assert s[|r|..] == s[..|s| - 1][|r|..] + [s[|s| - 1]];
    }
  }

  /** Python's s.strip(): what is left after removing white space at both
      ends. */
  function Strip(s: string): (r: string)
    ensures |r| <= |s|
  {
    TrimEnd(TrimStart(s))
  }

  /** The stripped text neither starts nor ends with white space. */
  lemma StripTrimmed(s: string)
    ensures Trimmed(Strip(s))
  {
    var t := TrimStart(s);
    var r := TrimEnd(t);
    TrimStartRemovesLead(s);
    TrimEndRemovesTrail(t);
    assert r != [] ==> r[0] == t[0];
  }

  /** Every string is its stripped text with a run of white space on either
      side; with StripRecovers this pins Strip down completely. */
  lemma StripSplits(s: string)
    ensures exists lead, trail :: AllSpace(lead) && AllSpace(trail) && s == lead + Strip(s) + trail
  {
    var t := TrimStart(s);
    var r := TrimEnd(t);
    TrimStartRemovesLead(s);
    TrimEndRemovesTrail(t);
    SplitAt(s, s[..|s| - |t|], t, r, t[|r|..]);
  }

  /** The split step behind StripSplits: a string cut into white space, the
      stripped text and white space. */
  lemma SplitAt(s: string, lead: string, t: string, r: string, trail: string)
    requires |t| <= |s| && lead == s[..|s| - |t|] && t == s[|s| - |t|..]
    requires |r| <= |t| && r == t[..|r|] && trail == t[|r|..]
    requires AllSpace(lead) && AllSpace(trail)
    ensures exists lead, trail :: AllSpace(lead) && AllSpace(trail) && s == lead + r + trail
  {
    assert s == lead + t;
    assert t == r + trail;
    assert lead + r + trail == lead + (r + trail);
  }

  /** Strip recovers the text between any run of leading and any run of
      trailing white space: it removes exactly those runs, nothing more. */
  lemma {:induction false} StripRecovers(lead: string, t: string, trail: string)
    requires AllSpace(lead) && AllSpace(trail) && Trimmed(t)
    ensures Strip(lead + t + trail) == t
  {
    var s := lead + t + trail;
    if t == [] {
      assert forall i :: 0 <= i < |s| ==> s[i] == if i < |lead| then lead[i] else trail[i - |lead|];
      assert AllSpace(s);
      TrimStartRecovers(s, []);
      assert s + [] == s;
    } else {
      TrimStartRecovers(lead, t + trail);
      assert TrimStart(s) == t + trail by { assert s == lead + (t + trail); }
      TrimEndRecovers(t, trail);
    }
  }

  lemma {:induction false} TrimStartRecovers(lead: string, rest: string)
    requires AllSpace(lead) && (rest == [] || !IsSpace(rest[0]))
    ensures TrimStart(lead + rest) == rest
    decreases |lead|
  {
    if lead != [] {
      assert (lead + rest)[1..] == lead[1..] + rest;
      TrimStartRecovers(lead[1..], rest);
    } else {
      assert lead + rest == rest;
    }
  }

  lemma {:induction false} TrimEndRecovers(t: string, trail: string)
    requires AllSpace(trail) && (t == [] || !IsSpace(t[|t| - 1]))
    ensures TrimEnd(t + trail) == t
    decreases |trail|
  {
    if trail != [] {
      var s := t + trail;
      assert s[..|s| - 1] == t + trail[..|trail| - 1];
      TrimEndRecovers(t, trail[..|trail| - 1]);
    } else {
      assert t + trail == t;
    }
  }

  /** Stripping twice is the same as stripping once. */
  lemma StripIdempotent(s: string)
    ensures Strip(Strip(s)) == Strip(s)
  {
    StripTrimmed(s);
    StripRecovers([], Strip(s), []);
    assert [] + Strip(s) + [] == Strip(s);
  }

  /** Case folding of one character as far as it matters for matching the
      frequency names "once", "hourly", "daily" and "weekly": ASCII capitals,
      and the Kelvin sign, which Python's str.lower() turns into 'k'. */
  function LowerChar(c: char): char {
    if 'A' <= c <= 'Z' then (c as int + 32) as char
    else if c as int == 0x212A then 'k'
    else c
  }

  function Lower(s: string): (r: string)
    ensures |r| == |s|
    ensures forall i :: 0 <= i < |s| ==> r[i] == LowerChar(s[i])
  {
    if s == [] then [] else [LowerChar(s[0])] + Lower(s[1..])
  }
}
