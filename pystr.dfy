/** The Python string built-ins the pipeline relies on: str.strip(),
    str.lower() and str.endswith(), str() of a non-negative int, "".join(),
    and counting the places where a pattern occurs. */
module PyStr {

  /** The characters for which Python's str.isspace() holds; str.strip()
      without arguments removes exactly these from both ends. */
  predicate IsSpace(c: char) {
    ('\t' <= c <= '\r') || ('\U{1C}' <= c <= ' ') || c == '\U{85}' || c == '\U{A0}'
    || c == '\U{1680}' || ('\U{2000}' <= c <= '\U{200A}') || c == '\U{2028}'
    || c == '\U{2029}' || c == '\U{202F}' || c == '\U{205F}' || c == '\U{3000}'
  }

  predicate AllSpace(s: string) {
    forall i :: 0 <= i < |s| ==> IsSpace(s[i])
  }

  /** Every character of s from index a up to, not including, index b is
      whitespace: s[a..b] is all whitespace, stated on the indices of s. */
  predicate SpaceBetween(s: string, a: int, b: int) {
    forall k :: 0 <= a <= k < b <= |s| ==> IsSpace(s[k])
  }

  /** Neither the first nor the last character is whitespace. */
  predicate NoSurroundingSpace(s: string) {
    s == [] || (!IsSpace(s[0]) && !IsSpace(s[|s| - 1]))
  }

  /** The first index from a on that holds no whitespace, or |s|: where
      the leading whitespace of s[a..] ends. */
  function LeadEnd(s: string, a: nat): (i: nat)
    requires a <= |s|
    ensures a <= i <= |s| && SpaceBetween(s, a, i) && (i < |s| ==> !IsSpace(s[i]))
    decreases |s| - a
  {
    if a < |s| && IsSpace(s[a]) then LeadEnd(s, a + 1) else a
  }

  /** The index from which s[a..b] holds nothing but whitespace, scanning
      back from b: where the trailing whitespace of s[a..b] begins. */
  function TrailStart(s: string, a: nat, b: nat): (j: nat)
    requires a <= b <= |s|
    ensures a <= j <= b && SpaceBetween(s, j, b) && (a < j ==> !IsSpace(s[j - 1]))
  {
    if a < b && IsSpace(s[b - 1]) then TrailStart(s, a, b - 1) else b
  }

  /** str.strip(): a slice of s with only whitespace cut off on either side,
      and no whitespace left at either end. */
  function Strip(s: string): (r: string)
    ensures NoSurroundingSpace(r)
    ensures StripStart(s) + |r| <= |s| && r == s[StripStart(s)..StripStart(s) + |r|]
    ensures SpaceBetween(s, 0, StripStart(s)) && SpaceBetween(s, StripStart(s) + |r|, |s|)
  {
    var i := LeadEnd(s, 0);
    var j := TrailStart(s, i, |s|);
    s[i..j]
  }

  /** Where the text kept by Strip begins: the length of the leading whitespace. */
  function StripStart(s: string): (n: nat)
    ensures n <= |s|
  {
    LeadEnd(s, 0)
  }

  /** Stripping gives the empty string exactly when s is all whitespace. */
  lemma StripEmptyIff(s: string)
    ensures Strip(s) == [] <==> AllSpace(s)
  {
    var i := StripStart(s);
    if Strip(s) != [] {
      assert Strip(s)[0] == s[i];
    }
  }

  /** Strip is determined by its contract: any slice s[i..j] with whitespace
      outside it and none at its own ends is Strip(s). */
  lemma StripCharacterization(s: string, i: nat, j: nat)
    requires i <= j <= |s|
    requires SpaceBetween(s, 0, i) && SpaceBetween(s, j, |s|) && NoSurroundingSpace(s[i..j])
    ensures Strip(s) == s[i..j]
  {
    if i == j {
      assert AllSpace(s) by {
        forall k | 0 <= k < |s| ensures IsSpace(s[k]) {
          assert k < i || j <= k;
        }
      }
      StripEmptyIff(s);
    } else {
      assert s[i..j][0] == s[i] && s[i..j][j - i - 1] == s[j - 1];
      StripNonEmpty(s, i, j);
    }
  }

  lemma StripNonEmpty(s: string, i: nat, j: nat)
    requires i < j <= |s|
    requires SpaceBetween(s, 0, i) && SpaceBetween(s, j, |s|) && !IsSpace(s[i]) && !IsSpace(s[j - 1])
    ensures Strip(s) == s[i..j]
  {
    var r := Strip(s);
    var i' := StripStart(s);
    var j' := i' + |r|;
    // the kept slice reaches from s[i] to s[j - 1] at least
    assert i' <= i && j <= j';
    assert !IsSpace(s[i']) && !IsSpace(s[j' - 1]) by {
      assert r[0] == s[i'] && r[|r| - 1] == s[j' - 1];
    }
    // and no further
    assert i == i' && j == j';
  }

  /** Stripping twice is stripping once. */
  lemma StripIdempotent(s: string)
    ensures Strip(Strip(s)) == Strip(s)
  {
    var t := Strip(s);
    assert t[0..|t|] == t;
    StripCharacterization(t, 0, |t|);
  }

  /** Whitespace around a string with no whitespace at its ends is exactly
      what Strip removes. */
  lemma StripSurrounded(lead: string, s: string, trail: string)
    requires AllSpace(lead) && AllSpace(trail) && NoSurroundingSpace(s)
    ensures Strip(lead + s + trail) == s
  {
    var w := lead + s + trail;
    var i, j := |lead|, |lead| + |s|;
    assert forall k :: 0 <= k < i ==> w[k] == lead[k];
    assert forall k :: j <= k < |w| ==> w[k] == trail[k - j];
    assert w[i..j] == s;
    StripCharacterization(w, i, j);
  }

  /** str.lower() on the characters that can matter for a ".pdf" suffix:
      ASCII capitals become small letters, every other character is kept. */
  function LowerChar(c: char): (r: char)
    ensures 'a' <= r <= 'z' ==> r == c || r as int == c as int + 32
  {
    if 'A' <= c <= 'Z' then (c as int + 32) as char else c
  }

  /** str.lower(), ASCII capitals only: no capital is left, and every other
      character is kept where it stands. */
  function Lower(s: string): (r: string)
    ensures |r| == |s|
    ensures forall i :: 0 <= i < |r| ==> !('A' <= r[i] <= 'Z')
    ensures forall i :: 0 <= i < |s| ==> r[i] == s[i] || ('A' <= s[i] <= 'Z' && r[i] as int == s[i] as int + 32)
  {
    seq(|s|, i requires 0 <= i < |s| => LowerChar(s[i]))
  }

  /** str.endswith(suffix). */
  predicate EndsWith(s: string, suffix: string) {
    |suffix| <= |s| && s[|s| - |suffix|..] == suffix
  }

  /** s ends with suffix exactly when s is some text followed by suffix. */
  lemma EndsWithIff(s: string, suffix: string)
    ensures EndsWith(s, suffix) <==> exists prefix :: prefix + suffix == s
  {
    if EndsWith(s, suffix) {
      assert s[..|s| - |suffix|] + suffix == s;
    }
    forall prefix | prefix + suffix == s ensures EndsWith(s, suffix) {
      assert (prefix + suffix)[|prefix|..] == suffix;
    }
  }

  predicate IsDigit(c: char) {
    '0' <= c <= '9'
  }

  predicate AllDigits(s: string) {
    forall i :: 0 <= i < |s| ==> IsDigit(s[i])
  }

  function DigitChar(d: nat): (c: char)
    requires d < 10
    ensures IsDigit(c) && c as int - '0' as int == d
  {
    ('0' as int + d) as char
  }

  /** str(n) for a non-negative int: its decimal digits, most significant
      first, with no leading zero. */
  function NatToString(n: nat): (r: string)
    ensures r != [] && AllDigits(r)
    ensures r[0] == '0' ==> n == 0
  {
    if n < 10 then [DigitChar(n)] else NatToString(n / 10) + [DigitChar(n % 10)]
  }

  /** The value of a string of decimal digits, as int() reads it. */
  function DecimalValue(s: string): nat
    requires AllDigits(s)
  {
    if s == [] then 0 else 10 * DecimalValue(s[..|s| - 1]) + (s[|s| - 1] as int - '0' as int)
  }

  /** Reading back str(n) gives n, so distinct numbers print differently. */
  lemma {:induction false} DecimalRoundTrip(n: nat)
    ensures DecimalValue(NatToString(n)) == n
  {
    if n >= 10 {
      var r := NatToString(n);
      assert r[..|r| - 1] == NatToString(n / 10);
      DecimalRoundTrip(n / 10);
    }
  }

  /** "".join(parts): the parts in order; the first one opens the result. */
  function Concat(parts: seq<string>): (r: string)
    ensures parts != [] ==> |parts[0]| <= |r| && r[..|parts[0]|] == parts[0]
  {
    if parts == [] then ""
    else
      var init := Concat(parts[..|parts| - 1]);
      var last := parts[|parts| - 1];
      assert (init + last)[..|init|] == init;
      init + last
  }

  lemma {:induction false} ConcatAppend(a: seq<string>, b: seq<string>)
    ensures Concat(a + b) == Concat(a) + Concat(b)
  {
    if b != [] {
      assert (a + b)[..|a + b| - 1] == a + b[..|b| - 1];
      ConcatAppend(a, b[..|b| - 1]);
    } else {
      assert a + b == a;
    }
  }

  /** The number of positions at which pattern p occurs in s. For a pattern
      that cannot overlap itself this is what s.count(p) returns. */
  function Occurrences(p: string, s: string): nat
    requires p != []
    decreases |s|
  {
    if |s| < |p| then 0
    else (if s[..|p|] == p then 1 else 0) + Occurrences(p, s[1..])
  }

  /** No occurrence of a pattern free of line breaks spans a line break:
      the count of a concatenation is the sum of the counts when one side
      touches the joint with a '\n'. */
  lemma {:induction false} OccurrencesConcat(p: string, a: string, b: string)
    requires p != [] && '\n' !in p
    requires (a != [] && a[|a| - 1] == '\n') || (b != [] && b[0] == '\n') || a == [] || b == []
    ensures Occurrences(p, a + b) == Occurrences(p, a) + Occurrences(p, b)
    decreases |a|
  {
    if a == [] {
      assert a + b == b;
    } else if b == [] {
      assert a + b == a;
    } else {
      var w := a + b;
      assert w[1..] == a[1..] + b;
      OccurrencesConcat(p, a[1..], b);
      if |a| < |p| && |w| >= |p| {
        var k := if a[|a| - 1] == '\n' then |a| - 1 else |a|;
        assert w[k] == '\n' && w[..|p|][k] == w[k];
        assert w[..|p|] != p;
      } else if |a| >= |p| {
        assert w[..|p|] == a[..|p|];
      }
    }
  }

  /** Unfolding Occurrences at the first window: position k of the window
      decides whether it matches. */
  lemma OccurrencesStep(p: string, s: string, k: nat)
    requires p != [] && |p| <= |s| && k < |p|
    ensures s[k] != p[k] ==> Occurrences(p, s) == Occurrences(p, s[1..])
    ensures s[..|p|] == p ==> Occurrences(p, s) == 1 + Occurrences(p, s[1..])
  {
    assert s[..|p|][k] == s[k];
  }

  /** A string none of whose windows is p holds no occurrence of p. */
  lemma {:induction false} OccurrencesNone(p: string, s: string)
    requires p != []
    requires forall i :: 0 <= i <= |s| - |p| ==> s[i] != p[0]
    ensures Occurrences(p, s) == 0
    decreases |s|
  {
    if |s| >= |p| {
      assert s[..|p|][0] == s[0];
      forall i | 0 <= i <= |s[1..]| - |p| ensures s[1..][i] != p[0] {
        assert s[1..][i] == s[i + 1];
      }
      OccurrencesNone(p, s[1..]);
    }
  }

}
