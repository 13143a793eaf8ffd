/**
 * Text normalisation used on every extracted field: Python's `str.strip()`
 * and the single `re.sub` pass that deletes the comment counter's
 * "per hour" suffix.
 */
module Text {

  /** The characters for which Python's `str.isspace()` holds. */
  predicate IsSpace(c: char) {
    || c == ' '
    || '\U{9}' <= c <= '\U{D}'
    || '\U{1C}' <= c <= '\U{1F}'
    || c == '\U{85}' || c == '\U{A0}' || c == '\U{1680}'
    || '\U{2000}' <= c <= '\U{200A}'
    || c == '\U{2028}' || c == '\U{2029}' || c == '\U{202F}' || c == '\U{205F}'
    || c == '\U{3000}'
  }

  predicate AllSpace(s: string) {
    forall k :: 0 <= k < |s| ==> IsSpace(s[k])
  }

  /** Neither end of `s` is a whitespace character. */
  predicate IsStripped(s: string) {
    s != [] ==> !IsSpace(s[0]) && !IsSpace(s[|s| - 1])
  }

  /** The length of the run of whitespace at the start of `s`. */
  function LeadingSpaces(s: string): (n: nat)
    ensures n <= |s|
    ensures forall k :: 0 <= k < n ==> IsSpace(s[k])
    ensures n < |s| ==> !IsSpace(s[n])
  {
    if s != [] && IsSpace(s[0]) then 1 + LeadingSpaces(s[1..]) else 0
  }

  /** The length of the run of whitespace at the end of `s`. */
  function TrailingSpaces(s: string): (n: nat)
    ensures n <= |s|
    ensures forall k :: |s| - n <= k < |s| ==> IsSpace(s[k])
    ensures n < |s| ==> !IsSpace(s[|s| - 1 - n])
  {
    if s != [] && IsSpace(s[|s| - 1]) then 1 + TrailingSpaces(s[..|s| - 1]) else 0
  }

  /** Python's `s.strip()`: the leading run of whitespace goes, then the trailing one. */
  function Strip(s: string): (r: string)
    ensures |r| <= |s| && IsStripped(r)
  {
    var u := s[LeadingSpaces(s)..];
    u[..|u| - TrailingSpaces(u)]
  }

  /** `s` is the stripped text with a run of whitespace on either side. */
  lemma StripDecomposes(s: string) returns (lead: string, trail: string)
    ensures AllSpace(lead) && AllSpace(trail)
    ensures s == lead + Strip(s) + trail
  {
    var i := LeadingSpaces(s);
    var u := s[i..];
    var n := |u| - TrailingSpaces(u);
    lead, trail := s[..i], u[n..];
    LeadIsSpace(s);
    TrailIsSpace(u);
    SplitThree(s, i, n);
  }

  lemma SplitThree(s: string, i: nat, n: nat)
    requires i <= |s| && n <= |s| - i
    ensures s == s[..i] + s[i..][..n] + s[i..][n..]
  {
    assert s[i..] == s[i..][..n] + s[i..][n..];
  }

  lemma LeadIsSpace(s: string)
    ensures AllSpace(s[..LeadingSpaces(s)])
  {
    var lead := s[..LeadingSpaces(s)];
    forall k | 0 <= k < |lead| ensures IsSpace(lead[k]) { assert lead[k] == s[k]; }
  }

  lemma TrailIsSpace(u: string)
    ensures AllSpace(u[|u| - TrailingSpaces(u)..])
  {
    var j := TrailingSpaces(u);
    var trail := u[|u| - j..];
    forall k | 0 <= k < |trail| ensures IsSpace(trail[k]) { assert trail[k] == u[|u| - j + k]; }
  }

  /** A leading run of spaces followed by a non-space, or by nothing, is exactly what LeadingSpaces counts. */
  lemma LeadingSpacesOf(a: string, t: string)
    requires AllSpace(a) && (t != [] ==> !IsSpace(t[0]))
    ensures LeadingSpaces(a + t) == |a|
  {
    assert forall k :: 0 <= k < |a| ==> (a + t)[k] == a[k];
    assert t != [] ==> (a + t)[|a|] == t[0];
  }

  /** A trailing run of spaces after a non-space, or after nothing, is exactly what TrailingSpaces counts. */
  lemma TrailingSpacesOf(t: string, b: string)
    requires AllSpace(b) && (t != [] ==> !IsSpace(t[|t| - 1]))
    ensures TrailingSpaces(t + b) == |b|
  {
    assert forall k :: |t| <= k < |t + b| ==> (t + b)[k] == b[k - |t|];
    assert t != [] ==> (t + b)[|t| - 1] == t[|t| - 1];
  }

  /**
   * Strip is determined by its contract: whenever `s` is a run of spaces, a
   * stripped middle and a run of spaces, the middle is what Strip returns.
   */
  lemma StripUnique(a: string, m: string, b: string)
    requires AllSpace(a) && IsStripped(m) && AllSpace(b)
    ensures Strip(a + m + b) == m
  {
    var s := a + m + b;
    if m == [] {
      assert s == (a + b) + [];
      assert AllSpace(a + b) by {
        forall k | 0 <= k < |a + b| ensures IsSpace((a + b)[k]) {
          if k < |a| { assert (a + b)[k] == a[k]; } else { assert (a + b)[k] == b[k - |a|]; }
        }
      }
      LeadingSpacesOf(a + b, []);
    } else {
      assert s == a + (m + b);
      LeadingSpacesOf(a, m + b);
      assert s[|a|..] == m + b;
      TrailingSpacesOf(m, b);
      assert (m + b)[..|m|] == m;
    }
  }

  /** Stripping twice is stripping once. */
  lemma StripIdempotent(s: string)
    ensures Strip(Strip(s)) == Strip(s)
  {
    var m := Strip(s);
    StripUnique([], m, []);
    assert [] + m + [] == m;
  }

  /** The counter suffix "件/時" ("per hour") that the comment column loses. */
  const NoiseToken: string := "件/時"

  /** The suffix starts at position `i` of `s`. */
  predicate NoiseAt(s: string, i: nat) {
    i + 3 <= |s| && s[i] == '件' && s[i + 1] == '/' && s[i + 2] == '時'
  }

  predicate ContainsNoise(s: string) {
    exists i: nat | i < |s| :: NoiseAt(s, i)
  }

  /**
   * `re.sub(r'件/時', '', s)`: one left-to-right scan that deletes every
   * non-overlapping occurrence of the token and keeps every other character.
   */
  function RemoveNoise(s: string): (r: string)
    ensures |r| <= |s|
  {
    if |s| < |NoiseToken| then s
    else if s[..|NoiseToken|] == NoiseToken then RemoveNoise(s[|NoiseToken|..])
    else
      assert s == [s[0]] + s[1..];
      [s[0]] + RemoveNoise(s[1..])
  }

  lemma NoiseShift(s: string, i: nat)
    requires s != [] && NoiseAt(s[1..], i)
    ensures NoiseAt(s, i + 1)
  {
    assert s[1..][i] == s[i + 1] && s[1..][i + 1] == s[i + 2] && s[1..][i + 2] == s[i + 3];
  }

  /** Comparing the first three characters with the token is asking whether the token starts at 0. */
  lemma TokenAtStart(s: string)
    requires |s| >= |NoiseToken|
    ensures s[..|NoiseToken|] == NoiseToken <==> NoiseAt(s, 0)
  {
    if NoiseAt(s, 0) {
      assert s[..3] == [s[0], s[1], s[2]];
    }
  }

  /** A string that holds the token gets strictly shorter under RemoveNoise. */
  lemma {:induction false} RemoveNoiseShrinks(s: string)
    requires ContainsNoise(s)
    ensures |RemoveNoise(s)| < |s|
    decreases |s|
  {
    var i: nat :| NoiseAt(s, i);
    assert NoiseAt(s, i);
    TokenAtStart(s);
    if !NoiseAt(s, 0) {
      assert s[1..][i - 1] == s[i] && s[1..][i] == s[i + 1] && s[1..][i + 1] == s[i + 2];
      assert NoiseAt(s[1..], i - 1);
      RemoveNoiseShrinks(s[1..]);
    }
  }

  /** RemoveNoise leaves `s` unchanged exactly when `s` has no occurrence of the token. */
  lemma {:induction false} RemoveNoiseFixedIff(s: string)
    ensures RemoveNoise(s) == s <==> !ContainsNoise(s)
    decreases |s|
  {
    if ContainsNoise(s) {
      RemoveNoiseShrinks(s);
    } else if |s| >= 3 {
      TokenAtStart(s);
      if ContainsNoise(s[1..]) {
        var i: nat :| NoiseAt(s[1..], i);
        assert NoiseAt(s[1..], i);
        NoiseShift(s, i);
      }
      RemoveNoiseFixedIff(s[1..]);
    }
  }

  /**
   * Appending the token to any string is undone by RemoveNoise: the token
   * has no proper prefix that is also a suffix, so the scan can never
   * straddle the join.
   */
  lemma {:induction false} RemoveNoiseDropsSuffix(s: string)
    ensures RemoveNoise(s + NoiseToken) == RemoveNoise(s)
    decreases |s|
  {
    var t := s + NoiseToken;
    if s == [] {
      assert t == NoiseToken;
    } else if |s| >= 3 {
      assert t[..3] == s[..3];
      assert t[3..] == s[3..] + NoiseToken;
      assert t[1..] == s[1..] + NoiseToken;
      RemoveNoiseDropsSuffix(s[3..]);
      RemoveNoiseDropsSuffix(s[1..]);
    } else {
      assert t[..3] != NoiseToken by {
        if |s| == 1 { assert t[1] == '件'; } else { assert t[2] == '件'; }
      }
      assert t[1..] == s[1..] + NoiseToken;
      RemoveNoiseDropsSuffix(s[1..]);
    }
  }

  /** Dropping the first character of a token-free text leaves it token-free. */
  lemma NoNoiseTail(a: string)
    requires a != [] && !ContainsNoise(a)
    ensures !ContainsNoise(a[1..])
  {
    forall i: nat | i < |a[1..]| ensures !NoiseAt(a[1..], i) {
      assert !NoiseAt(a, i + 1);
      if i + 3 <= |a[1..]| {
        assert a[1..][i] == a[i + 1] && a[1..][i + 1] == a[i + 2] && a[1..][i + 2] == a[i + 3];
      }
    }
  }

  /**
   * The scan keeps a token-free prefix as it is, deletes the token that
   * follows it, and carries on with the rest. With RemoveNoiseFixedIff this
   * determines RemoveNoise on every text: either the text has no token, or
   * it splits at the first occurrence.
   */
  lemma {:induction false} RemoveNoiseFirstToken(a: string, b: string)
    requires !ContainsNoise(a)
    ensures RemoveNoise(a + NoiseToken + b) == a + RemoveNoise(b)
    decreases |a|
  {
    var s := a + NoiseToken + b;
    if a == [] {
      assert s == NoiseToken + b;
      assert s[..3] == NoiseToken && s[3..] == b;
    } else {
      TokenAtStart(s);
      if |a| >= 3 {
        assert s[0] == a[0] && s[1] == a[1] && s[2] == a[2];
        assert !NoiseAt(a, 0);
      } else if |a| == 1 {
        assert s[1] == '件';
      } else {
        assert s[2] == '件';
      }
      assert s[1..] == a[1..] + NoiseToken + b;
      NoNoiseTail(a);
      RemoveNoiseFirstToken(a[1..], b);
      assert [a[0]] + (a[1..] + RemoveNoise(b)) == a + RemoveNoise(b);
    }
  }

  /** A counter reading "120件/時" loses its suffix and keeps the number. */
  lemma CounterLosesSuffix()
    ensures RemoveNoise("120件/時") == "120"
  {
    assert "120件/時" == "120" + NoiseToken;
    assert !NoiseAt("120", 0);
    assert !ContainsNoise("120");
    RemoveNoiseDropsSuffix("120");
    RemoveNoiseFixedIff("120");
  }

  /**
   * One pass is not idempotent: on "件件/時/時" the pass deletes the inner
   * token and the characters around it form a new one.
   */
  lemma RemoveNoiseNotIdempotent()
    ensures RemoveNoise("件件/時/時") == NoiseToken
    ensures RemoveNoise(RemoveNoise("件件/時/時")) != RemoveNoise("件件/時/時")
  {
    var s := "件件/時/時";
    assert s[1] == '件';
    assert s[..3] != NoiseToken;
    assert s[1..][..3] == NoiseToken;
    assert s[1..][3..] == "/時";
    assert NoiseAt(NoiseToken, 0);
    RemoveNoiseFixedIff(NoiseToken);
  }
}
