/** Python's `str.isspace` and `str.strip()` (no argument), on strings of
    Unicode scalar values. The aggregator only asks whether a name strips
    to the empty string, and `AllSpace` is the independent statement of that. */
module PyText {

  /** A character for which Python's `str.isspace()` holds: the characters of
      bidirectional class WS, B or S, or of general category Zs. */
  predicate IsSpace(c: char) {
    var n := c as int;
    || (0x09 <= n <= 0x0D)
    || (0x1C <= n <= 0x20)
    || n == 0x85
    || n == 0xA0
    || n == 0x1680
    || (0x2000 <= n <= 0x200A)
    || n == 0x2028
    || n == 0x2029
    || n == 0x202F
    || n == 0x205F
    || n == 0x3000
  }

  /** Every character of `s` is white space (vacuously so for ""). */
  predicate AllSpace(s: string) {
    forall i :: 0 <= i < |s| ==> IsSpace(s[i])
  }

  /** `s.lstrip()`: the suffix of `s` left after its leading white space. */
  function LStrip(s: string): (r: string)
    ensures |r| <= |s| && r == s[|s| - |r|..]
    ensures AllSpace(s[..|s| - |r|])
    ensures r == [] || !IsSpace(r[0])
  {
    if s != [] && IsSpace(s[0]) then LStrip(s[1..]) else s
  }

  /** `s.rstrip()`: the prefix of `s` left after its trailing white space. */
  function RStrip(s: string): (r: string)
    ensures |r| <= |s| && r == s[..|r|]
    ensures AllSpace(s[|r|..])
    ensures r == [] || !IsSpace(r[|r| - 1])
  {
    if s != [] && IsSpace(s[|s| - 1]) then RStrip(s[..|s| - 1]) else s
  }

  /** `s.strip()`: `s` without its leading and trailing white space. */
  function Strip(s: string): (r: string)
    ensures |r| <= |s|
    ensures r == [] || (!IsSpace(r[0]) && !IsSpace(r[|r| - 1]))
    ensures exists i :: 0 <= i <= |s| - |r| && r == s[i..i + |r|] && AllSpace(s[..i]) && AllSpace(s[i + |r|..])
  {
    var l := LStrip(s);
    var r := RStrip(l);
    var i := |s| - |l|;
    assert r == s[i..i + |r|];
    assert s[i + |r|..] == l[|r|..];
    r
  }

  /** `s.lstrip()` is empty exactly when `s` is all white space. */
  lemma {:induction false} LStripEmptyIffAllSpace(s: string)
    ensures LStrip(s) == [] <==> AllSpace(s)
  {
    if s != [] && IsSpace(s[0]) {
      LStripEmptyIffAllSpace(s[1..]);
      assert AllSpace(s) <==> AllSpace(s[1..]) by {
        assert forall i :: 0 <= i < |s| - 1 ==> s[1..][i] == s[i + 1];
      }
    }
  }

  /** `s.rstrip()` is empty exactly when `s` is all white space. */
  lemma {:induction false} RStripEmptyIffAllSpace(s: string)
    ensures RStrip(s) == [] <==> AllSpace(s)
  {
    if s != [] && IsSpace(s[|s| - 1]) {
      var init := s[..|s| - 1];
      RStripEmptyIffAllSpace(init);
      assert AllSpace(s) <==> AllSpace(init) by {
        assert forall i :: 0 <= i < |init| ==> init[i] == s[i];
      }
    }
  }

  /** A string strips to "" exactly when it is made only of white space, so
      Python's `not s.strip()` is `AllSpace(s)`. */
  lemma {:induction false} StripEmptyIffAllSpace(s: string)
    ensures Strip(s) == [] <==> AllSpace(s)
  {
    var l := LStrip(s);
    LStripEmptyIffAllSpace(s);
    RStripEmptyIffAllSpace(l);
    assert l != [] ==> !AllSpace(l);
  }
}
