/**
 * Whitespace trimming as the note editor applies it to its two input fields:
 * Python's `str.strip()` for the title and `str.rstrip()` for the content,
 * both without arguments, so both remove the characters `str.isspace()` accepts.
 */
module Text {

  /** The characters Python 3's `str.isspace()` accepts (Unicode categories
      Zs and bidirectional classes WS, B and S), written out as a fixed set. */
  function IsSpace(c: char): (b: bool)
    ensures c == ' ' || ('\t' <= c <= '\r') ==> b
    ensures ('0' <= c <= '9') || ('a' <= c <= 'z') || ('A' <= c <= 'Z') ==> !b
  {
    || ('\t' <= c <= '\r')              // \t \n \v \f \r
    || ('\U{1C}' <= c <= ' ')           // file/group/record/unit separators, space
    || c == '\U{85}' || c == '\U{A0}' || c == '\U{1680}'
    || ('\U{2000}' <= c <= '\U{200A}')
    || c == '\U{2028}' || c == '\U{2029}' || c == '\U{202F}' || c == '\U{205F}'
    || c == '\U{3000}'
  }

  predicate AllSpace(s: string)
  {
    forall i :: 0 <= i < |s| ==> IsSpace(s[i])
  }

  /** `s.rstrip()`: the longest prefix of `s` that does not end in whitespace. */
  function RStrip(s: string): (r: string)
    ensures |r| <= |s| && r == s[..|r|]
    ensures AllSpace(s[|r|..])
    ensures r == [] || !IsSpace(r[|r| - 1])
    decreases |s|
  {
    if s == [] || !IsSpace(s[|s| - 1]) then s
    else
      var r := RStrip(s[..|s| - 1]);
      assert s[|r|..] == s[..|s| - 1][|r|..] + [s[|s| - 1]];
      r
  }

  /** `s.lstrip()`: the longest suffix of `s` that does not start with whitespace. */
  function LStrip(s: string): (r: string)
    ensures |r| <= |s| && r == s[|s| - |r|..]
    ensures AllSpace(s[..|s| - |r|])
    ensures r == [] || !IsSpace(r[0])
    decreases |s|
  {
    if s == [] || !IsSpace(s[0]) then s
    else
      var r := LStrip(s[1..]);
      assert s[..|s| - |r|] == [s[0]] + s[1..][..|s| - 1 - |r|];
      r
  }

  /** `s.strip()`: whitespace removed from both ends. The result is empty exactly
      when `s` is all whitespace, which is what makes a title field "empty". */
  function Strip(s: string): (r: string)
    ensures r == [] <==> AllSpace(s)
    ensures r == [] || (!IsSpace(r[0]) && !IsSpace(r[|r| - 1]))
  {
    var t := RStrip(s);
    var r := LStrip(t);
    assert s == t + s[|t|..];
    assert r != [] ==> r[|r| - 1] == t[|t| - 1];
    assert r == [] ==> t == t[..|t| - |r|];
    r
  }

  /** Appending whitespace to a string that does not end in whitespace is undone by `rstrip`. */
  lemma {:induction false} RStripDropsTrailing(a: string, q: string)
    requires a == [] || !IsSpace(a[|a| - 1])
    requires AllSpace(q)
    ensures RStrip(a + q) == a
    decreases |q|
  {
    if q != [] {
      var q' := q[..|q| - 1];
      assert (a + q)[..|a + q| - 1] == a + q';
      RStripDropsTrailing(a, q');
    }
  }

  /** Prepending whitespace to a string that does not start with whitespace is undone by `lstrip`. */
  lemma {:induction false} LStripDropsLeading(p: string, b: string)
    requires AllSpace(p)
    requires b == [] || !IsSpace(b[0])
    ensures LStrip(p + b) == b
    decreases |p|
  {
    if p != [] {
      assert (p + b)[1..] == p[1..] + b;
      LStripDropsLeading(p[1..], b);
    }
  }

  /** `strip` characterised independently of how it is computed: surround a core
      that neither starts nor ends with whitespace by any whitespace, and `strip`
      gives back exactly that core. */
  lemma {:induction false} StripRecoversCore(p: string, m: string, q: string)
    requires AllSpace(p) && AllSpace(q)
    requires m == [] || (!IsSpace(m[0]) && !IsSpace(m[|m| - 1]))
    ensures Strip(p + m + q) == m
  {
    if m == [] {
      assert p + m + q == [] + (p + q);
      RStripDropsTrailing([], p + q);
    } else {
      assert p + m + q == (p + m) + q;
      RStripDropsTrailing(p + m, q);
      LStripDropsLeading(p, m);
    }
  }

  /** A string that neither starts nor ends with whitespace is its own `strip`. */
  lemma {:induction false} StripKeepsCore(m: string)
    requires m == [] || (!IsSpace(m[0]) && !IsSpace(m[|m| - 1]))
    ensures Strip(m) == m
  {
    var e: string := [];
    assert e + m + e == m;
    StripRecoversCore(e, m, e);
  }

  /** Saving a title that was already stripped stores it unchanged. */
  lemma {:induction false} StripIdempotent(s: string)
    ensures Strip(Strip(s)) == Strip(s)
  {
    var m := Strip(s);
    assert m == [] || (!IsSpace(m[0]) && !IsSpace(m[|m| - 1]));
    StripKeepsCore(m);
  }
}
