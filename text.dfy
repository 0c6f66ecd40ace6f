/** Character classes and the `str` operations the extractor applies to cell values:
    `strip`, `upper`, and the classes `\s` and `\w` of its regular expressions. */
module Text {
  import opened Seqs

  /** Python's `str.isspace`; a `\s` in a `str` pattern matches the same characters. */
  predicate IsSpace(c: char) {
    || ('\t' <= c <= '\r')
    || ('\U{1C}' <= c <= ' ')
    || c == '\U{85}' || c == '\U{A0}' || c == '\U{1680}'
    || ('\U{2000}' <= c <= '\U{200A}')
    || c == '\U{2028}' || c == '\U{2029}' || c == '\U{202F}' || c == '\U{205F}' || c == '\U{3000}'
  }

  /** A word character (`\w`): ASCII letters, digits and the underscore. */
  predicate IsWordChar(c: char) {
    ('a' <= c <= 'z') || ('A' <= c <= 'Z') || ('0' <= c <= '9') || c == '_'
  }

  predicate NoSpace(s: string) {
    forall i :: 0 <= i < |s| ==> !IsSpace(s[i])
  }

  predicate AllSpace(s: string) {
    forall i :: 0 <= i < |s| ==> IsSpace(s[i])
  }

  /** `str.lstrip()`. */
  function TrimStart(s: string): (r: string)
    ensures |r| <= |s|
  {
    if s != [] && IsSpace(s[0]) then TrimStart(s[1..]) else s
  }

  /** `str.rstrip()`. */
  function TrimEnd(s: string): (r: string)
    ensures |r| <= |s|
  {
    if s != [] && IsSpace(s[|s| - 1]) then TrimEnd(s[..|s| - 1]) else s
  }

  /** `str.strip()`. */
  function Strip(s: string): (r: string)
    ensures |r| <= |s|
  {
    TrimEnd(TrimStart(s))
  }

  /** `lstrip` drops exactly the maximal whitespace prefix. */
  lemma {:induction false} TrimStartSpec(s: string)
    ensures var r := TrimStart(s);
            && r == s[|s| - |r|..]
            && (r == [] || !IsSpace(r[0]))
            && forall i :: 0 <= i < |s| - |r| ==> IsSpace(s[i])
  {
    if s != [] && IsSpace(s[0]) {
      TrimStartSpec(s[1..]);
      var r := TrimStart(s);
      forall i | 0 < i < |s| - |r| ensures IsSpace(s[i]) {
        assert s[i] == s[1..][i - 1];
      }
    }
  }

  /** `rstrip` drops exactly the maximal whitespace suffix. */
  lemma {:induction false} TrimEndSpec(s: string)
    ensures var r := TrimEnd(s);
            && r == s[..|r|]
            && (r == [] || !IsSpace(r[|r| - 1]))
            && forall i :: |r| <= i < |s| ==> IsSpace(s[i])
  {
    if s != [] && IsSpace(s[|s| - 1]) {
      var n := |s| - 1;
      TrimEndSpec(s[..n]);
      var r := TrimEnd(s);
      forall i | |r| <= i < n ensures IsSpace(s[i]) {
        assert s[i] == s[..n][i];
      }
    }
  }

  /** `strip` leaves no whitespace at either end. */
  lemma StripSpec(s: string)
    ensures var r := Strip(s);
            r == [] || (!IsSpace(r[0]) && !IsSpace(r[|r| - 1]))
  {
    TrimStartSpec(s);
    TrimEndSpec(TrimStart(s));
  }

  lemma {:induction false} TrimStartSpacePrefix(w: string, v: string)
    requires AllSpace(w)
    ensures TrimStart(w + v) == TrimStart(v)
    decreases |w|
  {
    if w != [] {
      assert (w + v)[1..] == w[1..] + v;
      TrimStartSpacePrefix(w[1..], v);
    } else {
      assert w + v == v;
    }
  }

  lemma {:induction false} TrimEndSpaceSuffix(v: string, w: string)
    requires AllSpace(w)
    ensures TrimEnd(v + w) == TrimEnd(v)
    decreases |w|
  {
    if w != [] {
      assert (v + w)[..|v + w| - 1] == v + w[..|w| - 1];
      TrimEndSpaceSuffix(v, w[..|w| - 1]);
    } else {
      assert v + w == v;
    }
  }

  /** A string with no whitespace at either end is its own strip. */
  lemma StripNoEdgeSpace(s: string)
    requires s == [] || (!IsSpace(s[0]) && !IsSpace(s[|s| - 1]))
    ensures Strip(s) == s
  {
  }

  /** Stripping a stripped value changes nothing. */
  lemma StripIdempotent(v: string)
    ensures Strip(Strip(v)) == Strip(v)
  {
    StripSpec(v);
    StripNoEdgeSpace(Strip(v));
  }

  /** Whitespace around a value never changes what `strip` returns. */
  lemma StripIgnoresPadding(l: string, v: string, r: string)
    requires AllSpace(l) && AllSpace(r)
    ensures Strip(l + v + r) == Strip(v)
  {
    ConcatAssoc(l, v, r);
    TrimStartSpacePrefix(l, v + r);
    if TrimStart(v) == [] {
      TrimStartOfBlank(v, r);
    } else {
      TrimStartBeforePadding(v, r);
      TrimEndSpaceSuffix(TrimStart(v), r);
    }
  }

  /** A blank value followed by whitespace trims to nothing. */
  lemma TrimStartOfBlank(v: string, r: string)
    requires TrimStart(v) == [] && AllSpace(r)
    ensures TrimStart(v + r) == []
  {
    TrimStartSpec(v);
    var w := v + r;
    TrimStartSpec(w);
    assert AllSpace(w) by {
      forall i | 0 <= i < |w| ensures IsSpace(w[i]) {
        if i < |v| {
          assert w[i] == v[i];
        } else {
          assert w[i] == r[i - |v|];
        }
      }
    }
  }

  /** Trailing whitespace survives `lstrip` of a value that is not blank. */
  lemma TrimStartBeforePadding(v: string, r: string)
    requires TrimStart(v) != []
    ensures TrimStart(v + r) == TrimStart(v) + r
  {
    TrimStartSpec(v);
    var t := TrimStart(v);
    var k := |v| - |t|;
    TakeDrop(v, k);
    ConcatAssoc(v[..k], t, r);
    assert AllSpace(v[..k]);
    TrimStartSpacePrefix(v[..k], t + r);
    assert TrimStart(t + r) == t + r;
  }

  /** Python's `str.upper` on one character, restricted to the characters whose
      upper case is a single ASCII letter; every other character is left as it is. */
  function UpperChar(c: char): (u: char)
    ensures !('a' <= u <= 'z')
    ensures IsWordChar(c) ==> IsWordChar(u)
  {
    if 'a' <= c <= 'z' then (c as int - 32) as char
    else if c == '\U{131}' then 'I'
    else if c == '\U{17F}' then 'S'
    else c
  }

  /** `str.upper` under the same restriction as UpperChar. */
  function Upper(s: string): (r: string)
    ensures |r| == |s|
    ensures forall i :: 0 <= i < |s| ==> r[i] == UpperChar(s[i])
  {
    if s == [] then [] else [UpperChar(s[0])] + Upper(s[1..])
  }
}
