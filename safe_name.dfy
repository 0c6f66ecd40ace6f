/** `safe_filename`: turns a ProgramLaunchName into the stem of an output file name.
    The name is stripped, every character outside `[\w\-\s]` becomes `_`, every
    whitespace run becomes one `_`, an empty result falls back to a fixed name,
    and the result is cut to 150 characters. */
module SafeName {
  import opened Text
  import opened Seqs

  const MaxLength: nat := 150
  const Fallback: string := "UnknownProgramLaunch"

  /** The characters the first substitution leaves alone: `[\w\-\s]`. */
  predicate Kept(c: char) {
    IsWordChar(c) || c == '-' || IsSpace(c)
  }

  /** The characters a sanitised name consists of. */
  predicate IsNameChar(c: char) {
    IsWordChar(c) || c == '-'
  }

  predicate AllKept(s: string) {
    forall i :: 0 <= i < |s| ==> Kept(s[i])
  }

  predicate IsSafeName(s: string) {
    forall i :: 0 <= i < |s| ==> IsNameChar(s[i])
  }

  /** Every character outside word characters, `-` and whitespace becomes `_`:
      a character-for-character substitution. */
  function ReplaceUnsafe(s: string): (r: string)
    ensures |r| == |s|
    ensures forall i :: 0 <= i < |s| ==> r[i] == (if Kept(s[i]) then s[i] else '_')
  {
    if s == [] then [] else [if Kept(s[0]) then s[0] else '_'] + ReplaceUnsafe(s[1..])
  }

  /** Each maximal whitespace run becomes one `_`. */
  function CollapseSpaces(s: string): (r: string)
    ensures |r| <= |s|
    ensures r == [] <==> s == []
    decreases |s|
  {
    if s == [] then []
    else if IsSpace(s[0]) then "_" + CollapseSpaces(TrimStart(s))
    else [s[0]] + CollapseSpaces(s[1..])
  }

  /** After collapsing no whitespace is left, and a string of kept characters
      has become a safe name. */
  lemma {:induction false} CollapseYieldsName(s: string)
    ensures NoSpace(CollapseSpaces(s))
    ensures AllKept(s) ==> IsSafeName(CollapseSpaces(s))
    decreases |s|
  {
    if s != [] {
      if IsSpace(s[0]) {
        var t := TrimStart(s);
        TrimStartSpec(s);
        assert AllKept(s) ==> AllKept(t) by { assert t == s[|s| - |t|..]; }
        CollapseYieldsName(t);
      } else {
        CollapseYieldsName(s[1..]);
      }
    }
  }

  /** `name[:150]`. */
  function Truncate(s: string): (r: string)
    ensures |r| <= MaxLength && |r| <= |s|
    ensures r == s[..|r|]
    ensures |r| == if |s| <= MaxLength then |s| else MaxLength
  {
    if |s| <= MaxLength then s else s[..MaxLength]
  }

  /** The file stem of a launch name that is already a string: strip it, replace
      unsafe characters, collapse whitespace runs, fall back to
      `UnknownProgramLaunch` when nothing is left, and keep at most 150 characters. */
  function SafeFilename(name: string): (r: string)
    ensures 0 < |r| <= MaxLength
    ensures IsSafeName(r)
    ensures Strip(name) == [] ==> r == Fallback
  {
    var cleaned := CollapseSpaces(ReplaceUnsafe(Strip(name)));
    assert AllKept(ReplaceUnsafe(Strip(name)));
    CollapseYieldsName(ReplaceUnsafe(Strip(name)));
    assert IsSafeName(Fallback) by {
      forall i | 0 <= i < |Fallback| ensures IsNameChar(Fallback[i]) {
        assert Fallback[i] in "UnknownProgramLaunch";
      }
    }
    Truncate(if cleaned == [] then Fallback else cleaned)
  }

  lemma {:induction false} CollapseNoSpace(s: string)
    requires NoSpace(s)
    ensures CollapseSpaces(s) == s
    decreases |s|
  {
    if s != [] {
      CollapseNoSpace(s[1..]);
    }
  }

  /** A whole whitespace run collapses to a single `_`. */
  lemma {:induction false} CollapseRun(w: string)
    requires w != [] && AllSpace(w)
    ensures CollapseSpaces(w) == "_"
  {
    TrimStartSpacePrefix(w, []);
    assert w + [] == w;
  }

  /** Collapsing works piece by piece across any cut that does not split a
      whitespace run. */
  lemma {:induction false} CollapseSplit(a: string, b: string)
    requires a == [] || b == [] || !IsSpace(a[|a| - 1]) || !IsSpace(b[0])
    ensures CollapseSpaces(a + b) == CollapseSpaces(a) + CollapseSpaces(b)
    decreases |a|, 1
  {
    if a == [] {
      assert a + b == b;
    } else if b == [] {
      assert a + b == a;
    } else if !IsSpace(a[0]) {
      CollapseSplitAtWord(a, b);
    } else if TrimStart(a) == [] {
      TrimStartSpec(a);
      CollapseSplitAtRun(a, b);
    } else {
      CollapseSplitAtRunThenWord(a, b);
    }
  }

  /** CollapseSplit when `a` starts with a kept character. */
  lemma {:induction false} CollapseSplitAtWord(a: string, b: string)
    requires a != [] && !IsSpace(a[0])
    requires b == [] || !IsSpace(a[|a| - 1]) || !IsSpace(b[0])
    ensures CollapseSpaces(a + b) == CollapseSpaces(a) + CollapseSpaces(b)
    decreases |a|, 0
  {
    DropConcat(a, b, 1);
    CollapseSplit(a[1..], b);
  }

  /** CollapseSplit when `a` is one whitespace run, so `b` starts with a kept character. */
  lemma CollapseSplitAtRun(a: string, b: string)
    requires a != [] && IsSpace(a[0]) && TrimStart(a) == []
    requires b == [] || !IsSpace(b[0])
    ensures CollapseSpaces(a + b) == CollapseSpaces(a) + CollapseSpaces(b)
  {
    TrimStartSpec(a);
    assert AllSpace(a);
    CollapseRun(a);
    assert TrimStart(a + b) == b by {
      TrimStartSpacePrefix(a, b);
    }
    assert IsSpace((a + b)[0]);
    assert CollapseSpaces(a + b) == "_" + CollapseSpaces(b);
  }

  /** CollapseSplit when `a` is a whitespace run followed by a kept character. */
  lemma {:induction false} CollapseSplitAtRunThenWord(a: string, b: string)
    requires a != [] && IsSpace(a[0]) && TrimStart(a) != []
    requires b == [] || !IsSpace(a[|a| - 1]) || !IsSpace(b[0])
    ensures CollapseSpaces(a + b) == CollapseSpaces(a) + CollapseSpaces(b)
    decreases |a|, 0
  {
    var t := TrimStart(a);
    var k := |a| - |t|;
    TrimStartSpec(a);
    assert TrimStart(a + b) == t + b by {
      TakeDrop(a, k);
      ConcatAssoc(a[..k], t, b);
      TrimStartSpacePrefix(a[..k], t + b);
      assert TrimStart(t + b) == t + b;
    }
    CollapseAtSpace(a + b);
    CollapseAtSpace(a);
    assert t[|t| - 1] == a[|a| - 1];
    CollapseSplit(t, b);
    ConcatAssoc("_", CollapseSpaces(t), CollapseSpaces(b));
  }

  /** One step of collapsing at a leading whitespace run. */
  lemma CollapseAtSpace(x: string)
    requires x != [] && IsSpace(x[0])
    ensures CollapseSpaces(x) == "_" + CollapseSpaces(TrimStart(x))
  {
  }

  /** Each interior whitespace run, however long, becomes exactly one `_`. */
  lemma WhitespaceRunBecomesUnderscore(a: string, w: string, b: string)
    requires w != [] && AllSpace(w)
    requires a == [] || !IsSpace(a[|a| - 1])
    requires b == [] || !IsSpace(b[0])
    ensures CollapseSpaces(a + (w + b)) == CollapseSpaces(a) + ("_" + CollapseSpaces(b))
  {
    CollapseSplit(w, b);
    CollapseRun(w);
    assert IsSpace((w + b)[0]);
    CollapseSplit(a, w + b);
  }

  /** A name that is already safe passes through unchanged. */
  lemma SafeNameUnchanged(s: string)
    requires IsSafeName(s) && 0 < |s| <= MaxLength
    ensures SafeFilename(s) == s
  {
    assert NoSpace(s);
    StripNoEdgeSpace(s);
    assert ReplaceUnsafe(s) == s;
    CollapseNoSpace(s);
  }

  /** `safe_filename` is idempotent. */
  lemma SafeFilenameIdempotent(name: string)
    ensures SafeFilename(SafeFilename(name)) == SafeFilename(name)
  {
    SafeNameUnchanged(SafeFilename(name));
  }

  /** For a name with no whitespace, the result is the name with every character
      outside `[\w\-]` turned into `_`, cut to 150 characters. */
  lemma SafeFilenameWithoutSpaces(name: string)
    requires name != [] && NoSpace(name)
    ensures |SafeFilename(name)| == if |name| <= MaxLength then |name| else MaxLength
    ensures forall i :: 0 <= i < |SafeFilename(name)| ==>
              SafeFilename(name)[i] == if IsNameChar(name[i]) then name[i] else '_'
  {
    StripNoEdgeSpace(name);
    var replaced := ReplaceUnsafe(name);
    assert NoSpace(replaced);
    CollapseNoSpace(replaced);
  }
}
