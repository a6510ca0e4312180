/**
 The OCR clean-up step of the image endpoint: `text.replace(/\s+/g, ' ')`.
 Every maximal run of whitespace becomes one space; nothing is trimmed.
 */
module Whitespace {

  /** Membership in the ECMAScript `\s` class: the WhiteSpace code points
      (TAB, VT, FF, ZWNBSP and every Unicode "Zs" space separator, which
      include SP and NBSP) and the LineTerminator code points (LF, CR, LS, PS),
      sections 12.2 and 12.3 of ECMA-262. Every such code point lies in the
      Basic Multilingual Plane, so one UTF-16 code unit holds it, and in
      ASCII the class is exactly TAB, LF, VT, FF, CR and SP. */
  function IsWs(c: char): (b: bool)
    ensures b ==> c as int <= 0xFFFF
    ensures c as int < 0x80 ==> (b <==> c in {'\t', '\n', '\U{000B}', '\U{000C}', '\r', ' '})
  {
    || c == '\t' || c == '\U{000B}' || c == '\U{000C}' || c == '\U{FEFF}'
    || c == ' ' || c == '\U{00A0}' || c == '\U{1680}'
    || ('\U{2000}' <= c <= '\U{200A}')
    || c == '\U{202F}' || c == '\U{205F}' || c == '\U{3000}'
    || c == '\n' || c == '\r' || c == '\U{2028}' || c == '\U{2029}'
  }

  /** The input with its leading whitespace run removed: a suffix of `s`,
      everything dropped is whitespace, and what remains does not start
      with whitespace. */
  function SkipWs(s: seq<char>): (r: seq<char>)
    ensures |r| <= |s|
    ensures r == [] || !IsWs(r[0])
  {
    if |s| > 0 && IsWs(s[0]) then SkipWs(s[1..]) else s
  }

  /** `s.replace(/\s+/g, ' ')`: the greedy `\s+` matches a whole run, which
      is replaced by one space, and the scan resumes after the run. The
      result is never longer than the input and is empty only when the
      input is. */
  function Normalize(s: seq<char>): (r: seq<char>)
    ensures |r| <= |s|
    ensures |r| == 0 <==> |s| == 0
    decreases |s|
  {
    if |s| == 0 then []
    else if IsWs(s[0]) then [' '] + Normalize(SkipWs(s[1..]))
    else [s[0]] + Normalize(s[1..])
  }

  /** No two neighbouring characters are both whitespace. */
  predicate NoAdjacentWs(t: seq<char>)
  {
    forall i :: 0 < i < |t| ==> !(IsWs(t[i - 1]) && IsWs(t[i]))
  }

  /** The space is the only whitespace character that occurs. */
  predicate OnlySpaces(t: seq<char>)
  {
    forall i :: 0 <= i < |t| && IsWs(t[i]) ==> t[i] == ' '
  }

  /** The shape of a normalised text: single spaces between non-whitespace. */
  predicate Collapsed(t: seq<char>)
  {
    NoAdjacentWs(t) && OnlySpaces(t)
  }

  /** Every character is whitespace. */
  predicate AllWs(w: seq<char>)
  {
    forall i :: 0 <= i < |w| ==> IsWs(w[i])
  }

  /** The non-whitespace characters of `s`, in order. */
  function NonWs(s: seq<char>): seq<char>
  {
    if |s| == 0 then []
    else if IsWs(s[0]) then NonWs(s[1..])
    else [s[0]] + NonWs(s[1..])
  }

  /** Reference definition: the left-to-right scan as a two-state
      transducer. `inRun` records that the previous character was
      whitespace; the first whitespace of a run emits a space, the rest of
      the run emits nothing, every other character is copied. */
  function ScanFrom(s: seq<char>, inRun: bool): seq<char>
  {
    if |s| == 0 then []
    else if !IsWs(s[0]) then [s[0]] + ScanFrom(s[1..], false)
    else if inRun then ScanFrom(s[1..], true)
    else [' '] + ScanFrom(s[1..], true)
  }

  // ---------------------------------------------------------------------
  // Helpers

  lemma NormalizeHead(s: seq<char>)
    requires |s| > 0
    ensures Normalize(s)[0] == if IsWs(s[0]) then ' ' else s[0]
  {
  }

  /** Prepending one character keeps a text collapsed when the character is
      not whitespace, or is a space followed by non-whitespace. */
  lemma ConsCollapsed(c: char, u: seq<char>)
    requires Collapsed(u)
    requires IsWs(c) ==> c == ' ' && (u == [] || !IsWs(u[0]))
    ensures Collapsed([c] + u)
  {
    var t := [c] + u;
    forall i | 0 < i < |t|
      ensures !(IsWs(t[i - 1]) && IsWs(t[i]))
    {
      if i > 1 {
        assert t[i - 1] == u[i - 2] && t[i] == u[i - 1];
      }
    }
    forall i | 0 <= i < |t| && IsWs(t[i])
      ensures t[i] == ' '
    {
      if i > 0 {
        assert t[i] == u[i - 1];
      }
    }
  }

  /** What `SkipWs` drops is a whitespace prefix. */
  lemma {:induction false} SkipWsIsSuffix(s: seq<char>)
    ensures SkipWs(s) == s[|s| - |SkipWs(s)|..]
    ensures forall i :: 0 <= i < |s| - |SkipWs(s)| ==> IsWs(s[i])
    decreases |s|
  {
    if |s| > 0 && IsWs(s[0]) {
      SkipWsIsSuffix(s[1..]);
      assert s[1..][|s| - 1 - |SkipWs(s[1..])|..] == s[|s| - |SkipWs(s)|..];
      forall i | 0 < i < |s| - |SkipWs(s)|
        ensures IsWs(s[i])
      {
        assert s[i] == s[1..][i - 1];
      }
    }
  }

  lemma {:induction false} NonWsOfSkip(s: seq<char>)
    ensures NonWs(SkipWs(s)) == NonWs(s)
    decreases |s|
  {
    if |s| > 0 && IsWs(s[0]) {
      NonWsOfSkip(s[1..]);
    }
  }

  lemma {:induction false} SkipWsAppend(x: seq<char>, y: seq<char>)
    requires y != [] && !IsWs(y[0])
    ensures SkipWs(x + y) == SkipWs(x) + y
    decreases |x|
  {
    if |x| > 0 && IsWs(x[0]) {
      assert (x + y)[1..] == x[1..] + y;
      SkipWsAppend(x[1..], y);
    } else if |x| == 0 {
      assert x + y == y;
    }
  }

  lemma {:induction false} ScanInRun(s: seq<char>)
    ensures ScanFrom(s, true) == ScanFrom(SkipWs(s), false)
    decreases |s|
  {
    if |s| > 0 && IsWs(s[0]) {
      ScanInRun(s[1..]);
    }
  }

  // ---------------------------------------------------------------------
  // Properties

  /** The output never has two whitespace characters side by side, and the
      only whitespace left in it is the space. */
  lemma {:induction false} NormalizeCollapses(s: seq<char>)
    ensures Collapsed(Normalize(s))
    decreases |s|
  {
    if |s| == 0 {
    } else if IsWs(s[0]) {
      var t := SkipWs(s[1..]);
      NormalizeCollapses(t);
      if |t| > 0 {
        NormalizeHead(t);
      }
      ConsCollapsed(' ', Normalize(t));
    } else {
      NormalizeCollapses(s[1..]);
      ConsCollapsed(s[0], Normalize(s[1..]));
    }
  }

  /** A collapsed text is left unchanged. */
  lemma {:induction false} CollapsedIsFixpoint(t: seq<char>)
    requires Collapsed(t)
    ensures Normalize(t) == t
    decreases |t|
  {
    if |t| > 0 {
      var u := t[1..];
      assert Collapsed(u) by {
        forall i | 0 < i < |u|
          ensures !(IsWs(u[i - 1]) && IsWs(u[i]))
        {
          assert u[i - 1] == t[i] && u[i] == t[i + 1];
        }
      }
      if IsWs(t[0]) {
        assert t[0] == ' ';
        assert |u| > 0 ==> u[0] == t[1];
        assert SkipWs(u) == u;
      }
      CollapsedIsFixpoint(u);
      assert t == [t[0]] + u;
    }
  }

  /** The texts normalisation leaves unchanged are exactly the collapsed
      ones. */
  lemma {:induction false} FixpointIffCollapsed(t: seq<char>)
    ensures Normalize(t) == t <==> Collapsed(t)
  {
    if Collapsed(t) {
      CollapsedIsFixpoint(t);
    } else {
      NormalizeCollapses(t);
    }
  }

  /** Normalising twice is the same as normalising once. */
  lemma NormalizeIdempotent(s: seq<char>)
    ensures Normalize(Normalize(s)) == Normalize(s)
  {
    NormalizeCollapses(s);
    CollapsedIsFixpoint(Normalize(s));
  }

  /** Every non-whitespace character survives, in its original order, and
      no other non-whitespace character appears. */
  lemma {:induction false} NormalizeKeepsNonWs(s: seq<char>)
    ensures NonWs(Normalize(s)) == NonWs(s)
    decreases |s|
  {
    if |s| > 0 {
      var r := Normalize(s);
      if IsWs(s[0]) {
        var t := SkipWs(s[1..]);
        NormalizeKeepsNonWs(t);
        NonWsOfSkip(s[1..]);
        assert r[1..] == Normalize(t);
      } else {
        NormalizeKeepsNonWs(s[1..]);
        assert r[1..] == Normalize(s[1..]);
      }
    }
  }

  /** Nothing is trimmed: the output starts (ends) with whitespace exactly
      when the input does, and that whitespace is one space. */
  lemma {:induction false} NormalizeKeepsEdges(s: seq<char>)
    requires |s| > 0
    ensures IsWs(s[0]) <==> Normalize(s)[0] == ' '
    ensures IsWs(s[|s| - 1]) <==> Normalize(s)[|Normalize(s)| - 1] == ' '
    decreases |s|
  {
    var r := Normalize(s);
    NormalizeHead(s);
    if IsWs(s[0]) {
      var t := SkipWs(s[1..]);
      SkipWsIsSuffix(s[1..]);
      if |t| == 0 {
        assert |s| == 1 || IsWs(s[1..][|s| - 2]);
      } else {
        NormalizeKeepsEdges(t);
        assert s[|s| - 1] == t[|t| - 1];
        assert r[|r| - 1] == Normalize(t)[|Normalize(t)| - 1];
      }
    } else if |s| > 1 {
      NormalizeKeepsEdges(s[1..]);
      assert r[|r| - 1] == Normalize(s[1..])[|Normalize(s[1..])| - 1];
    }
  }

  /** Normalisation agrees with the two-state scan on every input. */
  lemma {:induction false} NormalizeIsScan(s: seq<char>)
    ensures Normalize(s) == ScanFrom(s, false)
    decreases |s|
  {
    if |s| > 0 {
      if IsWs(s[0]) {
        var t := SkipWs(s[1..]);
        ScanInRun(s[1..]);
        NormalizeIsScan(t);
      } else {
        NormalizeIsScan(s[1..]);
      }
    }
  }

  /** The replacement as a single left-to-right pass over the text, as a
      global regular-expression replace performs it; it computes the same
      string as `Normalize`. */
  method NormalizeScan(s: seq<char>) returns (r: seq<char>)
    ensures r == Normalize(s)
  {
    r := [];
    var inRun := false;
    var i := 0;
    while i < |s|
      invariant i <= |s|
      invariant r + ScanFrom(s[i..], inRun) == ScanFrom(s, false)
    {
      var c := s[i];
      assert s[i..][1..] == s[i + 1..];
      if !IsWs(c) {
        r := r + [c];
        inRun := false;
      } else if !inRun {
        r := r + [' '];
        inRun := true;
      }
      i := i + 1;
    }
    NormalizeIsScan(s);
  }

  /** A run never spans a boundary followed by non-whitespace: normalising
      the concatenation is normalising both sides separately. */
  lemma {:induction false} NormalizeAppend(a: seq<char>, b: seq<char>)
    requires b == [] || !IsWs(b[0])
    ensures Normalize(a + b) == Normalize(a) + Normalize(b)
    decreases |a|
  {
    if b == [] {
      assert a + b == a;
      assert Normalize(b) == [];
      assert Normalize(a) + [] == Normalize(a);
    } else if |a| == 0 {
      assert a + b == b;
      assert Normalize(a) == [];
      assert [] + Normalize(b) == Normalize(b);
    } else if IsWs(a[0]) {
      var a' := SkipWs(a[1..]);
      assert (a + b)[1..] == a[1..] + b;
      SkipWsAppend(a[1..], b);
      NormalizeAppend(a', b);
      calc {
        Normalize(a + b);
        [' '] + Normalize(SkipWs(a[1..] + b));
        [' '] + Normalize(a' + b);
        [' '] + (Normalize(a') + Normalize(b));
        ([' '] + Normalize(a')) + Normalize(b);
        Normalize(a) + Normalize(b);
      }
    } else {
      assert (a + b)[1..] == a[1..] + b;
      NormalizeAppend(a[1..], b);
      calc {
        Normalize(a + b);
        [a[0]] + Normalize(a[1..] + b);
        [a[0]] + (Normalize(a[1..]) + Normalize(b));
        ([a[0]] + Normalize(a[1..])) + Normalize(b);
        Normalize(a) + Normalize(b);
      }
    }
  }

  lemma {:induction false} SkipAllWs(w: seq<char>)
    requires AllWs(w)
    ensures SkipWs(w) == []
    decreases |w|
  {
    if |w| > 0 {
      assert AllWs(w[1..]) by {
        forall i | 0 <= i < |w[1..]|
          ensures IsWs(w[1..][i])
        {
          assert w[1..][i] == w[i + 1];
        }
      }
      SkipAllWs(w[1..]);
    }
  }

  lemma NormalizeCons(x: char, u: seq<char>)
    requires !IsWs(x)
    ensures Normalize([x] + u) == [x] + Normalize(u)
  {
    assert ([x] + u)[1..] == u;
  }

  /** A whitespace run at the front becomes one space. */
  lemma LeadingRun(w: seq<char>, b: seq<char>)
    requires w != [] && AllWs(w)
    requires b == [] || !IsWs(b[0])
    ensures Normalize(w + b) == [' '] + Normalize(b)
  {
    assert (w + b)[0] == w[0];
    assert (w + b)[1..] == w[1..] + b;
    SkipAllWs(w[1..]);
    if b == [] {
      assert w[1..] + b == w[1..];
    } else {
      SkipWsAppend(w[1..], b);
      assert [] + b == b;
    }
  }

  /** The mirror image of `NormalizeAppend`: a boundary preceded by
      non-whitespace is not crossed by any run either. */
  lemma NormalizeAppendAfterNonWs(a: seq<char>, u: seq<char>)
    requires a == [] || !IsWs(a[|a| - 1])
    ensures Normalize(a + u) == Normalize(a) + Normalize(u)
  {
    if a == [] {
      assert a + u == u;
      assert Normalize(a) == [];
    } else {
      var a0, x := a[..|a| - 1], a[|a| - 1];
      assert a == a0 + [x];
      assert a + u == a0 + ([x] + u);
      NormalizeAppend(a0, [x] + u);
      NormalizeCons(x, u);
      NormalizeAppend(a0, [x]);
      NormalizeCons(x, []);
      assert [x] + [] == [x];
      assert Normalize(a0) + ([x] + Normalize(u)) == (Normalize(a0) + [x]) + Normalize(u);
    }
  }

  /** Each maximal whitespace run, wherever it stands, becomes exactly one
      space, and the text on either side of it is normalised on its own. */
  lemma NormalizeRun(a: seq<char>, w: seq<char>, b: seq<char>)
    requires a == [] || !IsWs(a[|a| - 1])
    requires w != [] && AllWs(w)
    requires b == [] || !IsWs(b[0])
    ensures Normalize(a + w + b) == Normalize(a) + [' '] + Normalize(b)
  {
    LeadingRun(w, b);
    assert a + w + b == a + (w + b);
    NormalizeAppendAfterNonWs(a, w + b);
  }
}
