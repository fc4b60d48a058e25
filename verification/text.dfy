/**
 * Python's `str.strip()` with no arguments, over one character-string type.
 * Whitespace is the fixed set that Python 2's `unicode.isspace` accepts.
 */
module Text {

  predicate IsSpace(c: char) {
    var n := c as int;
    || 0x09 <= n <= 0x0d                   // tab, LF, VT, FF, CR
    || 0x1c <= n <= 0x1f                   // file, group, record and unit separators
    || n == 0x20 || n == 0x85 || n == 0xa0 || n == 0x1680 || n == 0x180e
    || 0x2000 <= n <= 0x200a
    || n == 0x2028 || n == 0x2029 || n == 0x202f || n == 0x205f || n == 0x3000
  }

  predicate AllSpace(s: string) {
    forall i :: 0 <= i < |s| ==> IsSpace(s[i])
  }

  /** Neither end of `s` is whitespace (vacuous for the empty string). */
  predicate Stripped(s: string) {
    |s| == 0 || (!IsSpace(s[0]) && !IsSpace(s[|s| - 1]))
  }

  /** `lstrip()`: drops the whitespace prefix and keeps the rest verbatim. */
  function TrimLeft(s: string): (r: string)
    ensures |r| <= |s| && r == s[|s| - |r|..]
    ensures AllSpace(s[..|s| - |r|])
    ensures |r| == 0 || !IsSpace(r[0])
  {
    if |s| > 0 && IsSpace(s[0]) then TrimLeft(s[1..]) else s
  }

  /** `rstrip()`: drops the whitespace suffix and keeps the rest verbatim. */
  function TrimRight(s: string): (r: string)
    ensures |r| <= |s| && r == s[..|r|]
    ensures AllSpace(s[|r|..])
    ensures |r| == 0 || !IsSpace(r[|r| - 1])
  {
    if |s| > 0 && IsSpace(s[|s| - 1]) then TrimRight(s[..|s| - 1]) else s
  }

  /** `strip()`: a contiguous slice of `s` whose margins are all whitespace. */
  function Strip(s: string): (r: string)
    ensures Stripped(r)
    ensures |r| <= |s|
  {
    TrimRight(TrimLeft(s))
  }

  lemma {:induction false} TrimLeftSpaces(a: string, t: string)
    requires AllSpace(a)
    requires |t| == 0 || !IsSpace(t[0])
    ensures TrimLeft(a + t) == t
    decreases |a|
  {
    if |a| == 0 {
      assert a + t == t;
    } else {
      assert (a + t)[1..] == a[1..] + t;
      TrimLeftSpaces(a[1..], t);
    }
  }

  lemma {:induction false} TrimRightSpaces(t: string, b: string)
    requires AllSpace(b)
    requires |t| == 0 || !IsSpace(t[|t| - 1])
    ensures TrimRight(t + b) == t
    decreases |b|
  {
    if |b| == 0 {
      assert t + b == t;
    } else {
      var b' := b[..|b| - 1];
      assert (t + b)[..|t + b| - 1] == t + b';
      TrimRightSpaces(t, b');
    }
  }

  /**
   * `strip()` is characterised uniquely: whenever `s` is a whitespace prefix,
   * a stripped middle and a whitespace suffix, the middle is what `strip`
   * returns.
   */
  lemma StripUnique(a: string, t: string, b: string)
    requires AllSpace(a) && AllSpace(b) && Stripped(t)
    ensures Strip(a + t + b) == t
  {
    if |t| == 0 {
      assert a + t + b == a + b;
      assert AllSpace(a + b);
      TrimLeftSpaces(a + b, []);
      assert a + b + [] == a + b;
      assert TrimLeft(a + b) == [];
      assert TrimRight([]) == [];
    } else {
      assert a + t + b == a + (t + b);
      TrimLeftSpaces(a, t + b);
      TrimRightSpaces(t, b);
    }
  }

  /** Every string splits as prefix + Strip(s) + suffix with whitespace margins. */
  lemma StripSplits(s: string)
    ensures exists i, j :: 0 <= i <= j <= |s| && AllSpace(s[..i]) && AllSpace(s[j..]) && Strip(s) == s[i..j]
  {
    var l := TrimLeft(s);
    var i := |s| - |l|;
    var r := TrimRight(l);
    var j := i + |r|;
    assert l[..|r|] == s[i..j];
    assert l[|r|..] == s[j..];
  }

  lemma StripIdempotent(s: string)
    ensures Strip(Strip(s)) == Strip(s)
  {
    StripUnique([], Strip(s), []);
    assert [] + Strip(s) + [] == Strip(s);
  }

  lemma AllSpaceConcat(x: string, y: string)
    requires AllSpace(x) && AllSpace(y)
    ensures AllSpace(x + y)
  {
    forall k | 0 <= k < |x + y|
      ensures IsSpace((x + y)[k])
    {
      if k < |x| {
        assert (x + y)[k] == x[k];
      } else {
        assert (x + y)[k] == y[k - |x|];
      }
    }
  }

  /** The whitespace `lstrip` removes: `s` is that prefix followed by `TrimLeft(s)`. */
  lemma LeftMargin(s: string) returns (front: string)
    ensures s == front + TrimLeft(s) && AllSpace(front)
  {
    var l := TrimLeft(s);
    front := s[..|s| - |l|];
    SplitAt(s, |s| - |l|);
  }

  /** The whitespace `rstrip` removes: `s` is `TrimRight(s)` followed by that suffix. */
  lemma RightMargin(s: string) returns (back: string)
    ensures s == TrimRight(s) + back && AllSpace(back)
  {
    var r := TrimRight(s);
    back := s[|r|..];
    SplitAt(s, |r|);
  }

  lemma SplitAt(s: string, k: nat)
    requires k <= |s|
    ensures s == s[..k] + s[k..]
  {
  }

  /** The margins `strip` removes: `s` is `front + Strip(s) + back`, both all whitespace. */
  lemma StripMargins(s: string) returns (front: string, back: string)
    ensures s == front + Strip(s) + back
    ensures AllSpace(front) && AllSpace(back)
  {
    front := LeftMargin(s);
    back := RightMargin(TrimLeft(s));
  }

  lemma Regroup(a: string, front: string, r: string, back: string, b: string)
    ensures a + (front + r + back) + b == (a + front) + r + (back + b)
  {
  }

  /** Whitespace added around a string does not change what `strip` returns. */
  lemma StripIgnoresPadding(a: string, t: string, b: string)
    requires AllSpace(a) && AllSpace(b)
    ensures Strip(a + t + b) == Strip(t)
  {
    var front, back := StripMargins(t);
    var r := Strip(t);
    AllSpaceConcat(a, front);
    AllSpaceConcat(back, b);
    Regroup(a, front, r, back, b);
    StripUnique(a + front, r, back + b);
  }

  /** `strip` returns the empty string exactly when the input is all whitespace. */
  lemma StripEmptyIffAllSpace(s: string)
    ensures Strip(s) == [] <==> AllSpace(s)
  {
    var l := TrimLeft(s);
    var front := LeftMargin(s);
    if Strip(s) == [] {
      var back := RightMargin(l);
      assert l == back;
      AllSpaceConcat(front, l);
    }
  }
}
