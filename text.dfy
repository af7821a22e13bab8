/** Strings as the reminder form sees them: JavaScript's String.prototype.trim
    and the "blank name" test the save handler makes with it. */
module Text {

  /** The characters ECMAScript's trim strips: WhiteSpace (tab, vertical tab,
      form feed, space, no-break space, byte-order mark and every other
      Unicode space separator) and LineTerminator (LF, CR, U+2028, U+2029). */
  predicate IsWhiteSpace(c: char)
  {
    || c == '\t' || c == '\n' || c == '\U{B}' || c == '\U{C}' || c == '\r'
    || c == ' ' || c == '\U{A0}' || c == '\U{1680}'
    || ('\U{2000}' <= c <= '\U{200A}')
    || c == '\U{2028}' || c == '\U{2029}' || c == '\U{202F}' || c == '\U{205F}'
    || c == '\U{3000}' || c == '\U{FEFF}'
  }

  /** Every character of `s` is white space (the empty string is blank). */
  predicate IsBlank(s: string)
  {
    forall k :: 0 <= k < |s| ==> IsWhiteSpace(s[k])
  }

  /** `s` without its leading white space: a suffix of `s` that starts with a
      non-space character, or is empty, and whose removed prefix is blank. */
  function TrimStart(s: string): (r: string)
    ensures |r| <= |s| && r == s[|s| - |r|..]
    ensures r == [] || !IsWhiteSpace(r[0])
    ensures IsBlank(s[..|s| - |r|])
  {
    if s != [] && IsWhiteSpace(s[0]) then TrimStart(s[1..]) else s
  }

  /** `s` without its trailing white space: a prefix of `s` that ends with a
      non-space character, or is empty, and whose removed suffix is blank. */
  function TrimEnd(s: string): (r: string)
    ensures |r| <= |s| && r == s[..|r|]
    ensures r == [] || !IsWhiteSpace(r[|r| - 1])
    ensures IsBlank(s[|r|..])
  {
    if s != [] && IsWhiteSpace(s[|s| - 1]) then TrimEnd(s[..|s| - 1]) else s
  }

  /** JavaScript's `s.trim()`: the slice of `s` left after removing the
      leading and the trailing white space, so what is removed on either side
      is blank and what remains neither starts nor ends with white space. */
  function Trim(s: string): (r: string)
    ensures |r| <= |s|
    ensures exists a, b :: 0 <= a <= b <= |s| && r == s[a..b] && IsBlank(s[..a]) && IsBlank(s[b..])
    ensures r == [] || (!IsWhiteSpace(r[0]) && !IsWhiteSpace(r[|r| - 1]))
  {
    var t := TrimStart(s);
    var e := TrimEnd(t);
    SliceOfSuffix(s, |s| - |t|, |e|);
    e
  }

  /** Cutting `s[a..]` at `n` splits `s` at `a + n`. */
  lemma SliceOfSuffix(s: string, a: int, n: int)
    requires 0 <= a <= |s| && 0 <= n <= |s| - a && IsBlank(s[a..][n..])
    ensures s[a..][..n] == s[a..a + n] && IsBlank(s[a + n..])
  {
    assert s[a..][n..] == s[a + n..];
  }

  /** Trim's result is determined by the properties its contract states: any
      slice of `s` with blank text on both sides and no white space at either
      of its ends is exactly `s.trim()`. */
  lemma TrimIsInnerSlice(s: string, a: int, b: int)
    requires 0 <= a <= b <= |s| && IsBlank(s[..a]) && IsBlank(s[b..])
    requires a == b || (!IsWhiteSpace(s[a]) && !IsWhiteSpace(s[b - 1]))
    ensures Trim(s) == s[a..b]
  {
    if a == b {
      BlankAround(s, a);
      TrimEmptyIffBlank(s);
    } else {
      TrimStartAt(s, a);
      TrimEndWithin(s, a, b);
    }
  }

  /** A string blank on both sides of a split point is blank. */
  lemma BlankAround(s: string, a: int)
    requires 0 <= a <= |s| && IsBlank(s[..a]) && IsBlank(s[a..])
    ensures IsBlank(s)
  {
    forall k | 0 <= k < |s| ensures IsWhiteSpace(s[k]) {
      if k < a {
        assert s[..a][k] == s[k];
      } else {
        assert s[a..][k - a] == s[k];
      }
    }
  }

  /** The leading white space ends at the first character that is not white
      space. */
  lemma {:induction false} TrimStartAt(s: string, a: int)
    requires 0 <= a < |s| && IsBlank(s[..a]) && !IsWhiteSpace(s[a])
    ensures TrimStart(s) == s[a..]
    decreases a
  {
    if a > 0 {
      assert IsWhiteSpace(s[0]) by {
        assert s[..a][0] == s[0];
      }
      var u := s[1..];
      var v := u[..a - 1];
      assert IsBlank(v) by {
        forall k | 0 <= k < |v| ensures IsWhiteSpace(v[k]) {
          assert v[k] == s[..a][k + 1];
        }
      }
      assert u[a - 1] == s[a];
      TrimStartAt(u, a - 1);
      assert u[a - 1..] == s[a..];
    }
  }

  /** Trimming the end of the suffix `s[a..]` leaves `s[a..b]` when `s[b..]`
      is blank and `s[b - 1]` is not white space. */
  lemma TrimEndWithin(s: string, a: int, b: int)
    requires 0 <= a < b <= |s| && IsBlank(s[b..]) && !IsWhiteSpace(s[b - 1])
    ensures TrimEnd(s[a..]) == s[a..b]
  {
    var t := s[a..];
    assert t[b - a..] == s[b..] && t[b - a - 1] == s[b - 1];
    TrimEndAt(t, b - a);
    assert t[..b - a] == s[a..b];
  }

  /** The trailing white space starts after the last character that is not
      white space. */
  lemma {:induction false} TrimEndAt(t: string, n: int)
    requires 0 < n <= |t| && IsBlank(t[n..]) && !IsWhiteSpace(t[n - 1])
    ensures TrimEnd(t) == t[..n]
    decreases |t| - n
  {
    if n < |t| {
      assert IsWhiteSpace(t[|t| - 1]) by {
        assert t[n..][|t| - 1 - n] == t[|t| - 1];
      }
      var u := t[..|t| - 1];
      var v := u[n..];
      assert IsBlank(v) by {
        forall k | 0 <= k < |v| ensures IsWhiteSpace(v[k]) {
          assert v[k] == t[n..][k];
        }
      }
      assert u[n - 1] == t[n - 1];
      TrimEndAt(u, n);
      assert u[..n] == t[..n];
    }
  }

  /** `!s.trim()` holds exactly when `s` is empty or consists of white space
      only: this is the save handler's rejection test. */
  lemma TrimEmptyIffBlank(s: string)
    ensures Trim(s) == [] <==> IsBlank(s)
  {
    var t := TrimStart(s);
    var a := |s| - |t|;
    if Trim(s) == [] {
      assert IsBlank(t[0..]);
      assert t == [];
      forall k | 0 <= k < |s| ensures IsWhiteSpace(s[k]) {
        assert s[..a][k] == s[k];
      }
    }
  }
}
