/**
 * The JavaScript string primitives the ingestion routine relies on:
 * `String.prototype.trim` and `String.prototype.toLowerCase`.
 */
module JsText {

  /** WhiteSpace and LineTerminator code points of ECMAScript, the set `trim` removes. */
  predicate IsJsWhitespace(c: char) {
    var n := c as int;
    (0x09 <= n <= 0x0D) || n == 0x20 || n == 0xA0 || n == 0x1680 || (0x2000 <= n <= 0x200A)
    || n == 0x2028 || n == 0x2029 || n == 0x202F || n == 0x205F || n == 0x3000 || n == 0xFEFF
  }

  predicate AllWhitespace(s: string) {
    forall i :: 0 <= i < |s| ==> IsJsWhitespace(s[i])
  }

  /** `s` without its leading whitespace: a suffix of `s` that does not start with whitespace. */
  function TrimStart(s: string): (r: string)
    ensures |r| <= |s| && r == s[|s| - |r|..]
    ensures r == [] || !IsJsWhitespace(r[0])
  {
    if |s| > 0 && IsJsWhitespace(s[0]) then TrimStart(s[1..]) else s
  }

  /** `s` without its trailing whitespace: a prefix of `s` that does not end with whitespace. */
  function TrimEnd(s: string): (r: string)
    ensures |r| <= |s| && r == s[..|r|]
    ensures r == [] || !IsJsWhitespace(r[|r| - 1])
  {
    if |s| > 0 && IsJsWhitespace(s[|s| - 1]) then TrimEnd(s[..|s| - 1]) else s
  }

  /** `s.trim()`: neither end of the result is whitespace. */
  function Trim(s: string): (r: string)
    ensures |r| <= |s|
    ensures r == [] || (!IsJsWhitespace(r[0]) && !IsJsWhitespace(r[|r| - 1]))
  {
    TrimEnd(TrimStart(s))
  }

  /** What `TrimStart` drops is whitespace. */
  lemma {:induction false} TrimStartDropsWhitespace(s: string)
    ensures AllWhitespace(s[..|s| - |TrimStart(s)|])
  {
    if |s| > 0 && IsJsWhitespace(s[0]) {
      TrimStartDropsWhitespace(s[1..]);
      var r := TrimStart(s);
      assert s[..|s| - |r|] == [s[0]] + s[1..][..|s| - 1 - |r|];
    }
  }

  /** What `TrimEnd` drops is whitespace. */
  lemma {:induction false} TrimEndDropsWhitespace(s: string)
    ensures AllWhitespace(s[|TrimEnd(s)|..])
  {
    if |s| > 0 && IsJsWhitespace(s[|s| - 1]) {
      TrimEndDropsWhitespace(s[..|s| - 1]);
      var r := TrimEnd(s);
      assert s[|r|..] == s[..|s| - 1][|r|..] + [s[|s| - 1]];
    }
  }

  /** `r` sits at offset `a` of `s` with only whitespace before and after it. */
  predicate PaddedAt(s: string, a: int, r: string) {
    0 <= a <= |s| - |r| && r == s[a..a + |r|] && AllWhitespace(s[..a]) && AllWhitespace(s[a + |r|..])
  }

  /** `trim` cuts out an infix that has only whitespace around it. */
  lemma TrimIsPadded(s: string)
    ensures exists a :: PaddedAt(s, a, Trim(s))
  {
    var t := TrimStart(s);
    var r := Trim(s);
    var a := |s| - |t|;
    TrimStartDropsWhitespace(s);
    TrimEndDropsWhitespace(t);
    assert t == s[a..];
    assert s[a + |r|..] == t[|r|..];
    assert PaddedAt(s, a, r);
  }

  /** A property every character of `s` has, every character of `trim(s)` has. */
  lemma TrimKeepsNoUpper(s: string)
    requires NoUpper(s)
    ensures NoUpper(Trim(s))
  {
    TrimIsPadded(s);
    var a :| PaddedAt(s, a, Trim(s));
    var r := Trim(s);
    forall i | 0 <= i < |r| ensures !IsUpper(r[i]) {
      assert r[i] == s[a + i];
    }
  }

  lemma {:induction false} TrimStartPadded(w: string, y: string)
    requires AllWhitespace(w)
    ensures TrimStart(w + y) == TrimStart(y)
  {
    if w != [] {
      assert (w + y)[0] == w[0] && IsJsWhitespace(w[0]);
      assert (w + y)[1..] == w[1..] + y;
      assert AllWhitespace(w[1..]) by {
        forall i | 0 <= i < |w| - 1 ensures IsJsWhitespace(w[1..][i]) { assert w[1..][i] == w[i + 1]; }
      }
      TrimStartPadded(w[1..], y);
    } else {
      assert w + y == y;
    }
  }

  lemma {:induction false} TrimEndPadded(y: string, w: string)
    requires AllWhitespace(w)
    ensures TrimEnd(y + w) == TrimEnd(y)
  {
    if w != [] {
      assert (y + w)[|y + w| - 1] == w[|w| - 1] && IsJsWhitespace(w[|w| - 1]);
      assert (y + w)[..|y + w| - 1] == y + w[..|w| - 1];
      assert AllWhitespace(w[..|w| - 1]) by {
        var v := w[..|w| - 1];
        forall i | 0 <= i < |v| ensures IsJsWhitespace(v[i]) { assert v[i] == w[i]; }
      }
      TrimEndPadded(y, w[..|w| - 1]);
    } else {
      assert y + w == y;
    }
  }

  /** Trailing text does not change where the leading whitespace of a non-blank string ends. */
  lemma {:induction false} TrimStartAppend(y: string, w: string)
    ensures TrimStart(y) != [] ==> TrimStart(y + w) == TrimStart(y) + w
    ensures TrimStart(y) == [] ==> TrimStart(y + w) == TrimStart(w)
  {
    if y != [] {
      assert (y + w)[0] == y[0];
      if IsJsWhitespace(y[0]) {
        assert (y + w)[1..] == y[1..] + w;
        TrimStartAppend(y[1..], w);
      }
    } else {
      assert y + w == w;
    }
  }

  /** Trimming ignores whitespace padding on either side. */
  lemma TrimPadded(w1: string, x: string, w2: string)
    requires AllWhitespace(w1) && AllWhitespace(w2)
    ensures Trim(w1 + x + w2) == Trim(x)
  {
    assert w1 + x + w2 == w1 + (x + w2);
    TrimStartPadded(w1, x + w2);
    TrimStartAppend(x, w2);
    if TrimStart(x) != [] {
      TrimEndPadded(TrimStart(x), w2);
    } else {
      TrimStartPadded(w2, []);
      assert w2 + [] == w2;
    }
  }

  /** Upper-case letters this model lower-cases: ASCII A-Z and the Latin-1 capitals. */
  predicate IsUpper(c: char) {
    ('A' <= c <= 'Z') || ('\U{00C0}' <= c <= '\U{00DE}' && c != '\U{00D7}')
  }

  predicate NoUpper(s: string) {
    forall i :: 0 <= i < |s| ==> !IsUpper(s[i])
  }

  function LowerChar(c: char): (r: char)
    ensures !IsUpper(r)
    ensures !IsUpper(c) ==> r == c
    ensures IsUpper(c) ==> r as int == c as int + 32
  {
    if IsUpper(c) then (c as int + 32) as char else c
  }

  /** `s.toLowerCase()`, for the letters `IsUpper` names. */
  function ToLowerCase(s: string): (r: string)
    ensures |r| == |s| && NoUpper(r)
    ensures forall i :: 0 <= i < |s| && !IsUpper(s[i]) ==> r[i] == s[i]
    ensures forall i :: 0 <= i < |s| && IsUpper(s[i]) ==> r[i] as int == s[i] as int + 32
  {
    seq(|s|, i requires 0 <= i < |s| => LowerChar(s[i]))
  }

  /** Text without upper-case letters is its own lower-case form. */
  lemma ToLowerCaseOfLower(s: string)
    requires NoUpper(s)
    ensures ToLowerCase(s) == s
  {
  }

  /** Lower-casing keeps whitespace where it is. */
  lemma ToLowerCaseWhitespace(s: string)
    requires AllWhitespace(s)
    ensures ToLowerCase(s) == s
  {
    forall i | 0 <= i < |s| ensures !IsUpper(s[i]) {
      assert IsJsWhitespace(s[i]);
    }
  }

  lemma ToLowerCaseConcat(a: string, b: string)
    ensures ToLowerCase(a + b) == ToLowerCase(a) + ToLowerCase(b)
  {
  }
}
