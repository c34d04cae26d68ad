/** The Python `str` operations the extractor relies on: `strip()`, `upper()`,
    `lower()`, `isdigit()` with `int()`, and `replace()`. */
module PyText {

  /** `str.isspace()` for one character: the characters `str.strip()` removes. */
  predicate IsSpace(c: char) {
    var n := c as int;
    n == 0x20 || 0x09 <= n <= 0x0D || 0x1C <= n <= 0x1F || n == 0x85 || n == 0xA0 ||
    n == 0x1680 || 0x2000 <= n <= 0x200A || n == 0x2028 || n == 0x2029 ||
    n == 0x202F || n == 0x205F || n == 0x3000
  }

  /** The number of whitespace characters `str.strip()` removes at the start. */
  function Indent(s: string): (n: nat)
    ensures n <= |s|
    ensures forall i :: 0 <= i < n ==> IsSpace(s[i])
    ensures n == |s| || !IsSpace(s[n])
  {
    if s != [] && IsSpace(s[0]) then 1 + Indent(s[1..]) else 0
  }

  /** The right half of `str.strip()`: drops trailing whitespace. */
  function TrimEnd(s: string): (r: string)
    ensures |r| <= |s| && r == s[..|r|]
    ensures forall i :: |r| <= i < |s| ==> IsSpace(s[i])
    ensures r == [] || !IsSpace(r[|r| - 1])
  {
    if s != [] && IsSpace(s[|s| - 1]) then TrimEnd(s[..|s| - 1]) else s
  }

  /** `str.strip()`: the slice of `s` left after removing whitespace at both ends. */
  function Strip(s: string): (r: string)
    ensures Indent(s) + |r| <= |s| && r == s[Indent(s)..Indent(s) + |r|]
    ensures forall i :: Indent(s) + |r| <= i < |s| ==> IsSpace(s[i])
    ensures r == [] || (!IsSpace(r[0]) && !IsSpace(r[|r| - 1]))
  {
    TrimEnd(s[Indent(s)..])
  }

  lemma {:induction false} IndentSkips(pre: string, t: string)
    requires forall i :: 0 <= i < |pre| ==> IsSpace(pre[i])
    requires t == [] || !IsSpace(t[0])
    ensures Indent(pre + t) == |pre|
  {
    if pre != [] {
      assert (pre + t)[1..] == pre[1..] + t;
      IndentSkips(pre[1..], t);
    } else {
      assert pre + t == t;
    }
  }

  lemma {:induction false} TrimEndSkips(t: string, post: string)
    requires forall i :: 0 <= i < |post| ==> IsSpace(post[i])
    requires t == [] || !IsSpace(t[|t| - 1])
    ensures TrimEnd(t + post) == t
  {
    if post != [] {
      assert (t + post)[..|t + post| - 1] == t + post[..|post| - 1];
      TrimEndSkips(t, post[..|post| - 1]);
    } else {
      assert t + post == t;
    }
  }

  /** Whitespace around a word with no whitespace at its ends is exactly what
      `strip()` removes. */
  lemma StripPadded(pre: string, x: string, post: string)
    requires forall i :: 0 <= i < |pre| ==> IsSpace(pre[i])
    requires forall i :: 0 <= i < |post| ==> IsSpace(post[i])
    requires x != [] && !IsSpace(x[0]) && !IsSpace(x[|x| - 1])
    ensures Strip(pre + x + post) == x
  {
    assert pre + x + post == pre + (x + post);
    IndentSkips(pre, x + post);
    assert (pre + (x + post))[|pre|..] == x + post;
    TrimEndSkips(x, post);
  }

  predicate NoLowerCase(s: string) {
    forall i :: 0 <= i < |s| ==> !('a' <= s[i] <= 'z')
  }

  predicate NoUpperCase(s: string) {
    forall i :: 0 <= i < |s| ==> !('A' <= s[i] <= 'Z')
  }

  /** `str.upper()` restricted to ASCII letters: each lower-case letter becomes
      its capital, 32 code points lower, and every other character stays. */
  function Upper(s: string): (r: string)
    ensures |r| == |s| && NoLowerCase(r)
    ensures forall i :: 0 <= i < |s| ==>
      if 'a' <= s[i] <= 'z' then r[i] as int == s[i] as int - 32 else r[i] == s[i]
  {
    seq(|s|, i requires 0 <= i < |s| => if 'a' <= s[i] <= 'z' then (s[i] as int - 32) as char else s[i])
  }

  /** `str.lower()` restricted to ASCII letters: each capital becomes its
      lower-case letter, 32 code points higher, and every other character stays. */
  function Lower(s: string): (r: string)
    ensures |r| == |s| && NoUpperCase(r)
    ensures forall i :: 0 <= i < |s| ==>
      if 'A' <= s[i] <= 'Z' then r[i] as int == s[i] as int + 32 else r[i] == s[i]
  {
    seq(|s|, i requires 0 <= i < |s| => if 'A' <= s[i] <= 'Z' then (s[i] as int + 32) as char else s[i])
  }

  /** `t` spells `k` up to the case of ASCII letters: position by position the
      same character, or the same letter in the other case. */
  predicate SameIgnoringCase(t: string, k: string) {
    |t| == |k| &&
    forall i :: 0 <= i < |t| ==>
      || t[i] == k[i]
      || ('a' <= k[i] <= 'z' && t[i] as int == k[i] as int - 32)
      || ('A' <= k[i] <= 'Z' && t[i] as int == k[i] as int + 32)
  }

  /** Upper-casing gives a word with no lower-case letter exactly when the text
      spells that word in any mixture of cases. */
  lemma UpperMatches(t: string, k: string)
    requires NoLowerCase(k)
    ensures Upper(t) == k <==> SameIgnoringCase(t, k)
  {
    if SameIgnoringCase(t, k) {
      var u := Upper(t);
      forall i | 0 <= i < |t| ensures u[i] == k[i] {
        if 'a' <= t[i] <= 'z' {
          assert u[i] as int == k[i] as int;
        }
      }
    }
  }

  /** Lower-casing gives a word with no capital exactly when the text spells
      that word in any mixture of cases. */
  lemma LowerMatches(t: string, k: string)
    requires NoUpperCase(k)
    ensures Lower(t) == k <==> SameIgnoringCase(t, k)
  {
    if SameIgnoringCase(t, k) {
      var l := Lower(t);
      forall i | 0 <= i < |t| ensures l[i] == k[i] {
        if 'A' <= t[i] <= 'Z' {
          assert l[i] as int == k[i] as int;
        }
      }
    }
  }

  /** Upper-casing forgets an earlier lower-casing, and the other way round. */
  lemma CaseMapsForget(s: string)
    ensures Upper(Lower(s)) == Upper(s)
    ensures Lower(Upper(s)) == Lower(s)
  {
    var ul, u := Upper(Lower(s)), Upper(s);
    forall i | 0 <= i < |s| ensures ul[i] == u[i] {
      if 'A' <= s[i] <= 'Z' {
        assert ul[i] as int == u[i] as int;
      }
    }
    var lu, l := Lower(Upper(s)), Lower(s);
    forall i | 0 <= i < |s| ensures lu[i] == l[i] {
      if 'a' <= s[i] <= 'z' {
        assert lu[i] as int == l[i] as int;
      }
    }
  }

  predicate AllSpace(s: string) {
    forall i :: 0 <= i < |s| ==> IsSpace(s[i])
  }

  /** `t` is the word `w` with only whitespace before and after it. */
  ghost predicate PaddedWord(t: string, w: string) {
    exists pre, post :: AllSpace(pre) && AllSpace(post) && t == pre + w + post
  }

  /** `t.strip() == w`, for a word with no whitespace at its ends, holds
      exactly when `t` is `w` padded with whitespace. */
  lemma StripIsWord(t: string, w: string)
    requires w != [] && !IsSpace(w[0]) && !IsSpace(w[|w| - 1])
    ensures Strip(t) == w <==> PaddedWord(t, w)
  {
    if Strip(t) == w {
      var i := Indent(t);
      var pre, post := t[..i], t[i + |w|..];
      assert t == pre + w + post;
      assert AllSpace(pre) && AllSpace(post);
    }
    if PaddedWord(t, w) {
      var pre, post :| AllSpace(pre) && AllSpace(post) && t == pre + w + post;
      StripPadded(pre, w, post);
    }
  }

  predicate IsDigit(c: char) {
    '0' <= c <= '9'
  }

  /** `str.isdigit()` restricted to ASCII digits: non-empty, every character a digit. */
  predicate IsDigits(s: string) {
    |s| > 0 && forall i :: 0 <= i < |s| ==> IsDigit(s[i])
  }

  /** `int(s)` for a string of decimal digits. */
  function DigitsValue(s: string): (n: nat)
    requires forall i :: 0 <= i < |s| ==> IsDigit(s[i])
    decreases |s|
  {
    if s == [] then 0
    else
      assert IsDigit(s[|s| - 1]);
      DigitsValue(s[..|s| - 1]) * 10 + (s[|s| - 1] as int - '0' as int)
  }

  /** `str(n)` for a natural number: its decimal digits without leading zeros. */
  function DecimalString(n: nat): (s: string)
    ensures IsDigits(s)
    ensures s[0] != '0' || n == 0
  {
    if n < 10 then [('0' as int + n) as char]
    else DecimalString(n / 10) + [('0' as int + n % 10) as char]
  }

  lemma {:induction false} DecimalRoundTrip(n: nat)
    ensures DigitsValue(DecimalString(n)) == n
  {
    if n >= 10 {
      var s := DecimalString(n);
      assert s[..|s| - 1] == DecimalString(n / 10);
      DecimalRoundTrip(n / 10);
    }
  }

  /** `s.replace(pat, rep)` for a non-empty `pat`: every non-overlapping
      occurrence, scanning from the left. */
  function Replace(s: string, pat: string, rep: string): (r: string)
    requires pat != []
    decreases |s|
  {
    if s == [] then []
    else if pat <= s then rep + Replace(s[|pat|..], pat, rep)
    else [s[0]] + Replace(s[1..], pat, rep)
  }
}
