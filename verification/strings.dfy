/** The JavaScript string operations the core relies on: `startsWith`, `split`, `trim`, and a
    trailing-digit `replace`. Strings are sequences of Unicode scalar values. */
module Strings {

  /** `s.startsWith(prefix)`. */
  predicate StartsWith(s: string, prefix: string) {
    |prefix| <= |s| && s[..|prefix|] == prefix
  }

  /** `s.split(sep)` for a one-character separator: always at least one piece, none holding `sep`. */
  function Split(s: string, sep: char): (r: seq<string>)
    ensures |r| >= 1
    ensures forall i :: 0 <= i < |r| ==> sep !in r[i]
  {
    if s == [] then [""]
    else
      var init := Split(s[..|s| - 1], sep);
      if s[|s| - 1] == sep then init + [""]
      else init[..|init| - 1] + [init[|init| - 1] + [s[|s| - 1]]]
  }

  /** `parts.join(sep)`: the inverse of `Split`. */
  function JoinWith(parts: seq<string>, sep: char): string {
    if parts == [] then ""
    else if |parts| == 1 then parts[0]
    else JoinWith(parts[..|parts| - 1], sep) + [sep] + parts[|parts| - 1]
  }

  /** Joining the pieces of a split with the same separator gives back the original string. */
  lemma {:induction false} SplitJoin(s: string, sep: char)
    ensures JoinWith(Split(s, sep), sep) == s
  {
    if s != [] {
      var n := |s| - 1;
      var init := Split(s[..n], sep);
      SplitJoin(s[..n], sep);
      assert s == s[..n] + [s[n]];
      if s[n] == sep {
        assert (init + [""])[..|init|] == init;
      } else {
        var k := |init| - 1;
        var parts := init[..k] + [init[k] + [s[n]]];
        assert parts[..k] == init[..k];
        if k > 0 {
          assert init == init[..k] + [init[k]];
        }
      }
    }
  }

  /** A string without the separator splits into itself alone. */
  lemma {:induction false} SplitNoSeparator(s: string, sep: char)
    requires sep !in s
    ensures Split(s, sep) == [s]
  {
    if s != [] {
      var n := |s| - 1;
      SplitNoSeparator(s[..n], sep);
      assert s[..n] + [s[n]] == s;
    }
  }

  /** Splitting `a`, a separator, then a piece `b` without the separator: the pieces of `a`, then `b`. */
  lemma SplitTail(a: string, b: string, sep: char)
    requires sep !in b
    ensures Split(a + [sep] + b, sep) == Split(a, sep) + [b]
  {
    SplitConcat(a, b, sep);
    SplitNoSeparator(b, sep);
  }

  /** One more separator opens an empty piece. */
  lemma SplitSnocSep(s: string, sep: char)
    ensures Split(s + [sep], sep) == Split(s, sep) + [""]
  {
    assert (s + [sep])[..|s|] == s;
  }

  /** One more character other than the separator extends the last piece. */
  lemma SplitSnocOther(s: string, c: char, sep: char)
    requires c != sep
    ensures var init := Split(s, sep);
      Split(s + [c], sep) == init[..|init| - 1] + [init[|init| - 1] + [c]]
  {
    assert (s + [c])[..|s|] == s;
  }

  /** Splitting at one separator: the pieces before it, then the pieces after it. */
  lemma {:induction false} SplitConcat(a: string, b: string, sep: char)
    ensures Split(a + [sep] + b, sep) == Split(a, sep) + Split(b, sep)
  {
    if b == [] {
      calc {
        Split(a + [sep] + b, sep);
        { assert a + [sep] + b == a + [sep]; }
        Split(a + [sep], sep);
        { SplitSnocSep(a, sep); }
        Split(a, sep) + [""];
      }
    } else {
      var n := |b| - 1;
      var c := b[n];
      var x := a + [sep] + b[..n];
      var left, right := Split(a, sep), Split(b[..n], sep);
      if c == sep {
        calc {
          Split(a + [sep] + b, sep);
          { assert a + [sep] + b == x + [c]; }
          Split(x + [sep], sep);
          { SplitSnocSep(x, sep); }
          Split(x, sep) + [""];
          { SplitConcat(a, b[..n], sep); }
          left + (right + [""]);
          { SplitSnocSep(b[..n], sep); }
          left + Split(b[..n] + [sep], sep);
          { assert b[..n] + [sep] == b; }
          left + Split(b, sep);
        }
      } else {
        calc {
          Split(a + [sep] + b, sep);
          { assert a + [sep] + b == x + [c]; }
          Split(x + [c], sep);
          { SplitSnocOther(x, c, sep); }
          Split(x, sep)[..|Split(x, sep)| - 1] + [Split(x, sep)[|Split(x, sep)| - 1] + [c]];
          { SplitConcat(a, b[..n], sep); }
          (left + right)[..|left + right| - 1] + [(left + right)[|left + right| - 1] + [c]];
          { ExtendLastPiece(left, right, c); }
          left + (right[..|right| - 1] + [right[|right| - 1] + [c]]);
          { SplitSnocOther(b[..n], c, sep); }
          left + Split(b[..n] + [c], sep);
          { assert b[..n] + [c] == b; }
          left + Split(b, sep);
        }
      }
    }
  }

  /** Extending the last piece of a concatenation of piece lists extends the last piece of the second. */
  lemma ExtendLastPiece(left: seq<string>, right: seq<string>, c: char)
    requires |right| > 0
    ensures var init := left + right;
      init[..|init| - 1] + [init[|init| - 1] + [c]] == left + (right[..|right| - 1] + [right[|right| - 1] + [c]])
  {
    var init := left + right;
    assert init[..|init| - 1] == left + right[..|right| - 1];
  }

  /** The last element of a list: `pop()` on the result of `split`, which is never empty. */
  function Last<T>(s: seq<T>): T
    requires |s| > 0
  {
    s[|s| - 1]
  }

  /** The characters that JavaScript's `String.prototype.trim` removes: white space and line terminators. */
  predicate IsJsSpace(ch: char) {
    ch == '\t' || ch == '\n' || ch == '\U{0B}' || ch == '\U{0C}' || ch == '\r' || ch == ' '
    || ch == '\U{A0}' || ch == '\U{1680}' || ('\U{2000}' <= ch <= '\U{200A}')
    || ch == '\U{2028}' || ch == '\U{2029}' || ch == '\U{202F}' || ch == '\U{205F}'
    || ch == '\U{3000}' || ch == '\U{FEFF}'
  }

  /** Every character of `s` is white space (a blank string). */
  predicate AllSpace(s: string) {
    forall k :: 0 <= k < |s| ==> IsJsSpace(s[k])
  }

  /** Leading white space removed: a suffix of `s` whose dropped prefix is blank. */
  function TrimStart(s: string): (r: string)
    ensures |r| <= |s| && r == s[|s| - |r|..]
    ensures AllSpace(s[..|s| - |r|])
    ensures r == [] || !IsJsSpace(r[0])
  {
    if s != [] && IsJsSpace(s[0]) then TrimStart(s[1..]) else s
  }

  /** Trailing white space removed: a prefix of `s` whose dropped suffix is blank. */
  function TrimEnd(s: string): (r: string)
    ensures |r| <= |s| && r == s[..|r|]
    ensures AllSpace(s[|r|..])
    ensures r == [] || !IsJsSpace(r[|r| - 1])
  {
    if s != [] && IsJsSpace(s[|s| - 1]) then TrimEnd(s[..|s| - 1]) else s
  }

  /** `s.trim()`. */
  function Trim(s: string): string {
    TrimEnd(TrimStart(s))
  }

  /** Removing leading white space leaves nothing exactly when the string is blank. */
  lemma TrimStartEmptyIffBlank(s: string)
    ensures TrimStart(s) == [] <==> AllSpace(s)
  {
    var r := TrimStart(s);
    if r == [] {
      assert s[..|s|] == s;
    } else {
      assert s[|s| - |r|] == r[0];
    }
  }

  /** A trimmed string is empty exactly when the original is blank. */
  lemma TrimEmptyIffBlank(s: string)
    ensures Trim(s) == [] <==> AllSpace(s)
  {
    var t := TrimStart(s);
    TrimStartEmptyIffBlank(s);
    if t != [] {
      TrimEndKeepsHead(t);
    }
  }

  /** Removing trailing white space from a string that starts with a non-space character leaves
      something. */
  lemma TrimEndKeepsHead(t: string)
    requires t != [] && !IsJsSpace(t[0])
    ensures TrimEnd(t) != []
  {
    assert !AllSpace(t[0..]) by {
      assert t[0..][0] == t[0];
    }
  }

  predicate IsDigit(ch: char) {
    '0' <= ch <= '9'
  }

  /** `s.replace(/\d+$/, '')`: the longest prefix of `s` that does not end in an ASCII digit,
      the dropped suffix being all digits. */
  function StripTrailingDigits(s: string): (r: string)
    ensures |r| <= |s| && r == s[..|r|]
    ensures forall k :: |r| <= k < |s| ==> IsDigit(s[k])
    ensures r == [] || !IsDigit(r[|r| - 1])
  {
    if s != [] && IsDigit(s[|s| - 1]) then StripTrailingDigits(s[..|s| - 1]) else s
  }

  /** Stripping a run of digits that follows a name not ending in a digit gives back the name. */
  lemma {:induction false} StripTrailingDigitsOf(name: string, digits: string)
    requires name == [] || !IsDigit(name[|name| - 1])
    requires forall k :: 0 <= k < |digits| ==> IsDigit(digits[k])
    ensures StripTrailingDigits(name + digits) == name
  {
    if digits != [] {
      var n := |digits| - 1;
      StripTrailingDigitsOf(name, digits[..n]);
      assert (name + digits)[..|name + digits| - 1] == name + digits[..n];
    } else {
      assert name + digits == name;
    }
  }
}
