/** The Python `str` operations the header hook relies on, over `string` (= seq<char>):
    `strip()`, `split("\n")`, `"\n".join(...)`, `splitlines()` for '\n'-separated text,
    an ASCII `lower()`, the `in` substring test and `str(n)` for a natural number. */
module PyStr {

  /** The characters Python's `str.isspace()` accepts, which `str.strip()` removes. */
  predicate IsSpace(c: char) {
    var n := c as int;
    n == 32 || 9 <= n <= 13 || 28 <= n <= 31 || n == 0x85 || n == 0xA0 || n == 0x1680
    || 0x2000 <= n <= 0x200A || n == 0x2028 || n == 0x2029 || n == 0x202F || n == 0x205F
    || n == 0x3000
  }

  predicate AllSpace(s: string) {
    forall i :: 0 <= i < |s| ==> IsSpace(s[i])
  }

  /** `s.lstrip()` */
  function StripLeft(s: string): string {
    if |s| > 0 && IsSpace(s[0]) then StripLeft(s[1..]) else s
  }

  /** `s.rstrip()` */
  function StripRight(s: string): string {
    if |s| > 0 && IsSpace(s[|s| - 1]) then StripRight(s[..|s| - 1]) else s
  }

  /** `s.strip()` */
  function Strip(s: string): string {
    StripRight(StripLeft(s))
  }

  /** `lstrip()` keeps a suffix, cuts off only whitespace, and leaves non-whitespace in front. */
  lemma {:induction false} StripLeftShape(s: string)
    ensures var r := StripLeft(s);
      |r| <= |s| && r == s[|s| - |r|..] && AllSpace(s[..|s| - |r|]) && (r == [] || !IsSpace(r[0]))
  {
    if |s| > 0 && IsSpace(s[0]) {
      StripLeftShape(s[1..]);
      var r := StripLeft(s[1..]);
      var cut := s[..|s| - |r|];
      var cutTail := s[1..][..|s| - 1 - |r|];
      forall i | 0 <= i < |cut| ensures IsSpace(cut[i]) {
        if i > 0 {
          assert cut[i] == cutTail[i - 1];
        }
      }
    }
  }

  /** `rstrip()` keeps a prefix, cuts off only whitespace, and leaves non-whitespace at the end. */
  lemma {:induction false} StripRightShape(s: string)
    ensures var r := StripRight(s);
      |r| <= |s| && r == s[..|r|] && AllSpace(s[|r|..]) && (r == [] || !IsSpace(r[|r| - 1]))
  {
    if |s| > 0 && IsSpace(s[|s| - 1]) {
      var t := s[..|s| - 1];
      StripRightShape(t);
      var r := StripRight(t);
      assert r == s[..|r|];
      forall i | 0 <= i < |s| - |r| ensures IsSpace(s[|r|..][i]) {
        if i < |s| - 1 - |r| {
          assert s[|r|..][i] == t[|r|..][i];
        }
      }
    }
  }

  /** `strip()` keeps a slice, cuts off only whitespace on both sides, and the kept slice
      starts and ends with non-whitespace. */
  lemma StripShape(s: string)
    ensures var r := Strip(s);
      exists i :: 0 <= i <= i + |r| <= |s| && r == s[i..i + |r|]
        && AllSpace(s[..i]) && AllSpace(s[i + |r|..])
    ensures var r := Strip(s); r == [] || (!IsSpace(r[0]) && !IsSpace(r[|r| - 1]))
  {
    StripLeftShape(s);
    var l := StripLeft(s);
    var i := |s| - |l|;
    StripRightShape(l);
    var r := StripRight(l);
    assert r == s[i..i + |r|];
    assert l[|r|..] == s[i + |r|..];
    if r != [] {
      assert r[0] == l[0];
    }
  }

  lemma {:induction false} StripLeftSkips(s: string, i: nat)
    requires i < |s| && AllSpace(s[..i]) && !IsSpace(s[i])
    ensures StripLeft(s) == s[i..]
  {
    if i > 0 {
      assert s[..i][0] == s[0];
      var t := s[1..];
      var u := t[..i - 1];
      assert AllSpace(u) by {
        forall k | 0 <= k < |u| ensures IsSpace(u[k]) {
          assert u[k] == s[..i][k + 1];
        }
      }
      StripLeftSkips(t, i - 1);
    }
  }

  lemma {:induction false} StripRightSkips(s: string, j: nat)
    requires 0 < j <= |s| && AllSpace(s[j..]) && !IsSpace(s[j - 1])
    ensures StripRight(s) == s[..j]
    decreases |s| - j
  {
    if j < |s| {
      assert s[j..][|s| - 1 - j] == s[|s| - 1];
      var t := s[..|s| - 1];
      assert AllSpace(t[j..]) by {
        forall k | 0 <= k < |t| - j ensures IsSpace(t[j..][k]) {
          assert t[j..][k] == s[j..][k];
        }
      }
      StripRightSkips(t, j);
      assert t[..j] == s[..j];
    }
  }

  /** `strip()` yields the one slice of `s` that is flanked by whitespace only and
      starts and ends with a non-whitespace character. */
  lemma {:induction false} StripIsTrimmedSlice(s: string, i: nat, j: nat)
    requires i < j <= |s|
    requires AllSpace(s[..i]) && AllSpace(s[j..])
    requires !IsSpace(s[i]) && !IsSpace(s[j - 1])
    ensures Strip(s) == s[i..j]
  {
    StripLeftSkips(s, i);
    var l := s[i..];
    assert l[j - i..] == s[j..];
    StripRightSkips(l, j - i);
    assert l[..j - i] == s[i..j];
  }

  /** A text made only of whitespace strips to the empty string. */
  lemma {:induction false} StripAllSpace(s: string)
    requires AllSpace(s)
    ensures Strip(s) == ""
  {
    if |s| > 0 {
      assert AllSpace(s[1..]) by {
        forall k | 0 <= k < |s| - 1 ensures IsSpace(s[1..][k]) {
          assert s[1..][k] == s[k + 1];
        }
      }
      StripAllSpace(s[1..]);
      assert StripLeft(s) == StripLeft(s[1..]);
    }
  }

  lemma {:induction false} StripRightKeepsPrefix(s: string, p: string)
    requires p <= s && |p| > 0 && !IsSpace(p[|p| - 1])
    ensures p <= StripRight(s)
    decreases |s|
  {
    if IsSpace(s[|s| - 1]) {
      assert |p| < |s| by {
        assert s[|p| - 1] == p[|p| - 1];
      }
      assert p <= s[..|s| - 1];
      StripRightKeepsPrefix(s[..|s| - 1], p);
    }
  }

  /** A leading part `p` of `s` that starts and ends with non-whitespace survives `strip()`. */
  lemma {:induction false} StripKeepsPrefix(s: string, p: string)
    requires p <= s && |p| > 0
    requires !IsSpace(p[0]) && !IsSpace(p[|p| - 1])
    ensures p <= Strip(s)
  {
    assert s[0] == p[0];
    assert StripLeft(s) == s;
    StripRightKeepsPrefix(s, p);
  }

  /** `s.split("\n")`: never empty, and no piece holds a newline. */
  function SplitOnNewline(s: string): (r: seq<string>)
    ensures |r| >= 1
    ensures forall k :: 0 <= k < |r| ==> '\n' !in r[k]
  {
    if |s| == 0 then [""]
    else if s[0] == '\n' then [""] + SplitOnNewline(s[1..])
    else
      var t := SplitOnNewline(s[1..]);
      [[s[0]] + t[0]] + t[1..]
  }

  /** `"\n".join(parts)` */
  function JoinLines(parts: seq<string>): string {
    if |parts| == 0 then ""
    else if |parts| == 1 then parts[0]
    else parts[0] + "\n" + JoinLines(parts[1..])
  }

  /** `text.splitlines()` for a text whose only line boundary is '\n': a final newline ends
      the last line instead of opening an empty one, and the empty text has no lines. */
  function SplitLines(text: string): seq<string> {
    if |text| == 0 then []
    else if text[|text| - 1] == '\n' then SplitOnNewline(text[..|text| - 1])
    else SplitOnNewline(text)
  }

  /** Joining the pieces of a split restores the text. */
  lemma {:induction false} JoinSplit(s: string)
    ensures JoinLines(SplitOnNewline(s)) == s
  {
    if |s| == 0 {
    } else if s[0] == '\n' {
      JoinSplit(s[1..]);
      assert s == "" + "\n" + s[1..];
    } else {
      var t := SplitOnNewline(s[1..]);
      JoinSplit(s[1..]);
      if |t| == 1 {
        assert s == [s[0]] + t[0];
      } else {
        assert JoinLines(t) == t[0] + "\n" + JoinLines(t[1..]);
        var r := [[s[0]] + t[0]] + t[1..];
        assert r[1..] == t[1..];
        assert s == [s[0]] + s[1..];
      }
    }
  }

  lemma {:induction false} SplitSingle(x: string)
    requires '\n' !in x
    ensures SplitOnNewline(x) == [x]
  {
    if |x| > 0 {
      assert '\n' !in x[1..] by {
        forall k | 0 <= k < |x| - 1 ensures x[1..][k] != '\n' {
          assert x[1..][k] == x[k + 1];
        }
      }
      SplitSingle(x[1..]);
      assert x == [x[0]] + x[1..];
    }
  }

  lemma {:induction false} SplitAfterLine(x: string, t: string)
    requires '\n' !in x
    ensures SplitOnNewline(x + "\n" + t) == [x] + SplitOnNewline(t)
  {
    var s := x + "\n" + t;
    if |x| == 0 {
      assert s[1..] == t;
    } else {
      assert '\n' !in x[1..] by {
        forall k | 0 <= k < |x| - 1 ensures x[1..][k] != '\n' {
          assert x[1..][k] == x[k + 1];
        }
      }
      SplitAfterLine(x[1..], t);
      assert s[1..] == x[1..] + "\n" + t;
      assert [s[0]] + x[1..] == x;
    }
  }

  /** Splitting a join of newline-free pieces gives the pieces back. */
  lemma {:induction false} SplitJoin(parts: seq<string>)
    requires |parts| >= 1
    requires forall k :: 0 <= k < |parts| ==> '\n' !in parts[k]
    ensures SplitOnNewline(JoinLines(parts)) == parts
  {
    if |parts| == 1 {
      SplitSingle(parts[0]);
    } else {
      SplitJoin(parts[1..]);
      SplitAfterLine(parts[0], JoinLines(parts[1..]));
      assert parts == [parts[0]] + parts[1..];
    }
  }

  /** Joining a concatenation puts one newline between the two joins. */
  lemma {:induction false} JoinAppend(a: seq<string>, b: seq<string>)
    requires |a| >= 1 && |b| >= 1
    ensures JoinLines(a + b) == JoinLines(a) + "\n" + JoinLines(b)
  {
    if |a| == 1 {
      assert (a + b)[1..] == b;
    } else {
      JoinAppend(a[1..], b);
      assert (a + b)[1..] == a[1..] + b;
    }
  }

  /** Reading back a text written as newline-terminated lines yields those lines. */
  lemma {:induction false} SplitLinesOfWritten(lines: seq<string>)
    requires |lines| >= 1
    requires forall k :: 0 <= k < |lines| ==> '\n' !in lines[k]
    ensures SplitLines(JoinLines(lines) + "\n") == lines
  {
    var text := JoinLines(lines) + "\n";
    assert text[..|text| - 1] == JoinLines(lines);
    SplitJoin(lines);
  }

  /** `c.lower()` restricted to ASCII letters. */
  function LowerChar(c: char): char {
    if 'A' <= c <= 'Z' then (c as int + 32) as char else c
  }

  /** `s.lower()` restricted to ASCII letters, character by character. */
  function Lower(s: string): (r: string)
    ensures |r| == |s|
    ensures forall i :: 0 <= i < |s| ==> r[i] == LowerChar(s[i])
  {
    if |s| == 0 then "" else [LowerChar(s[0])] + Lower(s[1..])
  }

  /** Lower-casing twice is lower-casing once. */
  lemma LowerIdempotent(s: string)
    ensures Lower(Lower(s)) == Lower(s)
  {
    assert forall i :: 0 <= i < |s| ==> LowerChar(LowerChar(s[i])) == LowerChar(s[i]);
  }

  /** Lower-casing distributes over concatenation. */
  lemma LowerAppend(a: string, b: string)
    ensures Lower(a + b) == Lower(a) + Lower(b)
  {
    assert forall i :: 0 <= i < |a + b| ==> (a + b)[i] == if i < |a| then a[i] else b[i - |a|];
  }

  /** `pat in text` */
  predicate Contains(text: string, pat: string) {
    pat <= text || (|text| > 0 && Contains(text[1..], pat))
  }

  /** An occurrence of `pat` at position `i` makes `pat in text` true (Occurrence gives
      the converse). */
  lemma {:induction false} ContainsAt(text: string, pat: string, i: nat)
    requires i + |pat| <= |text| && text[i..i + |pat|] == pat
    ensures Contains(text, pat)
  {
    if i > 0 {
      assert text[1..][i - 1..i - 1 + |pat|] == text[i..i + |pat|];
      ContainsAt(text[1..], pat, i - 1);
    }
  }

  /** An occurrence in a part is an occurrence in any text that surrounds it. */
  lemma {:induction false} ContainsInContext(before: string, t: string, after: string, pat: string)
    requires Contains(t, pat)
    ensures Contains(before + t + after, pat)
  {
    var i := Occurrence(t, pat);
    var s := before + t + after;
    assert s[|before| + i..|before| + i + |pat|] == t[i..i + |pat|];
    ContainsAt(s, pat, |before| + i);
  }

  /** A position at which `pat` occurs in `text`. */
  function Occurrence(text: string, pat: string): (i: nat)
    requires Contains(text, pat)
    ensures i + |pat| <= |text| && text[i..i + |pat|] == pat
  {
    if pat <= text then 0
    else
      var i := Occurrence(text[1..], pat);
      assert text[1..][i..i + |pat|] == text[i + 1..i + 1 + |pat|];
      1 + i
  }

  function DigitChar(d: nat): char
    requires d < 10
  {
    ('0' as int + d) as char
  }

  predicate IsDecimal(s: string) {
    |s| >= 1 && forall i :: 0 <= i < |s| ==> '0' <= s[i] <= '9'
  }

  /** `str(n)` for a natural number. */
  function DecimalString(n: nat): (r: string)
    ensures IsDecimal(r)
    ensures r[0] == '0' <==> n == 0
    ensures n == 0 ==> r == "0"
  {
    if n < 10 then [DigitChar(n)] else DecimalString(n / 10) + [DigitChar(n % 10)]
  }

  /** `int(s)` for a string of decimal digits. */
  function ParseDecimal(s: string): nat
    requires forall i :: 0 <= i < |s| ==> '0' <= s[i] <= '9'
  {
    if |s| == 0 then 0 else ParseDecimal(s[..|s| - 1]) * 10 + (s[|s| - 1] as int - '0' as int)
  }

  /** `int(str(n)) == n` */
  lemma {:induction false} ParseDecimalString(n: nat)
    ensures ParseDecimal(DecimalString(n)) == n
  {
    var r := DecimalString(n);
    if n >= 10 {
      ParseDecimalString(n / 10);
      assert r[..|r| - 1] == DecimalString(n / 10);
    }
  }

  /** A digit string with a non-zero leading digit is worth at least one. */
  lemma {:induction false} ParseDecimalPositive(s: string)
    requires IsDecimal(s) && s[0] != '0'
    ensures ParseDecimal(s) >= 1
  {
    if |s| > 1 {
      var p := s[..|s| - 1];
      assert p[0] == s[0];
      ParseDecimalPositive(p);
    }
  }

  /** `str(n)` is the only digit string without a leading zero (other than "0" itself) that
      parses to `n`. */
  lemma {:induction false} DecimalStringUnique(s: string)
    requires IsDecimal(s) && (s == "0" || s[0] != '0')
    ensures s == DecimalString(ParseDecimal(s))
  {
    var n := ParseDecimal(s);
    if |s| == 1 {
      assert s[..0] == [] && ParseDecimal(s[..0]) == 0;
      assert n == s[0] as int - '0' as int;
      assert s == [DigitChar(n)];
    } else {
      var p := s[..|s| - 1];
      assert p[0] == s[0];
      ParseDecimalPositive(p);
      DecimalStringUnique(p);
      var d := s[|s| - 1] as int - '0' as int;
      assert n == ParseDecimal(p) * 10 + d;
      assert n / 10 == ParseDecimal(p) && n % 10 == d;
      assert s == p + [DigitChar(d)];
    }
  }
}
