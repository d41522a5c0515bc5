/** String operations the row builders use: Python's str.strip(),
    str.replace("\r\n", "\n") and str() of a non-negative integer. */
module Text {

  /** Python's str.isspace() for one character: the characters str.strip()
      removes when called without arguments. */
  predicate IsSpace(c: char) {
    || ('\t' <= c <= '\r')                 // tab, line feed, vertical tab, form feed, carriage return
    || ('\U{1c}' <= c <= '\U{1f}')         // file, group, record and unit separators
    || c == ' '
    || c == '\U{85}' || c == '\U{a0}' || c == '\U{1680}'
    || ('\U{2000}' <= c <= '\U{200a}')
    || c == '\U{2028}' || c == '\U{2029}' || c == '\U{202f}' || c == '\U{205f}' || c == '\U{3000}'
  }

  ghost predicate AllSpace(s: string) {
    forall k :: 0 <= k < |s| ==> IsSpace(s[k])
  }

  /** `s[i..j]` is what remains of `s` once leading and trailing whitespace
      are removed: everything outside is whitespace, and the slice is empty
      or starts and ends with a non-space character. */
  ghost predicate TrimmedSlice(s: string, i: nat, j: nat) {
    && i <= j <= |s|
    && AllSpace(s[..i])
    && AllSpace(s[j..])
    && (i < j ==> !IsSpace(s[i]) && !IsSpace(s[j - 1]))
  }

  /** Number of leading whitespace characters. */
  function LeadingSpace(s: string): (i: nat)
    ensures i <= |s|
    ensures forall k :: 0 <= k < i ==> IsSpace(s[k])
    ensures i == |s| || !IsSpace(s[i])
  {
    if |s| > 0 && IsSpace(s[0]) then 1 + LeadingSpace(s[1..]) else 0
  }

  /** Length of `s` without its trailing whitespace. */
  function EndOfText(s: string): (j: nat)
    ensures j <= |s|
    ensures forall k :: j <= k < |s| ==> IsSpace(s[k])
    ensures j == 0 || !IsSpace(s[j - 1])
  {
    if |s| > 0 && IsSpace(s[|s| - 1]) then EndOfText(s[..|s| - 1]) else |s|
  }

  /** Python's `s.strip()`. */
  function Strip(s: string): (r: string)
    ensures |r| <= |s|
    ensures r == [] || (!IsSpace(r[0]) && !IsSpace(r[|r| - 1]))
    ensures (|s| == 0 || (!IsSpace(s[0]) && !IsSpace(s[|s| - 1]))) ==> r == s
  {
    var i := LeadingSpace(s);
    var t := s[i..];
    var j := EndOfText(t);
    assert TrimmedSlice(s, i, i + j) by {
      assert s[i + j..] == t[j..];
      if j > 0 {
        assert s[i] == t[0];
        assert s[i + j - 1] == t[j - 1];
      }
    }
    t[..j]
  }

  /** LeadingSpace stops at the first non-space character. */
  lemma {:induction false} LeadingSpaceExact(s: string, i: nat)
    requires i <= |s|
    requires AllSpace(s[..i])
    requires i == |s| || !IsSpace(s[i])
    ensures LeadingSpace(s) == i
  {
    if i > 0 {
      assert s[..i][0] == s[0];
      assert s[1..][..i - 1] == s[..i][1..];
      LeadingSpaceExact(s[1..], i - 1);
    }
  }

  /** EndOfText stops after the last non-space character. */
  lemma {:induction false} EndOfTextExact(s: string, j: nat)
    requires j <= |s|
    requires AllSpace(s[j..])
    requires j == 0 || !IsSpace(s[j - 1])
    ensures EndOfText(s) == j
    decreases |s|
  {
    if j < |s| {
      assert s[j..][|s| - 1 - j] == s[|s| - 1];
      assert s[..|s| - 1][j..] == s[j..][..|s| - 1 - j];
      EndOfTextExact(s[..|s| - 1], j);
    }
  }

  /** Strip returns the one slice that TrimmedSlice describes. */
  lemma StripIsTrimmedSlice(s: string, i: nat, j: nat)
    requires TrimmedSlice(s, i, j)
    ensures Strip(s) == s[i..j]
  {
    if i < j {
      StripKeepsSlice(s, i, j);
    } else {
      StripAllSpace(s, i, j);
    }
  }

  lemma StripKeepsSlice(s: string, i: nat, j: nat)
    requires TrimmedSlice(s, i, j) && i < j
    ensures Strip(s) == s[i..j]
  {
    LeadingSpaceExact(s, i);
    var t := s[i..];
    assert t[j - i..] == s[j..];
    assert t[j - i - 1] == s[j - 1];
    EndOfTextExact(t, j - i);
  }

  lemma StripAllSpace(s: string, i: nat, j: nat)
    requires TrimmedSlice(s, i, j) && i == j
    ensures Strip(s) == []
  {
    forall k | 0 <= k < |s| ensures IsSpace(s[k]) {
      if k < i { assert s[..i][k] == s[k]; } else { assert s[j..][k - j] == s[k]; }
    }
    assert s[..|s|] == s;
    LeadingSpaceExact(s, |s|);
  }

  /** A leading whitespace character does not survive stripping. */
  lemma StripDropsSpace(s: string)
    requires |s| > 0 && IsSpace(s[0])
    ensures Strip(s) == Strip(s[1..])
  {
    var l := LeadingSpace(s[1..]);
    assert LeadingSpace(s) == 1 + l;
    assert s[1 + l..] == s[1..][l..];
  }

  /** Whitespace in front of a string does not survive stripping. */
  lemma {:induction false} StripSpacePrefix(a: string, b: string)
    requires AllSpace(a)
    ensures Strip(a + b) == Strip(b)
  {
    if |a| > 0 {
      var s := a + b;
      assert s[0] == a[0];
      StripDropsSpace(s);
      assert s[1..] == a[1..] + b;
      assert AllSpace(a[1..]) by {
        forall k | 0 <= k < |a[1..]| ensures IsSpace(a[1..][k]) {
          assert a[1..][k] == a[k + 1];
        }
      }
      StripSpacePrefix(a[1..], b);
    } else {
      assert a + b == b;
    }
  }

  /** Stripping twice is stripping once. */
  lemma StripIdempotent(s: string)
    ensures Strip(Strip(s)) == Strip(s)
  {
  }

  /** Python's `s.replace("\r\n", "\n")`: a left-to-right scan that replaces
      non-overlapping occurrences. */
  function ReplaceCrLf(s: string): (r: string)
    ensures |r| <= |s|
    decreases |s|
  {
    if |s| == 0 then []
    else if |s| >= 2 && s[0] == '\r' && s[1] == '\n' then "\n" + ReplaceCrLf(s[2..])
    else [s[0]] + ReplaceCrLf(s[1..])
  }

  /** `s` without its carriage returns. */
  function DropCr(s: string): (r: string)
    ensures '\r' !in r
    ensures |r| <= |s|
  {
    if |s| == 0 then [] else (if s[0] == '\r' then [] else [s[0]]) + DropCr(s[1..])
  }

  /** Every line feed written as "\r\n". */
  function ToCrLf(s: string): (r: string)
    ensures |r| >= |s|
  {
    if |s| == 0 then [] else (if s[0] == '\n' then "\r\n" else [s[0]]) + ToCrLf(s[1..])
  }

  /** The replacement only deletes carriage returns: every other character
      survives, in order. */
  lemma {:induction false} ReplaceCrLfOnlyDropsCr(s: string)
    ensures DropCr(ReplaceCrLf(s)) == DropCr(s)
    decreases |s|
  {
    if |s| == 0 {
    } else if |s| >= 2 && s[0] == '\r' && s[1] == '\n' {
      ReplaceCrLfOnlyDropsCr(s[2..]);
      assert ("\n" + ReplaceCrLf(s[2..]))[1..] == ReplaceCrLf(s[2..]);
      assert s[1..][1..] == s[2..];
    } else {
      ReplaceCrLfOnlyDropsCr(s[1..]);
      assert ([s[0]] + ReplaceCrLf(s[1..]))[1..] == ReplaceCrLf(s[1..]);
    }
  }

  /** Text without "\r\n" pairs is left as it is. */
  lemma {:induction false} ReplaceCrLfWithoutPairs(s: string)
    requires forall k :: 0 <= k < |s| - 1 ==> !(s[k] == '\r' && s[k + 1] == '\n')
    ensures ReplaceCrLf(s) == s
    decreases |s|
  {
    if |s| > 0 {
      ReplaceCrLfWithoutPairs(s[1..]);
    }
  }

  /** Replacing "\r\n" undoes writing every line feed as "\r\n", for text
      that has no carriage return of its own. */
  lemma {:induction false} ReplaceCrLfUndoesToCrLf(s: string)
    requires '\r' !in s
    ensures ReplaceCrLf(ToCrLf(s)) == s
    decreases |s|
  {
    if |s| > 0 {
      assert '\r' !in s[1..] by { assert forall k :: 0 <= k < |s[1..]| ==> s[1..][k] == s[k + 1]; }
      ReplaceCrLfUndoesToCrLf(s[1..]);
      var rest := ToCrLf(s[1..]);
      if s[0] == '\n' {
        assert ToCrLf(s) == "\r\n" + rest;
        assert ("\r\n" + rest)[2..] == rest;
      } else {
        assert ToCrLf(s) == [s[0]] + rest;
        assert ([s[0]] + rest)[1..] == rest;
      }
    }
  }

  /** Two lines joined by "\r\n" come out joined by "\n" (the body
      "line1\r\nline2" becomes "line1\nline2"). */
  lemma ReplaceCrLfJoin(a: string, b: string)
    requires '\r' !in a && '\r' !in b
    ensures ReplaceCrLf(a + "\r\n" + b) == a + "\n" + b
  {
    assert a + "\r\n" + b == a + ("\r\n" + b);
    ReplaceCrLfPrefix(a, "\r\n" + b);
    ReplaceCrLfWithoutPairs(b);
    assert ("\r\n" + b)[2..] == b;
    assert a + ("\n" + b) == a + "\n" + b;
  }

  /** A prefix that contains no carriage return passes through unchanged. */
  lemma {:induction false} ReplaceCrLfPrefix(a: string, b: string)
    requires '\r' !in a
    ensures ReplaceCrLf(a + b) == a + ReplaceCrLf(b)
    decreases |a|
  {
    if |a| > 0 {
      assert a[0] in a;
      assert (a + b)[0] == a[0];
      assert (a + b)[1..] == a[1..] + b;
      assert '\r' !in a[1..] by { assert forall k :: 0 <= k < |a[1..]| ==> a[1..][k] == a[k + 1]; }
      ReplaceCrLfPrefix(a[1..], b);
      assert a[0] != '\r';
      assert ReplaceCrLf(a + b) == [a[0]] + ReplaceCrLf(a[1..] + b);
      assert [a[0]] + (a[1..] + ReplaceCrLf(b)) == a + ReplaceCrLf(b);
    } else {
      assert a + b == b;
    }
  }

  /** The decimal digit for `d`. */
  function Digit(d: nat): (c: char)
    requires d < 10
    ensures '0' <= c <= '9'
  {
    (48 + d) as char
  }

  /** Python's str() of a non-negative integer: its decimal form. */
  function NatToString(n: nat): (s: string)
    ensures |s| >= 1
    ensures forall k :: 0 <= k < |s| ==> '0' <= s[k] <= '9'
    ensures s[0] == '0' ==> n == 0
  {
    if n < 10 then [Digit(n)] else NatToString(n / 10) + [Digit(n % 10)]
  }

  /** The number a string of decimal digits denotes. */
  function ParseDecimal(s: string): nat
    requires forall k :: 0 <= k < |s| ==> '0' <= s[k] <= '9'
  {
    if |s| == 0 then 0 else 10 * ParseDecimal(s[..|s| - 1]) + (s[|s| - 1] as int - 48)
  }

  /** Reading back the decimal form gives the number. */
  lemma {:induction false} ParseNatToString(n: nat)
    ensures ParseDecimal(NatToString(n)) == n
  {
    if n >= 10 {
      var s := NatToString(n);
      assert s[..|s| - 1] == NatToString(n / 10);
      ParseNatToString(n / 10);
    }
  }

  /** Different numbers have different decimal forms. */
  lemma NatToStringInjective(a: nat, b: nat)
    requires NatToString(a) == NatToString(b)
    ensures a == b
  {
    ParseNatToString(a);
    ParseNatToString(b);
  }
}
