/**
 * The parts of Python's `str` and `re` behaviour the link-list parser and the filename cleaner
 * rely on, restricted to ASCII text: the classes `\d`, `\w`, `\s`, `str.strip()`, the deletions
 * of `re.sub('[...]', '', s)`, the run replacements of `re.sub('X+', '_', s)`, `int()` on a digit
 * string and `str()` of a natural number.
 */
module PyText {

  /** `\d`. */
  predicate IsDigit(c: char) { '0' <= c <= '9' }

  /** `\w`: letters, digits and the underscore. */
  predicate IsWordChar(c: char)
  {
    ('a' <= c <= 'z') || ('A' <= c <= 'Z') || IsDigit(c) || c == '_'
  }

  /** `\s`, and what `str.strip()` removes: space, tab to carriage return, and the separators 0x1c-0x1f. */
  predicate IsSpace(c: char)
  {
    c == ' ' || (9 <= c as int <= 13) || (28 <= c as int <= 31)
  }

  predicate NotWordChar(c: char) { !IsWordChar(c) }

  /** The number of leading characters of s that satisfy p. */
  function RunLength(s: string, p: char -> bool): (n: nat)
    ensures n <= |s|
    ensures n < |s| ==> !p(s[n])
  {
    if s != [] && p(s[0]) then 1 + RunLength(s[1..], p) else 0
  }

  /** Every character of the leading run satisfies p. */
  lemma {:induction false} RunLengthCovers(s: string, p: char -> bool)
    ensures forall i :: 0 <= i < RunLength(s, p) ==> p(s[i])
  {
    if s != [] && p(s[0]) {
      RunLengthCovers(s[1..], p);
      assert forall i :: 1 <= i < RunLength(s, p) ==> s[i] == s[1..][i - 1];
    }
  }

  /** The position just after the last character of s[lo..hi] that is not whitespace, or lo. */
  function TrimmedEnd(s: string, lo: nat, hi: nat): (m: nat)
    requires lo <= hi <= |s|
    ensures lo <= m <= hi
    ensures m > lo ==> !IsSpace(s[m - 1])
  {
    if hi > lo && IsSpace(s[hi - 1]) then TrimmedEnd(s, lo, hi - 1) else hi
  }

  lemma {:induction false} TrimmedEndCovers(s: string, lo: nat, hi: nat)
    requires lo <= hi <= |s|
    ensures forall i :: TrimmedEnd(s, lo, hi) <= i < hi ==> IsSpace(s[i])
  {
    if hi > lo && IsSpace(s[hi - 1]) {
      TrimmedEndCovers(s, lo, hi - 1);
    }
  }

  /**
   * `s.strip()`: s without its leading and trailing whitespace; the empty string when s is all
   * whitespace.
   */
  function Strip(s: string): (r: string)
    ensures |r| <= |s|
    ensures r != [] ==> !IsSpace(r[0]) && !IsSpace(r[|r| - 1])
  {
    var lo := RunLength(s, IsSpace);
    s[lo..TrimmedEnd(s, lo, |s|)]
  }

  /** Strip removes whitespace only: s is some whitespace, then Strip(s), then some whitespace. */
  lemma StripRemovesOnlySpace(s: string)
    ensures var lo := RunLength(s, IsSpace);
      && lo + |Strip(s)| <= |s|
      && Strip(s) == s[lo..lo + |Strip(s)|]
      && (forall i :: 0 <= i < lo ==> IsSpace(s[i]))
      && (forall i :: lo + |Strip(s)| <= i < |s| ==> IsSpace(s[i]))
  {
    RunLengthCovers(s, IsSpace);
    TrimmedEndCovers(s, RunLength(s, IsSpace), |s|);
  }

  /** Text with no whitespace at either end is left alone by Strip. */
  lemma StripKeepsTrimmed(s: string)
    requires s != [] ==> !IsSpace(s[0]) && !IsSpace(s[|s| - 1])
    ensures Strip(s) == s
  {
  }

  /** `re.sub('[^...]', '', s)`: the characters of s that satisfy keep, in order. */
  function Filter(s: string, keep: char -> bool): (r: string)
    ensures |r| <= |s|
    ensures forall i :: 0 <= i < |r| ==> keep(r[i])
  {
    if s == [] then []
    else (if keep(s[0]) then [s[0]] else []) + Filter(s[1..], keep)
  }

  /** Filter deletes exactly the characters keep refuses: each kept character keeps its count. */
  lemma {:induction false} FilterCounts(s: string, keep: char -> bool)
    ensures forall c :: keep(c) ==> multiset(Filter(s, keep))[c] == multiset(s)[c]
    ensures forall c :: !keep(c) ==> multiset(Filter(s, keep))[c] == 0
  {
    if s != [] {
      FilterCounts(s[1..], keep);
      assert s == [s[0]] + s[1..];
    }
  }

  /** Text made only of kept characters is left alone. */
  lemma {:induction false} FilterKeepsClean(s: string, keep: char -> bool)
    requires forall i :: 0 <= i < |s| ==> keep(s[i])
    ensures Filter(s, keep) == s
  {
    if s != [] {
      FilterKeepsClean(s[1..], keep);
    }
  }

  /**
   * `re.sub('X+', [rep], s)` for a character class X given as p: every maximal run of characters
   * satisfying p becomes the single character rep; everything else is copied.
   */
  function ReplaceRuns(s: string, p: char -> bool, rep: char): (r: string)
    ensures |r| <= |s|
    ensures r == [] <==> s == []
    ensures forall i :: 0 <= i < |r| ==> r[i] == rep || !p(r[i])
    decreases |s|
  {
    if s == [] then []
    else if p(s[0]) then [rep] + ReplaceRuns(s[RunLength(s, p)..], p, rep)
    else [s[0]] + ReplaceRuns(s[1..], p, rep)
  }

  /** With a replacement outside the class, no character of the class survives. */
  lemma ReplaceRunsClears(s: string, p: char -> bool, rep: char)
    requires !p(rep)
    ensures forall i :: 0 <= i < |ReplaceRuns(s, p, rep)| ==> !p(ReplaceRuns(s, p, rep)[i])
  {
  }

  /** Text with no character of the class is left alone. */
  lemma {:induction false} ReplaceRunsKeepsClean(s: string, p: char -> bool, rep: char)
    requires forall i :: 0 <= i < |s| ==> !p(s[i])
    ensures ReplaceRuns(s, p, rep) == s
  {
    if s != [] {
      ReplaceRunsKeepsClean(s[1..], p, rep);
    }
  }

  /** A first or last character outside the class is kept in place: rep only ever stands for a run. */
  lemma {:induction false} ReplaceRunsEnds(s: string, p: char -> bool, rep: char)
    requires s != []
    ensures var r := ReplaceRuns(s, p, rep);
      && (!p(s[0]) ==> r[0] == s[0])
      && (!p(s[|s| - 1]) ==> r[|r| - 1] == s[|s| - 1])
    decreases |s|
  {
    var r := ReplaceRuns(s, p, rep);
    if p(s[0]) {
      var t := s[RunLength(s, p)..];
      if t != [] {
        ReplaceRunsEnds(t, p, rep);
        assert t[|t| - 1] == s[|s| - 1];
      } else {
        RunLengthCovers(s, p);
      }
    } else if |s| > 1 {
      ReplaceRunsEnds(s[1..], p, rep);
    }
  }

  /** A property of every character of s, and of rep, holds of every character of the result. */
  lemma {:induction false} ReplaceRunsPreserves(s: string, p: char -> bool, rep: char, P: char -> bool)
    requires P(rep) && forall i :: 0 <= i < |s| ==> P(s[i])
    ensures forall i :: 0 <= i < |ReplaceRuns(s, p, rep)| ==> P(ReplaceRuns(s, p, rep)[i])
    decreases |s|
  {
    if s != [] {
      var t := if p(s[0]) then s[RunLength(s, p)..] else s[1..];
      assert forall i :: 0 <= i < |t| ==> t[i] == s[|s| - |t| + i];
      ReplaceRunsPreserves(t, p, rep, P);
    }
  }

  /** The value of a decimal digit. */
  function DigitValue(c: char): (d: nat)
    requires IsDigit(c)
    ensures d < 10
  {
    c as int - '0' as int
  }

  /** The decimal digit of a value below ten. */
  function DigitChar(d: nat): (c: char)
    requires d < 10
    ensures IsDigit(c) && DigitValue(c) == d
  {
    ('0' as int + d) as char
  }

  /** `int(s)` for a string of decimal digits. */
  function ParseDigits(s: string): nat
    requires forall i :: 0 <= i < |s| ==> IsDigit(s[i])
  {
    if s == [] then 0 else 10 * ParseDigits(s[..|s| - 1]) + DigitValue(s[|s| - 1])
  }

  /** `str(n)` for a natural number: its decimal digits, with no leading zero. */
  function NatToString(n: nat): (s: string)
    ensures s != []
    ensures forall i :: 0 <= i < |s| ==> IsDigit(s[i])
    ensures s[0] == '0' ==> n == 0
  {
    if n < 10 then [DigitChar(n)] else NatToString(n / 10) + [DigitChar(n % 10)]
  }

  /** Reading back what str() printed gives the number again. */
  lemma {:induction false} NatToStringRoundTrip(n: nat)
    ensures ParseDigits(NatToString(n)) == n
  {
    if 10 <= n {
      NatToStringRoundTrip(n / 10);
      var s := NatToString(n);
      assert s[..|s| - 1] == NatToString(n / 10);
    }
  }
}
