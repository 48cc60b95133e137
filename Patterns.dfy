/**
 * The three fixed regular expressions of the user validator, written as
 * direct predicates over strings:
 *   phone        ^\+?[1-9]\d{1,14}$      (anchored)
 *   dateOfBirth  ^\d{4}-\d{2}-\d{2}$     (anchored)
 *   email        \S+@\S+\.\S+            (unanchored: a search for a window)
 * Each executable predicate is paired with a reference definition that reads
 * like the regular expression, and a lemma proves the two agree.
 */
module Patterns {

  /** `\d` without the `u` flag: the ASCII digits only. */
  predicate IsDigit(c: char) {
    '0' <= c <= '9'
  }

  /** `\s` of ECMAScript: the WhiteSpace and LineTerminator code points. */
  predicate IsSpace(c: char) {
    c == '\t' || c == '\n' || c == '\U{000B}' || c == '\U{000C}' || c == '\r' || c == ' '
    || c == '\U{00A0}' || c == '\U{1680}' || ('\U{2000}' <= c <= '\U{200A}')
    || c == '\U{2028}' || c == '\U{2029}' || c == '\U{202F}' || c == '\U{205F}'
    || c == '\U{3000}' || c == '\U{FEFF}'
  }

  predicate AllDigits(s: string) {
    forall i :: 0 <= i < |s| ==> IsDigit(s[i])
  }

  predicate NoSpace(s: string) {
    forall i :: 0 <= i < |s| ==> !IsSpace(s[i])
  }

  // ---------------------------------------------------------------------------
  // phone: ^\+?[1-9]\d{1,14}$

  /** The phone check: drop one optional leading `+`, then 2 to 15 ASCII digits, the first 1-9. */
  predicate IsPhone(s: string) {
    var digits := if |s| > 0 && s[0] == '+' then s[1..] else s;
    2 <= |digits| <= 15 && '1' <= digits[0] <= '9' && AllDigits(digits)
  }

  /**
   * Reference reading of the regular expression: `sign` characters (0 or 1) of `+`,
   * one digit 1-9, then between 1 and 14 further digits, and nothing else.
   */
  ghost predicate PhoneShape(s: string) {
    exists sign: nat :: sign <= 1 && PhoneShapeWith(s, sign)
  }

  ghost predicate PhoneShapeWith(s: string, sign: nat) {
    && sign <= 1
    && sign < |s|
    && (sign == 1 ==> s[0] == '+')
    && '1' <= s[sign] <= '9'
    && 1 <= |s| - sign - 1 <= 14
    && AllDigits(s[sign + 1..])
  }

  lemma PhoneMatchesRegex(s: string)
    ensures IsPhone(s) <==> PhoneShape(s)
  {
    if IsPhone(s) {
      var sign: nat := if |s| > 0 && s[0] == '+' then 1 else 0;
      assert s[sign..][1..] == s[sign + 1..];
      assert PhoneShapeWith(s, sign);
    }
    if PhoneShape(s) {
      var sign: nat :| sign <= 1 && PhoneShapeWith(s, sign);
      var digits := if |s| > 0 && s[0] == '+' then s[1..] else s;
      assert digits == s[sign..];
      assert forall i :: 1 <= i < |digits| ==> digits[i] == s[sign + 1..][i - 1];
    }
  }

  /** What the phone check accepts: length 2 to 16, a `+` only in front, digits everywhere else. */
  lemma PhoneBounds(s: string)
    requires IsPhone(s)
    ensures 2 <= |s| <= 16
    ensures s[0] == '+' || '1' <= s[0] <= '9'
    ensures forall i :: 0 < i < |s| ==> IsDigit(s[i])
    ensures s[0] == '+' ==> 3 <= |s| && '1' <= s[1] <= '9'
  {
    if s[0] == '+' {
      assert forall i :: 0 < i < |s| ==> s[i] == s[1..][i - 1];
    }
  }

  // ---------------------------------------------------------------------------
  // dateOfBirth: ^\d{4}-\d{2}-\d{2}$

  /** The date check: exactly ten characters, `-` at offsets 4 and 7, ASCII digits elsewhere. */
  predicate IsDate(s: string) {
    && |s| == 10
    && IsDigit(s[0]) && IsDigit(s[1]) && IsDigit(s[2]) && IsDigit(s[3])
    && s[4] == '-'
    && IsDigit(s[5]) && IsDigit(s[6])
    && s[7] == '-'
    && IsDigit(s[8]) && IsDigit(s[9])
  }

  /** Reference reading: a 4-digit, a 2-digit and a 2-digit group joined by `-`. */
  ghost predicate DateShape(s: string) {
    exists year: string, month: string, day: string :: DateParts(s, year, month, day)
  }

  ghost predicate DateParts(s: string, year: string, month: string, day: string) {
    && |year| == 4 && |month| == 2 && |day| == 2
    && AllDigits(year) && AllDigits(month) && AllDigits(day)
    && s == year + "-" + month + "-" + day
  }

  lemma DateMatchesRegex(s: string)
    ensures IsDate(s) <==> DateShape(s)
  {
    if IsDate(s) {
      var year, month, day := s[..4], s[5..7], s[8..];
      assert s == year + "-" + month + "-" + day;
      assert DateParts(s, year, month, day);
    }
    if DateShape(s) {
      var year: string, month: string, day: string :| DateParts(s, year, month, day);
      assert s[0] == year[0] && s[1] == year[1] && s[2] == year[2] && s[3] == year[3];
      assert s[5] == month[0] && s[6] == month[1] && s[8] == day[0] && s[9] == day[1];
    }
  }

  // ---------------------------------------------------------------------------
  // email: \S+@\S+\.\S+ (unanchored)

  /**
   * The characterisation of a match by positions: an `@` at `at` with a
   * non-space character before it, a `.` at `dot` at least two places later,
   * no space strictly between them, and a non-space character after the `.`.
   */
  ghost predicate EmailAt(s: string, at: int, dot: int) {
    && 0 < at && at + 2 <= dot && dot + 1 < |s|
    && s[at] == '@' && s[dot] == '.'
    && !IsSpace(s[at - 1]) && !IsSpace(s[dot + 1])
    && forall j :: at < j < dot ==> !IsSpace(s[j])
  }

  ghost predicate EmailSpec(s: string) {
    exists at, dot :: EmailAt(s, at, dot)
  }

  /**
   * A window `w` matched by the whole of `\S+@\S+\.\S+`: no space in it, an `@`
   * after at least one character, a `.` at least one character later, and at
   * least one character after that.
   */
  ghost predicate EmailWindow(w: string) {
    && NoSpace(w)
    && exists a, b :: 0 < a && a + 1 < b && b + 1 < |w| && w[a] == '@' && w[b] == '.'
  }

  /** The regular expression's `test`: some substring is a whole match. */
  ghost predicate EmailRegex(s: string) {
    exists lo, hi :: 0 <= lo <= hi <= |s| && EmailWindow(s[lo..hi])
  }

  /** The executable email check: scan for an `@` that starts a match. */
  predicate IsEmail(s: string) {
    FindEmail(s, 0)
  }

  /** Some `@` at index `from` or later starts a match. */
  predicate FindEmail(s: string, from: nat)
    decreases |s| - from
  {
    if from >= |s| then false
    else (s[from] == '@' && 0 < from && !IsSpace(s[from - 1]) && DotScan(s, from, from + 1))
         || FindEmail(s, from + 1)
  }

  /**
   * With the `@` at `at` and no space in s[at+1..j], some `.` at index j or
   * later closes a match.
   */
  predicate DotScan(s: string, at: nat, j: nat)
    requires at < j
    decreases |s| - j
  {
    if j >= |s| || IsSpace(s[j]) then false
    else (at + 2 <= j && s[j] == '.' && j + 1 < |s| && !IsSpace(s[j + 1]))
         || DotScan(s, at, j + 1)
  }

  /** A `.` at `dot` closes a match whose `@` is at `at`, with no space in s[from..dot]. */
  ghost predicate DotCloses(s: string, at: int, from: int, dot: int) {
    && 0 <= from <= dot && 0 <= at && at + 2 <= dot && dot + 1 < |s|
    && s[dot] == '.' && !IsSpace(s[dot + 1])
    && forall k :: from <= k < dot ==> !IsSpace(s[k])
  }

  lemma {:induction false} DotScanSound(s: string, at: nat, j: nat)
    requires at < j
    requires DotScan(s, at, j)
    ensures exists dot :: DotCloses(s, at, j, dot)
    decreases |s| - j
  {
    if at + 2 <= j && s[j] == '.' && j + 1 < |s| && !IsSpace(s[j + 1]) {
      assert DotCloses(s, at, j, j);
    } else {
      DotScanSound(s, at, j + 1);
      var dot :| DotCloses(s, at, j + 1, dot);
      assert DotCloses(s, at, j, dot);
    }
  }

  lemma {:induction false} DotScanComplete(s: string, at: nat, j: nat, dot: int)
    requires at < j
    requires DotCloses(s, at, j, dot)
    ensures DotScan(s, at, j)
    decreases dot - j
  {
    if j < dot {
      DotScanComplete(s, at, j + 1, dot);
    }
  }

  lemma {:induction false} FindEmailSound(s: string, from: nat)
    requires FindEmail(s, from)
    ensures exists at, dot :: from <= at && EmailAt(s, at, dot)
    decreases |s| - from
  {
    if s[from] == '@' && 0 < from && !IsSpace(s[from - 1]) && DotScan(s, from, from + 1) {
      DotScanSound(s, from, from + 1);
      var dot :| DotCloses(s, from, from + 1, dot);
      assert EmailAt(s, from, dot);
    } else {
      FindEmailSound(s, from + 1);
    }
  }

  lemma {:induction false} FindEmailComplete(s: string, from: nat, at: int, dot: int)
    requires from <= at
    requires EmailAt(s, at, dot)
    ensures FindEmail(s, from)
    decreases at - from
  {
    if from < at {
      FindEmailComplete(s, from + 1, at, dot);
    } else {
      DotScanComplete(s, at, at + 1, dot);
    }
  }

  /** The executable scan accepts exactly the strings with a match by positions. */
  lemma EmailScanIsSpec(s: string)
    ensures IsEmail(s) <==> EmailSpec(s)
  {
    if IsEmail(s) {
      FindEmailSound(s, 0);
    }
    if EmailSpec(s) {
      var at, dot :| EmailAt(s, at, dot);
      FindEmailComplete(s, 0, at, dot);
    }
  }

  /** The characterisation by positions is the regular expression's search for a window. */
  lemma EmailSpecIsRegex(s: string)
    ensures EmailSpec(s) <==> EmailRegex(s)
  {
    if EmailSpec(s) {
      var at, dot :| EmailAt(s, at, dot);
      var w := s[at - 1..dot + 2];
      assert w[1] == '@' && w[dot - at + 1] == '.';
      assert forall i :: 0 <= i < |w| ==> w[i] == s[at - 1 + i];
      assert EmailWindow(w);
    }
    if EmailRegex(s) {
      var lo, hi :| 0 <= lo <= hi <= |s| && EmailWindow(s[lo..hi]);
      var w := s[lo..hi];
      var a, b :| 0 < a && a + 1 < b && b + 1 < |w| && w[a] == '@' && w[b] == '.';
      assert forall i :: 0 <= i < |w| ==> w[i] == s[lo + i];
      assert EmailAt(s, lo + a, lo + b);
    }
  }

  /** The email check accepts exactly what `/\S+@\S+\.\S+/.test` accepts. */
  lemma EmailMatchesRegex(s: string)
    ensures IsEmail(s) <==> EmailRegex(s)
  {
    EmailScanIsSpec(s);
    EmailSpecIsRegex(s);
  }

  /** Being unanchored, the check ignores whatever surrounds a match, spaces included. */
  lemma EmailSurroundingsIgnored(prefix: string, s: string, suffix: string)
    requires IsEmail(s)
    ensures IsEmail(prefix + s + suffix)
  {
    EmailScanIsSpec(s);
    var at, dot :| EmailAt(s, at, dot);
    var t := prefix + s + suffix;
    assert forall i :: 0 <= i < |s| ==> t[|prefix| + i] == s[i];
    assert EmailAt(t, |prefix| + at, |prefix| + dot);
    EmailScanIsSpec(t);
  }

  /** A string with no `@`, or one that is too short for a match, never passes. */
  lemma EmailNeedsAt(s: string)
    requires IsEmail(s)
    ensures '@' in s && '.' in s && 5 <= |s|
  {
    EmailScanIsSpec(s);
    var at, dot :| EmailAt(s, at, dot);
  }
}
