/**
 The prompt formatter `format_input` of the chat backend: a classifier that
 rewrites a bare number, a date or a two-word capitalised name into a fuller
 question, greets on empty input, and otherwise passes the stripped text
 through.
 */
module PromptFormat {
  import opened Text

  const Greeting := "Hello! How can I assist you today?"

  function NumberQuestion(t: string): string {
    "What can you tell me about the number " + t + "?"
  }

  function DateQuestion(t: string): string {
    "What is special about the date " + t + "?"
  }

  function NameQuestion(t: string): string {
    "Who is " + t + "? Can you provide more details?"
  }

  /** A separator of the date pattern: one of `/`, `.`, `-`. */
  predicate IsSep(c: char) { c == '/' || c == '.' || c == '-' }

  // ---------------------------------------------------------------------
  // The regular expression ^\d{1,2}[/.-]\d{1,2}[/.-]\d{4}$ under re.match

  /** How many digits `\d{0,max}` consumes greedily from index `i`. */
  function DigitRun(s: string, i: nat, max: nat): (n: nat)
    requires i <= |s|
    ensures n <= max && i + n <= |s| && AllDigits(s[i..i + n])
    ensures n < max && i + n < |s| ==> !IsDigit(s[i + n])
    decreases max
  {
    if max == 0 || i == |s| || !IsDigit(s[i]) then 0
    else
      var n := 1 + DigitRun(s, i + 1, max - 1);
      assert s[i..i + n] == [s[i]] + s[i + 1..i + n];
      n
  }

  /** `re.match` of the date pattern. A digit is never a separator, so the
      greedy `\d{1,2}` never has to give a digit back; `$` matches at the
      end of the text and also just before a final newline. */
  predicate RegexDateMatch(s: string) {
    var d := DigitRun(s, 0, 2);
    d >= 1 && d < |s| && IsSep(s[d]) &&
    var m := DigitRun(s, d + 1, 2);
    m >= 1 && d + 1 + m < |s| && IsSep(s[d + 1 + m]) &&
    var q := d + m + 2;
    DigitRun(s, q, 4) == 4 && (q + 4 == |s| || (q + 5 == |s| && s[q + 4] == '\n'))
  }

  /** The date shape read off the pattern: `d` day digits, a separator,
      `m` month digits, a separator, four year digits, and nothing else. */
  predicate DateAt(s: string, d: nat, m: nat) {
    1 <= d <= 2 && 1 <= m <= 2 && |s| == d + m + 6 &&
    AllDigits(s[..d]) && IsSep(s[d]) &&
    AllDigits(s[d + 1..d + 1 + m]) && IsSep(s[d + 1 + m]) &&
    AllDigits(s[d + m + 2..])
  }

  predicate DateShaped(s: string) {
    exists d: nat, m: nat | d <= 2 && m <= 2 :: DateAt(s, d, m)
  }

  /** The formatter's name rule, stated without `split`: two words with an
      upper-case first letter each, separated by whitespace. */
  predicate CapitalisedPair(s: string) {
    exists i: nat, j: nat | j < |s| && i < j :: WordGap(s, i, j) && IsUpper(s[0]) && IsUpper(s[j])
  }

  /** `format_input`. */
  function FormatInput(promptText: string): (r: string)
    ensures r != []
  {
    var t := Strip(promptText);
    if t == [] then Greeting
    else if IsDigitString(t) then NumberQuestion(t)
    else if RegexDateMatch(t) then DateQuestion(t)
    else
      var words := Split(t);
      if |words| == 2 && IsUpper(words[0][0]) && IsUpper(words[1][0]) then NameQuestion(t)
      else t
  }

  // ---------------------------------------------------------------------
  // Lemmas

  /** `DigitRun` stops exactly after a run of `n` digits that ends at the
      cap, the end of the text or a non-digit. */
  lemma {:induction false} DigitRunExact(s: string, i: nat, max: nat, n: nat)
    requires i + n <= |s| && n <= max && AllDigits(s[i..i + n])
    requires n < max && i + n < |s| ==> !IsDigit(s[i + n])
    ensures DigitRun(s, i, max) == n
    decreases n
  {
    if n > 0 {
      assert s[i..i + n][0] == s[i];
      assert s[i + 1..i + n] == s[i..i + n][1..];
      DigitRunExact(s, i + 1, max - 1, n - 1);
    }
  }

  /** The regular expression accepts exactly the date shape, optionally
      followed by a single newline (the `$` anchor). */
  lemma RegexDateMatchIff(s: string)
    ensures RegexDateMatch(s) <==>
              DateShaped(s) || (|s| > 0 && s[|s| - 1] == '\n' && DateShaped(s[..|s| - 1]))
  {
    if RegexDateMatch(s) {
      var n, d, m := MatchedDate(s);
      if n == |s| {
        assert s[..n] == s;
        assert DateAt(s, d, m);
      } else {
        assert DateAt(s[..|s| - 1], d, m);
      }
    }
    if DateShaped(s) {
      var d: nat, m: nat :| d <= 2 && m <= 2 && DateAt(s, d, m);
      assert s[..|s|] == s;
      DateAtMatches(s, |s|, d, m);
    } else if |s| > 0 && s[|s| - 1] == '\n' && DateShaped(s[..|s| - 1]) {
      var t := s[..|s| - 1];
      var d: nat, m: nat :| d <= 2 && m <= 2 && DateAt(t, d, m);
      DateAtMatches(s, |t|, d, m);
    }
  }

  /** A date shape at the start of `s`, with `s` ending right after it or
      one newline later, is accepted by the regular expression. */
  lemma DateAtMatches(s: string, n: nat, d: nat, m: nat)
    requires n <= |s| && DateAt(s[..n], d, m)
    requires n == |s| || (n + 1 == |s| && s[n] == '\n')
    ensures RegexDateMatch(s)
  {
    var q := d + m + 2;
    DatePrefix(s, s[..n], d, m);
    DigitRunExact(s, 0, 2, d);
    DigitRunExact(s, d + 1, 2, m);
    DigitRunExact(s, q, 4, 4);
    RegexDateMatchFrom(s, d, m);
  }

  /** The regular expression's three digit runs, read as the runs found. */
  lemma RegexDateMatchFrom(s: string, d: nat, m: nat)
    requires 1 <= d && d + m + 6 <= |s| && 1 <= m
    requires DigitRun(s, 0, 2) == d && IsSep(s[d])
    requires DigitRun(s, d + 1, 2) == m && IsSep(s[d + 1 + m])
    requires DigitRun(s, d + m + 2, 4) == 4
    requires |s| == d + m + 6 || (|s| == d + m + 7 && s[d + m + 6] == '\n')
    ensures RegexDateMatch(s)
  {
  }

  /** Where the regular expression matches, the three digit runs it
      found make a date shape, ending the text or followed by a newline. */
  lemma MatchedDate(s: string) returns (n: nat, d: nat, m: nat)
    requires RegexDateMatch(s)
    ensures d <= 2 && m <= 2 && n <= |s| && DateAt(s[..n], d, m)
    ensures n == |s| || (n + 1 == |s| && s[n] == '\n')
  {
    d := DigitRun(s, 0, 2);
    m := DigitRun(s, d + 1, 2);
    n := d + m + 6;
    DateFromRuns(s, n, d, m);
  }

  /** Digit runs and separators laid out in `s` make a date shape of its
      first `n` characters. */
  lemma DateFromRuns(s: string, n: nat, d: nat, m: nat)
    requires 1 <= d <= 2 && 1 <= m <= 2 && n == d + m + 6 && n <= |s|
    requires AllDigits(s[0..d]) && IsSep(s[d])
    requires AllDigits(s[d + 1..d + 1 + m]) && IsSep(s[d + 1 + m])
    requires AllDigits(s[d + m + 2..n])
    ensures DateAt(s[..n], d, m)
  {
    var t := s[..n];
    assert t[..d] == s[0..d];
    assert t[d + 1..d + 1 + m] == s[d + 1..d + 1 + m];
    assert t[d + m + 2..] == s[d + m + 2..n];
  }

  /** The parts of a date shape that starts `s`, read off `s` itself. */
  lemma DatePrefix(s: string, t: string, d: nat, m: nat)
    requires DateAt(t, d, m) && |t| <= |s| && t == s[..|t|]
    ensures AllDigits(s[0..d]) && IsSep(s[d])
    ensures AllDigits(s[d + 1..d + 1 + m]) && IsSep(s[d + 1 + m])
    ensures AllDigits(s[d + m + 2..d + m + 6])
  {
    assert t[..d] == s[0..d];
    assert t[d + 1..d + 1 + m] == s[d + 1..d + 1 + m];
    assert t[d + m + 2..] == s[d + m + 2..d + m + 6];
  }

  /** A date has a separator, so it is never an all-digit string. */
  lemma DateNotNumber(s: string)
    requires DateShaped(s)
    ensures !IsDigitString(s)
  {
    var d: nat, m: nat :| d <= 2 && m <= 2 && DateAt(s, d, m);
    assert !IsDigit(s[d]);
  }

  /** Two words have whitespace between them, so they are neither a
      number nor a date. */
  lemma PairNotNumberOrDate(s: string)
    requires TwoWords(s)
    ensures !IsDigitString(s) && !DateShaped(s)
  {
    var i: nat, j: nat :| j < |s| && i < j && WordGap(s, i, j);
    assert IsSpace(s[i]) by { assert s[i] == s[i..j][0]; }
    DateHasNoSpace(s);
  }

  /** A date consists of digits and separators only. */
  lemma DateHasNoSpace(s: string)
    ensures DateShaped(s) ==> NoSpace(s)
  {
    if DateShaped(s) {
      var d: nat, m: nat :| d <= 2 && m <= 2 && DateAt(s, d, m);
      forall k | 0 <= k < |s| ensures IsDigit(s[k]) || IsSep(s[k]) {
        if k < d { assert s[k] == s[..d][k]; }
        else if d < k < d + 1 + m { assert s[k] == s[d + 1..d + 1 + m][k - d - 1]; }
        else if d + 1 + m < k { assert s[k] == s[d + m + 2..][k - d - m - 2]; }
      }
    }
  }

  /** On stripped text the formatter's `split()`-based name test is the
      two-capitalised-words shape. */
  lemma NameTestIff(t: string)
    requires Stripped(t)
    ensures (|Split(t)| == 2 && IsUpper(Split(t)[0][0]) && IsUpper(Split(t)[1][0]))
            <==> CapitalisedPair(t)
  {
    SplitTwo(t);
    if CapitalisedPair(t) {
      var i: nat, j: nat :| j < |t| && i < j && WordGap(t, i, j) && IsUpper(t[0]) && IsUpper(t[j]);
      SplitAtGap(t, i, j);
      assert t[..i][0] == t[0] && t[j..][0] == t[j];
    }
    if |Split(t)| == 2 {
      var i: nat, j: nat :| WordGap(t, i, j) && Split(t) == [t[..i], t[j..]];
      assert t[..i][0] == t[0] && t[j..][0] == t[j];
    }
  }

  /** Blank input gets the fixed greeting. */
  lemma FormatBlank(s: string)
    requires AllSpace(s)
    ensures FormatInput(s) == Greeting
  {
  }

  /** None of the three question templates can read as the greeting. */
  lemma QuestionsAreNotGreeting(t: string)
    ensures NumberQuestion(t) != Greeting
    ensures DateQuestion(t) != Greeting
    ensures NameQuestion(t) != Greeting
  {
    assert Greeting[0] == 'H';
    assert NumberQuestion(t)[0] == 'W';
    assert DateQuestion(t)[0] == 'W';
    assert NameQuestion(t)[0] == 'W';
  }

  /** The greeting comes out only for blank input, or when the stripped
      input already is the greeting text. */
  lemma FormatGreetingOnlyWhenBlank(s: string)
    ensures FormatInput(s) == Greeting ==> AllSpace(s) || Strip(s) == Greeting
  {
    QuestionsAreNotGreeting(Strip(s));
  }

  /** A stripped all-digit text becomes the number question. */
  lemma FormatNumber(s: string)
    requires IsDigitString(Strip(s))
    ensures FormatInput(s) == "What can you tell me about the number " + Strip(s) + "?"
  {
  }

  /** A stripped text of the date shape becomes the date question, each
      separator being any of `/ . -` independently. */
  lemma FormatDate(s: string)
    requires DateShaped(Strip(s))
    ensures FormatInput(s) == "What is special about the date " + Strip(s) + "?"
  {
    var t := Strip(s);
    DateNotNumber(t);
    RegexDateMatchIff(t);
  }

  /** Two capitalised words become the who-is question; no earlier rule
      can claim them. */
  lemma FormatName(s: string)
    requires CapitalisedPair(Strip(s))
    ensures FormatInput(s) == "Who is " + Strip(s) + "? Can you provide more details?"
  {
    var t := Strip(s);
    PairNotNumberOrDate(t);
    RegexDateMatchIff(t);
    assert t[|t| - 1] != '\n';
    NameTestIff(t);
  }

  /** Any other input comes back as its stripped text. */
  lemma FormatPlain(s: string)
    requires !AllSpace(s)
    requires !IsDigitString(Strip(s)) && !DateShaped(Strip(s)) && !CapitalisedPair(Strip(s))
    ensures FormatInput(s) == Strip(s)
  {
    var t := Strip(s);
    RegexDateMatchIff(t);
    assert t[|t| - 1] != '\n';
    NameTestIff(t);
  }
}
