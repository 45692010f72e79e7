/**
 The Python `str` built-ins that the chat backend relies on (`strip`,
 `split`, `isdigit`, `isupper`, `lower`, `in` and `"\n".join`), restricted
 to ASCII text.
 */
module Text {

  /** Python's `str.isspace` on ASCII: TAB, LF, VT, FF, CR, the four
      separators 0x1C-0x1F, and SPACE. */
  predicate IsSpace(c: char) {
    var n := c as int;
    (9 <= n <= 13) || (28 <= n <= 32)
  }

  predicate IsDigit(c: char) { '0' <= c <= '9' }

  predicate IsUpper(c: char) { 'A' <= c <= 'Z' }

  predicate AllSpace(s: string) { forall k :: 0 <= k < |s| ==> IsSpace(s[k]) }

  predicate NoSpace(s: string) { forall k :: 0 <= k < |s| ==> !IsSpace(s[k]) }

  predicate AllDigits(s: string) { forall k :: 0 <= k < |s| ==> IsDigit(s[k]) }

  /** Python's `str.isdigit`: false on the empty string. */
  predicate IsDigitString(s: string) { |s| > 0 && AllDigits(s) }

  /** The result of `strip()`: empty, or neither end is whitespace. */
  predicate Stripped(s: string) {
    s == [] || (!IsSpace(s[0]) && !IsSpace(s[|s| - 1]))
  }

  /** Number of whitespace characters at the front of `s`. */
  function LeadingSpaces(s: string): (n: nat)
    ensures n <= |s| && AllSpace(s[..n])
    ensures n < |s| ==> !IsSpace(s[n])
    decreases |s|
  {
    if |s| == 0 || !IsSpace(s[0]) then 0
    else
      var n := 1 + LeadingSpaces(s[1..]);
      assert s[..n] == [s[0]] + s[1..][..n - 1];
      n
  }

  /** Number of whitespace characters at the back of `s`. */
  function TrailingSpaces(s: string): (n: nat)
    ensures n <= |s| && AllSpace(s[|s| - n..])
    ensures n < |s| ==> !IsSpace(s[|s| - 1 - n])
    decreases |s|
  {
    if |s| == 0 || !IsSpace(s[|s| - 1]) then 0
    else
      var init := s[..|s| - 1];
      var n := 1 + TrailingSpaces(init);
      assert s[|s| - n..] == init[|init| - (n - 1)..] + [s[|s| - 1]];
      n
  }

  /** Number of non-whitespace characters at the front of `s`. */
  function WordLength(s: string): (n: nat)
    ensures n <= |s| && NoSpace(s[..n])
    ensures n < |s| ==> IsSpace(s[n])
    decreases |s|
  {
    if |s| == 0 || IsSpace(s[0]) then 0
    else
      var n := 1 + WordLength(s[1..]);
      assert s[..n] == [s[0]] + s[1..][..n - 1];
      n
  }

  /** `str.strip()` with no argument. */
  function Strip(s: string): (r: string)
    ensures Stripped(r)
    ensures r == [] <==> AllSpace(s)
  {
    var a := LeadingSpaces(s);
    var t := s[a..];
    var r := t[..|t| - TrailingSpaces(t)];
    assert a < |s| ==> r != [] by {
      if a < |s| {
        assert t[0] == s[a];
      }
    }
    assert a == |s| ==> s == s[..a];
    r
  }

  /** `str.split()` with no argument: the maximal runs of non-whitespace. */
  function Split(s: string): (words: seq<string>)
    ensures forall k :: 0 <= k < |words| ==> words[k] != [] && NoSpace(words[k])
    decreases |s|
  {
    var a := LeadingSpaces(s);
    if a == |s| then []
    else
      var t := s[a..];
      var n := WordLength(t);
      assert t[0] == s[a];
      [t[..n]] + Split(t[n..])
  }

  /** ASCII `str.lower()` on one character. */
  function LowerChar(c: char): char {
    if 'A' <= c <= 'Z' then (c as int + 32) as char else c
  }

  /** ASCII `str.lower()`. */
  function Lower(s: string): (r: string)
    ensures |r| == |s|
  {
    seq(|s|, k requires 0 <= k < |s| => LowerChar(s[k]))
  }

  /** `sub` occurs in `s` starting at index `i`. */
  predicate OccursAt(s: string, sub: string, i: nat) {
    i + |sub| <= |s| && s[i..i + |sub|] == sub
  }

  /** Python's `sub in s`. */
  predicate Contains(s: string, sub: string) {
    exists i: nat | i <= |s| :: OccursAt(s, sub, i)
  }

  /** Python's `sep.join(xs)`. */
  function Join(xs: seq<string>, sep: string): (r: string)
    decreases |xs|
  {
    if xs == [] then ""
    else if |xs| == 1 then xs[0]
    else xs[0] + sep + Join(xs[1..], sep)
  }

  // ---------------------------------------------------------------------
  // Lemmas

  /** The middle part of a concatenation occurs right after the first. */
  lemma OccursInMiddle(a: string, b: string, c: string)
    ensures OccursAt(a + b + c, b, |a|)
  {
    var s, n := a + b + c, |a|;
    assert s[n..n + |b|] == b by {
      forall k | 0 <= k < |b| ensures s[n..n + |b|][k] == b[k] {
        assert s[n + k] == (a + b)[n + k];
      }
    }
  }

  /** An occurrence survives appending text at the end. */
  lemma OccursExtend(s: string, sub: string, i: nat, t: string)
    requires OccursAt(s, sub, i)
    ensures OccursAt(s + t, sub, i)
  {
    assert (s + t)[i..i + |sub|] == s[i..i + |sub|];
  }

  /** Containment is transitive. */
  lemma ContainsTrans(a: string, b: string, c: string)
    requires Contains(a, b) && Contains(b, c)
    ensures Contains(a, c)
  {
    var i: nat :| i <= |a| && OccursAt(a, b, i);
    var j: nat :| j <= |b| && OccursAt(b, c, j);
    var n, lb := |c|, |b|;
    assert i + lb <= |a| && j + n <= lb;
    assert a[i..i + lb] == b && b[j..j + n] == c;
    forall k | 0 <= k < n ensures a[i + j + k] == c[k] {
      assert a[i + j + k] == a[i..i + lb][j + k] == b[j + k] == b[j..j + n][k];
    }
    assert a[i + j..i + j + n] == c;
    assert OccursAt(a, c, i + j);
  }

  /** `LeadingSpaces` is the unique length of an all-whitespace prefix
      followed by a non-whitespace character or the end. */
  lemma {:induction false} LeadingSpacesExact(s: string, n: nat)
    requires n <= |s| && AllSpace(s[..n]) && (n < |s| ==> !IsSpace(s[n]))
    ensures LeadingSpaces(s) == n
    decreases n
  {
    if n > 0 {
      assert s[..n][0] == s[0];
      assert s[1..][..n - 1] == s[..n][1..];
      LeadingSpacesExact(s[1..], n - 1);
    }
  }

  /** `WordLength` is the unique length of a whitespace-free prefix
      followed by a whitespace character or the end. */
  lemma {:induction false} WordLengthExact(s: string, n: nat)
    requires n <= |s| && NoSpace(s[..n]) && (n < |s| ==> IsSpace(s[n]))
    ensures WordLength(s) == n
    decreases n
  {
    if n > 0 {
      assert s[..n][0] == s[0];
      assert s[1..][..n - 1] == s[..n][1..];
      WordLengthExact(s[1..], n - 1);
    }
  }

  /** `TrailingSpaces` is the unique length of an all-whitespace suffix
      preceded by a non-whitespace character or the start. */
  lemma {:induction false} TrailingSpacesExact(s: string, n: nat)
    requires n <= |s| && AllSpace(s[|s| - n..]) && (n < |s| ==> !IsSpace(s[|s| - 1 - n]))
    ensures TrailingSpaces(s) == n
    decreases n
  {
    if n > 0 {
      var init, suffix := s[..|s| - 1], s[|s| - n..];
      assert IsSpace(s[|s| - 1]) by { assert suffix[n - 1] == s[|s| - 1]; }
      assert init[|init| - (n - 1)..] == suffix[..n - 1];
      if n < |s| { assert init[|init| - n] == s[|s| - 1 - n]; }
      TrailingSpacesExact(init, n - 1);
    }
  }

  /** A whitespace-only suffix is counted by `TrailingSpaces`. */
  lemma {:induction false} TrailingSpacesAtLeast(s: string, q: nat)
    requires q <= |s| && AllSpace(s[q..])
    ensures TrailingSpaces(s) >= |s| - q
    decreases |s|
  {
    if q < |s| {
      assert s[q..][|s| - q - 1] == s[|s| - 1];
      var init := s[..|s| - 1];
      assert init[q..] == s[q..][..|s| - 1 - q];
      TrailingSpacesAtLeast(init, q);
    }
  }

  /** `strip()` is characterised uniquely: whatever whitespace surrounds a
      stripped string, stripping gives that string back. */
  lemma StripUnique(front: string, r: string, back: string)
    requires AllSpace(front) && AllSpace(back) && Stripped(r)
    ensures Strip(front + r + back) == r
  {
    var s := front + r + back;
    if r == [] {
      assert AllSpace(s) by {
        forall k | 0 <= k < |s| ensures IsSpace(s[k]) {
          if k < |front| { assert s[k] == front[k]; }
          else { assert s[k] == back[k - |front|]; }
        }
      }
    } else {
      var a := LeadingSpaces(s);
      assert s[|front|] == r[0];
      assert s[..|front|] == front;
      LeadingSpacesExact(s, |front|);
      var t := s[a..];
      assert t == r + back;
      var b := TrailingSpaces(t);
      assert t[|r| - 1] == r[|r| - 1];
      assert t[|t| - |back|..] == back;
      TrailingSpacesExact(t, |back|);
      assert t[..|t| - b] == r;
    }
  }

  /** `strip()` is idempotent. */
  lemma StripIdempotent(s: string)
    ensures Strip(Strip(s)) == Strip(s)
  {
    StripUnique([], Strip(s), []);
    assert [] + Strip(s) + [] == Strip(s);
  }

  /** `split()` finds no word exactly when the text is all whitespace. */
  lemma SplitEmpty(s: string)
    ensures Split(s) == [] <==> AllSpace(s)
  {
    var a := LeadingSpaces(s);
    if a == |s| {
      assert s == s[..a];
    } else {
      assert IsSpace(s[a]) ==> false;
    }
  }

  /** The word gap `s[..i]`, `s[i..j]`, `s[j..]`: a word, a run of
      whitespace and a word, covering all of `s`. */
  predicate WordGap(s: string, i: nat, j: nat) {
    0 < i < j < |s| && NoSpace(s[..i]) && AllSpace(s[i..j]) && NoSpace(s[j..])
  }

  /** `s` is exactly two whitespace-separated words. */
  predicate TwoWords(s: string) {
    exists i: nat, j: nat | j < |s| && i < j :: WordGap(s, i, j)
  }

  /** On a gap, `split()` returns exactly the two words around it. */
  lemma SplitAtGap(s: string, i: nat, j: nat)
    requires WordGap(s, i, j)
    ensures Split(s) == [s[..i], s[j..]]
  {
    assert !IsSpace(s[..i][0]);
    assert LeadingSpaces(s) == 0;
    assert s[0..] == s;
    var n := WordLength(s);
    assert s[i] == s[i..j][0];
    WordLengthExact(s, i);
    var u := s[i..];
    assert forall k :: 0 <= k < j - i ==> u[k] == s[i..j][k];
    var a := LeadingSpaces(u);
    assert u[..j - i] == s[i..j];
    assert u[j - i] == s[j..][0];
    LeadingSpacesExact(u, j - i);
    var v := u[a..];
    assert v == s[j..];
    var m := WordLength(v);
    assert v[..|v|] == v;
    WordLengthExact(v, |v|);
    assert v[..m] == v && v[m..] == [];
    assert Split(v[m..]) == [];
    assert Split(u) == [v];
  }

  /** For stripped text, `split()` gives two words exactly when the text is
      two words separated by whitespace, and then those are the words. */
  lemma SplitTwo(s: string)
    requires Stripped(s)
    ensures |Split(s)| == 2 <==> TwoWords(s)
    ensures |Split(s)| == 2 ==>
              exists i: nat, j: nat :: WordGap(s, i, j) && Split(s) == [s[..i], s[j..]]
  {
    if |Split(s)| == 2 {
      var a := LeadingSpaces(s);
      assert a != |s|;
      assert a == 0;
      assert s[a..] == s;
      var i := WordLength(s);
      var u := s[i..];
      assert |Split(u)| == 1;
      var b := LeadingSpaces(u);
      assert b != |u|;
      var v := u[b..];
      var m := WordLength(v);
      var rest := v[m..];
      assert Split(rest) == [];
      SplitEmpty(rest);
      assert rest == s[i + b + m..];
      TrailingSpacesAtLeast(s, i + b + m);
      assert rest == [];
      assert i < |s|;
      assert b > 0 by { assert u[0] == s[i]; }
      var j := i + b;
      assert s[i..j] == u[..b];
      assert s[j..] == v;
      assert v[..m] == v;
      assert WordGap(s, i, j);
      SplitAtGap(s, i, j);
    } else {
      if TwoWords(s) {
        var i: nat, j: nat :| WordGap(s, i, j);
        SplitAtGap(s, i, j);
        assert false;
      }
    }
  }

  /** A lower-cased window of `s` occurs in `Lower(s)` at the same place. */
  lemma LowerWindow(s: string, sub: string, i: nat)
    requires i + |sub| <= |s|
    ensures OccursAt(Lower(s), sub, i) <==>
              forall k :: 0 <= k < |sub| ==> LowerChar(s[i + k]) == sub[k]
  {
    var w := Lower(s)[i..i + |sub|];
    assert forall k :: 0 <= k < |sub| ==> w[k] == LowerChar(s[i + k]);
  }

  /** Every entry occurs in the joined text. */
  lemma {:induction false} JoinContains(xs: seq<string>, sep: string, k: nat)
    requires k < |xs|
    ensures Contains(Join(xs, sep), xs[k])
    decreases |xs|
  {
    if |xs| == 1 {
      assert OccursAt(Join(xs, sep), xs[k], 0);
    } else if k == 0 {
      assert OccursAt(Join(xs, sep), xs[0], 0);
    } else {
      JoinContains(xs[1..], sep, k - 1);
      var j := Join(xs[1..], sep);
      var i: nat :| OccursAt(j, xs[k], i);
      var pre := xs[0] + sep;
      var p, n := |pre|, |xs[k]|;
      assert OccursAt(j, xs[k], i);
      assert n == |xs[k]|;
      assert i + |xs[k]| <= |j|;
      assert Join(xs, sep) == pre + j;
      assert (pre + j)[p + i..p + i + n] == j[i..i + n];
      assert OccursAt(Join(xs, sep), xs[k], p + i);
    }
  }
}
