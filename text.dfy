/**
 * String helpers the configuration parser relies on: Python's `str.strip`,
 * `str.lower`, `str.split()` / `" ".join(...)` and `str.split("\n")`,
 * restricted to the ASCII characters `str.isspace()` accepts and to ASCII letters.
 */
module Text {
  import opened Wrappers

  // -------------------------
  // Whitespace and trimming
  // -------------------------

  /** The ASCII characters `str.isspace()` accepts: tab to carriage return, the four separators, space. */
  predicate IsSpace(c: char) {
    c == ' ' || c == '\t' || c == '\n' || c == '\U{000B}' || c == '\U{000C}' || c == '\r' ||
    c == '\U{001C}' || c == '\U{001D}' || c == '\U{001E}' || c == '\U{001F}'
  }

  predicate AllSpace(s: string) {
    forall i :: 0 <= i < |s| ==> IsSpace(s[i])
  }

  /** Neither starts nor ends with whitespace. */
  predicate IsStripped(s: string) {
    s == [] || (!IsSpace(s[0]) && !IsSpace(s[|s| - 1]))
  }

  /** `s.lstrip()`. */
  function TrimStart(s: string): (r: string)
    ensures |r| <= |s|
    ensures r == [] || !IsSpace(r[0])
  {
    if s != [] && IsSpace(s[0]) then TrimStart(s[1..]) else s
  }

  lemma AllSpaceCons(c: char, a: string)
    requires IsSpace(c) && AllSpace(a)
    ensures AllSpace([c] + a)
  {
    forall i | 0 <= i < |[c] + a|
      ensures IsSpace(([c] + a)[i])
    {
      if i > 0 {
        assert ([c] + a)[i] == a[i - 1];
      }
    }
  }

  /** `TrimStart` cuts a whitespace prefix and keeps the rest unchanged. */
  lemma {:induction false} TrimStartIsSuffix(s: string)
    ensures s == s[..|s| - |TrimStart(s)|] + TrimStart(s)
    ensures AllSpace(s[..|s| - |TrimStart(s)|])
  {
    if s != [] && IsSpace(s[0]) {
      var t := s[1..];
      var r := TrimStart(t);
      TrimStartIsSuffix(t);
      assert TrimStart(s) == r;
      var n := |s| - |r|;
      var gap := t[..n - 1];
      assert t == gap + r;
      assert s == [s[0]] + t;
      assert s[..n] == [s[0]] + gap;
      AllSpaceCons(s[0], gap);
      assert s == ([s[0]] + gap) + r;
    } else {
      assert s[..0] == [];
    }
  }

  /** `s.rstrip()`. */
  function TrimEnd(s: string): (r: string)
    ensures |r| <= |s|
    ensures r == [] || !IsSpace(r[|r| - 1])
  {
    if s != [] && IsSpace(s[|s| - 1]) then TrimEnd(s[..|s| - 1]) else s
  }

  /** `TrimEnd` cuts a whitespace suffix and keeps the rest unchanged. */
  lemma {:induction false} TrimEndIsPrefix(s: string)
    ensures s == TrimEnd(s) + s[|TrimEnd(s)|..]
    ensures AllSpace(s[|TrimEnd(s)|..])
  {
    if s != [] && IsSpace(s[|s| - 1]) {
      var t := s[..|s| - 1];
      var r := TrimEnd(t);
      TrimEndIsPrefix(t);
      assert TrimEnd(s) == r;
      assert s[|r|..] == t[|r|..] + [s[|s| - 1]];
      assert s == t + [s[|s| - 1]];
      forall k | 0 <= k < |s| - |r|
        ensures IsSpace(s[|r|..][k])
      {
        if k < |t| - |r| {
          assert s[|r|..][k] == t[|r|..][k];
        }
      }
    } else {
      assert s[|s|..] == [];
    }
  }

  /** `s.strip()`: the longest infix of `s` with only whitespace cut from either end. */
  function Strip(s: string): (r: string)
    ensures IsStripped(r) && |r| <= |s|
  {
    var t := TrimStart(s);
    TrimEndIsPrefix(t);
    TrimEnd(t)
  }

  /** What `Strip` keeps is an infix of its input, with only whitespace cut from either end. */
  lemma StripIsInfix(s: string)
    ensures exists a, b :: 0 <= a <= b <= |s| && Strip(s) == s[a..b] && AllSpace(s[..a]) && AllSpace(s[b..])
  {
    var t := TrimStart(s);
    var r := TrimEnd(t);
    TrimStartIsSuffix(s);
    TrimEndIsPrefix(t);
    var a := |s| - |t|;
    assert t == s[a..];
    assert r == t[..|r|];
    assert r == s[a..a + |r|];
    assert s[a + |r|..] == t[|r|..];
    assert Strip(s) == r;
    assert AllSpace(s[..a]) && AllSpace(s[a + |r|..]);
  }

  lemma {:induction false} TrimStartSkipsSpace(a: string, x: string)
    requires AllSpace(a)
    ensures TrimStart(a + x) == TrimStart(x)
  {
    if a != [] {
      assert (a + x)[1..] == a[1..] + x;
      TrimStartSkipsSpace(a[1..], x);
      calc {
        TrimStart(a + x);
        TrimStart((a + x)[1..]);
        TrimStart(a[1..] + x);
      }
    } else {
      assert a + x == x;
    }
  }

  lemma {:induction false} TrimEndSkipsSpace(x: string, b: string)
    requires AllSpace(b)
    ensures TrimEnd(x + b) == TrimEnd(x)
  {
    if b != [] {
      assert (x + b)[..|x + b| - 1] == x + b[..|b| - 1];
      TrimEndSkipsSpace(x, b[..|b| - 1]);
      calc {
        TrimEnd(x + b);
        TrimEnd((x + b)[..|x + b| - 1]);
        TrimEnd(x + b[..|b| - 1]);
      }
    } else {
      assert x + b == x;
    }
  }

  /** Whitespace padding around an already stripped string is exactly what `Strip` removes. */
  lemma StripPadded(a: string, s: string, b: string)
    requires AllSpace(a) && AllSpace(b) && IsStripped(s)
    ensures Strip(a + s + b) == s
  {
    assert a + s + b == a + (s + b);
    TrimStartSkipsSpace(a, s + b);
    if s == [] {
      assert s + b == b + [];
      TrimStartSkipsSpace(b, []);
    } else {
      assert TrimStart(s + b) == s + b;
      TrimEndSkipsSpace(s, b);
    }
  }

  // -------------------------
  // Case
  // -------------------------

  predicate IsUpper(c: char) { 'A' <= c <= 'Z' }

  function LowerChar(c: char): (r: char)
    ensures !IsUpper(r)
    ensures !IsUpper(c) ==> r == c
    ensures IsSpace(r) == IsSpace(c) && IsDigit(r) == IsDigit(c) && (r == '=') == (c == '=')
  {
    if IsUpper(c) then (c as int - 'A' as int + 'a' as int) as char else c
  }

  /** `s.lower()` on ASCII letters. */
  function Lower(s: string): (r: string)
    ensures |r| == |s|
    ensures forall i :: 0 <= i < |s| ==> r[i] == LowerChar(s[i])
  {
    seq(|s|, i requires 0 <= i < |s| => LowerChar(s[i]))
  }

  predicate IsLower(s: string) {
    forall i :: 0 <= i < |s| ==> !IsUpper(s[i])
  }

  lemma LowerOfLower(s: string)
    requires IsLower(s)
    ensures Lower(s) == s
  {
  }

  lemma LowerConcat(a: string, b: string)
    ensures Lower(a + b) == Lower(a) + Lower(b)
  {
  }

  /** `s.upper()` on ASCII letters. */
  function Upper(s: string): (r: string)
    ensures |r| == |s|
    ensures forall i :: 0 <= i < |s| ==> !('a' <= r[i] <= 'z')
  {
    seq(|s|, i requires 0 <= i < |s| => if 'a' <= s[i] <= 'z' then (s[i] as int - 'a' as int + 'A' as int) as char else s[i])
  }

  /**
   * Lower-casing forgets letter case: upper-casing first gives the same result,
   * and the result holds no upper-case letter.
   */
  lemma LowerIgnoresCase(s: string)
    ensures Lower(Upper(s)) == Lower(s)
    ensures IsLower(Lower(s))
  {
  }

  /** Whitespace has no case. */
  lemma SpaceIsLower(s: string)
    requires AllSpace(s)
    ensures IsLower(s)
  {
  }

  // -------------------------
  // Characters and substrings
  // -------------------------

  /** The index of the first occurrence of `c`, as `s.find(c)` without the -1. */
  function IndexOf(s: string, c: char): (r: Option<nat>)
    ensures r.None? <==> c !in s
    ensures r.Some? ==> r.value < |s| && s[r.value] == c && c !in s[..r.value]
  {
    if s == [] then None
    else if s[0] == c then Some(0)
    else match IndexOf(s[1..], c)
      case None => None
      case Some(i) =>
        assert s[..i + 1] == [s[0]] + s[1..][..i];
        Some(i + 1)
  }

  /** An occurrence with none before it is the one found. */
  lemma IndexOfIs(s: string, c: char, i: nat)
    requires i < |s| && s[i] == c && c !in s[..i]
    ensures IndexOf(s, c) == Some(i)
  {
    var r := IndexOf(s, c);
    assert c in s;
    assert forall k :: 0 <= k < i ==> s[..i][k] != c;
    assert forall k :: 0 <= k < r.value ==> s[..r.value][k] != c;
  }

  predicate OccursAt(s: string, p: string, i: int) {
    0 <= i && i + |p| <= |s| && s[i..i + |p|] == p
  }

  /** `p in s` for strings. */
  predicate Contains(s: string, p: string) {
    exists i :: 0 <= i <= |s| - |p| && OccursAt(s, p, i)
  }

  // -------------------------
  // Words: `s.split()` and `" ".join(words)`
  // -------------------------

  predicate IsWord(w: string) {
    w != [] && forall i :: 0 <= i < |w| ==> !IsSpace(w[i])
  }

  predicate AllWords(ws: seq<string>) {
    forall i :: 0 <= i < |ws| ==> IsWord(ws[i])
  }

  /** The longest prefix of `s` that holds no whitespace. */
  function TakeWord(s: string): (r: string)
    ensures |r| <= |s|
    ensures forall i :: 0 <= i < |r| ==> !IsSpace(r[i])
    ensures |r| == |s| || IsSpace(s[|r|])
    ensures s != [] && !IsSpace(s[0]) ==> r != []
  {
    if s == [] || IsSpace(s[0]) then [] else [s[0]] + TakeWord(s[1..])
  }

  lemma {:induction false} TakeWordIsPrefix(s: string)
    ensures TakeWord(s) == s[..|TakeWord(s)|]
  {
    if s != [] && !IsSpace(s[0]) {
      TakeWordIsPrefix(s[1..]);
    }
  }

  /** The maximal non-empty runs of non-whitespace characters of `s`, in order. */
  function Words(s: string): (ws: seq<string>)
    ensures AllWords(ws)
    decreases |s|
  {
    var t := TrimStart(s);
    if t == [] then [] else
      var w := TakeWord(t);
      [w] + Words(t[|w|..])
  }

  function JoinWords(ws: seq<string>): string {
    if |ws| == 0 then []
    else if |ws| == 1 then ws[0]
    else ws[0] + " " + JoinWords(ws[1..])
  }

  lemma {:induction false} TakeWordOf(w: string, rest: string)
    requires forall i :: 0 <= i < |w| ==> !IsSpace(w[i])
    requires rest == [] || IsSpace(rest[0])
    ensures TakeWord(w + rest) == w
  {
    if w != [] {
      assert (w + rest)[1..] == w[1..] + rest;
      TakeWordOf(w[1..], rest);
    }
  }

  lemma WordsSkipSpace(a: string, x: string)
    requires AllSpace(a)
    ensures Words(a + x) == Words(x)
  {
    TrimStartSkipsSpace(a, x);
  }

  /** A word followed by whitespace (or nothing) is the first word. */
  lemma WordsOfWordThen(w: string, rest: string)
    requires IsWord(w)
    requires rest == [] || IsSpace(rest[0])
    ensures Words(w + rest) == [w] + Words(rest)
  {
    var s := w + rest;
    assert TrimStart(s) == s;
    TakeWordOf(w, rest);
    assert s[|w|..] == rest;
  }

  /** Two words with whitespace between them and around them are the words of the string. */
  lemma WordsOfTwo(a: string, v: string, gap: string, w: string, b: string)
    requires AllSpace(a) && AllSpace(b) && gap != [] && AllSpace(gap)
    requires IsWord(v) && IsWord(w)
    ensures Words(a + (v + (gap + (w + b)))) == [v, w]
  {
    var tail := w + b;
    var x := gap + tail;
    var y := v + x;
    WordsSkipSpace(a, y);
    assert x[0] == gap[0];
    WordsOfWordThen(v, x);
    WordsSkipSpace(gap, tail);
    WordsOfWordThen(w, b);
    WordsOfSpace(b);
  }

  /** Whitespace alone has no words. */
  lemma WordsOfSpace(b: string)
    requires AllSpace(b)
    ensures Words(b) == []
  {
    assert b + [] == b;
    WordsSkipSpace(b, []);
  }

  lemma WordsOfOneWord(w: string)
    requires IsWord(w)
    ensures Words(w) == [w]
  {
    assert w + [] == w;
    WordsOfWordThen(w, []);
  }

  lemma WordsOfWordSpace(w: string, tail: string)
    requires IsWord(w)
    ensures Words(w + " " + tail) == [w] + Words(tail)
  {
    assert w + " " + tail == w + (" " + tail);
    WordsOfWordThen(w, " " + tail);
    WordsSkipSpace(" ", tail);
  }

  lemma WordsJoinStep(ws: seq<string>)
    requires AllWords(ws) && |ws| > 1
    requires Words(JoinWords(ws[1..])) == ws[1..]
    ensures Words(JoinWords(ws)) == ws
  {
    WordsOfWordSpace(ws[0], JoinWords(ws[1..]));
    assert ws == [ws[0]] + ws[1..];
  }

  /** Splitting words joined by single spaces gives the words back. */
  lemma {:induction false} WordsOfJoin(ws: seq<string>)
    requires AllWords(ws)
    ensures Words(JoinWords(ws)) == ws
  {
    if |ws| > 1 {
      WordsOfJoin(ws[1..]);
      WordsJoinStep(ws);
    } else if |ws| == 1 {
      WordsOfOneWord(ws[0]);
    }
  }

  predicate AllLower(ws: seq<string>) {
    forall i :: 0 <= i < |ws| ==> IsLower(ws[i])
  }

  lemma WordsOfLowerStep(s: string)
    requires IsLower(s) && TrimStart(s) != []
    requires AllLower(Words(TrimStart(s)[|TakeWord(TrimStart(s))|..]))
    ensures AllLower(Words(s))
  {
    var t := TrimStart(s);
    var w := TakeWord(t);
    TrimStartIsSuffix(s);
    TakeWordIsPrefix(t);
    assert IsLower(t);
    assert IsLower(w);
    var ws := Words(s);
    assert ws == [w] + Words(t[|w|..]);
    AllLowerCons(w, Words(t[|w|..]));
  }

  lemma AllLowerCons(w: string, ws: seq<string>)
    requires IsLower(w) && AllLower(ws)
    ensures AllLower([w] + ws)
  {
  }

  /** Words of a lower-case string are lower case. */
  lemma {:induction false} WordsOfLower(s: string)
    requires IsLower(s)
    ensures AllLower(Words(s))
    decreases |s|
  {
    var t := TrimStart(s);
    if t != [] {
      var rest := t[|TakeWord(t)|..];
      TrimStartIsSuffix(s);
      assert IsLower(rest);
      WordsOfLower(rest);
      WordsOfLowerStep(s);
    }
  }

  lemma {:induction false} JoinOfLower(ws: seq<string>)
    requires AllLower(ws)
    ensures IsLower(JoinWords(ws))
  {
    if |ws| > 1 {
      JoinOfLower(ws[1..]);
    }
  }

  // -------------------------
  // Lines: `s.split("\n")`
  // -------------------------

  function SplitLines(s: string): (r: seq<string>)
    ensures |r| >= 1
    ensures forall i :: 0 <= i < |r| ==> '\n' !in r[i]
    decreases |s|
  {
    match IndexOf(s, '\n')
    case None => [s]
    case Some(i) => [s[..i]] + SplitLines(s[i + 1..])
  }

  function JoinLines(ls: seq<string>): string
    requires |ls| >= 1
  {
    if |ls| == 1 then ls[0] else ls[0] + "\n" + JoinLines(ls[1..])
  }

  /** Joining the split lines with newlines rebuilds the text. */
  lemma {:induction false} JoinSplitLines(s: string)
    ensures JoinLines(SplitLines(s)) == s
    decreases |s|
  {
    match IndexOf(s, '\n')
    case None =>
    case Some(i) =>
      var rest := SplitLines(s[i + 1..]);
      JoinSplitLines(s[i + 1..]);
      SplitLinesAt(s, i);
      JoinLinesCons(s[..i], rest);
      assert s == s[..i] + "\n" + s[i + 1..];
  }

  lemma JoinLinesCons(x: string, rest: seq<string>)
    requires |rest| >= 1
    ensures JoinLines([x] + rest) == x + "\n" + JoinLines(rest)
  {
    assert ([x] + rest)[1..] == rest;
  }

  lemma SplitLinesAt(s: string, i: nat)
    requires IndexOf(s, '\n') == Some(i)
    ensures SplitLines(s) == [s[..i]] + SplitLines(s[i + 1..])
  {
  }

  /** Splitting newline-free lines joined with newlines gives them back. */
  lemma {:induction false} SplitJoinLines(ls: seq<string>)
    requires |ls| >= 1
    requires forall i :: 0 <= i < |ls| ==> '\n' !in ls[i]
    ensures SplitLines(JoinLines(ls)) == ls
  {
    if |ls| > 1 {
      var j := JoinLines(ls[1..]);
      var s := ls[0] + "\n" + j;
      assert JoinLines(ls) == s;
      assert s[..|ls[0]|] == ls[0];
      assert s[|ls[0]| + 1..] == j;
      IndexOfIs(s, '\n', |ls[0]|);
      SplitLinesAt(s, |ls[0]|);
      SplitJoinLines(ls[1..]);
      assert [ls[0]] + ls[1..] == ls;
    } else {
      assert JoinLines(ls) == ls[0];
      assert IndexOf(ls[0], '\n') == None;
    }
  }

  // -------------------------
  // Decimal numerals
  // -------------------------

  predicate IsDigit(c: char) { '0' <= c <= '9' }

  predicate IsNumeral(s: string) {
    s != [] && forall i :: 0 <= i < |s| ==> IsDigit(s[i])
  }

  function DigitValue(c: char): nat
    requires IsDigit(c)
  {
    c as int - '0' as int
  }

  function DigitChar(d: nat): (c: char)
    requires d < 10
    ensures IsDigit(c) && DigitValue(c) == d
  {
    ('0' as int + d) as char
  }

  /** `int(s)` for a string of decimal digits. */
  function NumeralValue(s: string): nat
    requires IsNumeral(s)
    decreases |s|
  {
    if |s| == 1 then DigitValue(s[0])
    else NumeralValue(s[..|s| - 1]) * 10 + DigitValue(s[|s| - 1])
  }

  /** `str(n)`. */
  function NatToString(n: nat): (s: string)
    ensures IsNumeral(s)
  {
    if n < 10 then [DigitChar(n)] else NatToString(n / 10) + [DigitChar(n % 10)]
  }

  lemma {:induction false} NumeralOfNat(n: nat)
    ensures NumeralValue(NatToString(n)) == n
  {
    if n >= 10 {
      var s := NatToString(n);
      assert s[..|s| - 1] == NatToString(n / 10);
      NumeralOfNat(n / 10);
    }
  }
}
