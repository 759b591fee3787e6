/** The Python `str` built-ins that the pipeline relies on, over `seq<char>`
    (one `char` per code point, as Python's `len` counts):
    `strip()`, `replace(c, d)` for one-character arguments, `splitlines()`,
    and `str(n)` for a natural number. */
module Strings {

  /** `str.isspace()` for one code point: the characters `strip()` removes. */
  predicate IsSpace(c: char)
  {
    ('\U{9}' <= c <= '\U{D}') || ('\U{1C}' <= c <= ' ') || c == '\U{85}' || c == '\U{A0}'
    || c == '\U{1680}' || ('\U{2000}' <= c <= '\U{200A}') || c == '\U{2028}' || c == '\U{2029}'
    || c == '\U{202F}' || c == '\U{205F}' || c == '\U{3000}'
  }

  /** The line boundaries that `str.splitlines()` splits on ("\r\n" counts as one).
      Every one of them is whitespace, so `strip()` removes them at either end. */
  predicate IsLineBreak(c: char)
    ensures IsLineBreak(c) ==> IsSpace(c)
  {
    c == '\n' || c == '\r' || c == '\U{B}' || c == '\U{C}' || ('\U{1C}' <= c <= '\U{1E}')
    || c == '\U{85}' || c == '\U{2028}' || c == '\U{2029}'
  }

  predicate AllSpace(s: string)
  {
    forall k :: 0 <= k < |s| ==> IsSpace(s[k])
  }

  predicate NoLineBreak(s: string)
  {
    forall k :: 0 <= k < |s| ==> !IsLineBreak(s[k])
  }

  /** A string that `strip()` leaves as it is. */
  predicate IsStripped(s: string)
  {
    s == [] || (!IsSpace(s[0]) && !IsSpace(s[|s| - 1]))
  }

  // ------------------------------------------------------------------
  // strip()

  /** `lstrip()`: the longest suffix of `s` left after a run of whitespace. */
  function TrimStart(s: string): (r: string)
    ensures |r| <= |s| && r == s[|s| - |r|..]
    ensures AllSpace(s[..|s| - |r|])
    ensures r != [] ==> !IsSpace(r[0])
    decreases |s|
  {
    if s != [] && IsSpace(s[0]) then
      var r := TrimStart(s[1..]);
      var n := |s| - |r|;
      assert s[1..][n - 1..] == s[n..];
      assert AllSpace(s[..n]) by {
        forall k | 0 <= k < n ensures IsSpace(s[..n][k]) {
          if k > 0 {
            assert s[..n][k] == s[1..][..n - 1][k - 1];
          }
        }
      }
      r
    else s
  }

  /** `rstrip()`: the longest prefix of `s` followed only by whitespace. */
  function TrimEnd(s: string): (r: string)
    ensures |r| <= |s| && r == s[..|r|]
    ensures AllSpace(s[|r|..])
    ensures r != [] ==> !IsSpace(r[|r| - 1])
    decreases |s|
  {
    if s != [] && IsSpace(s[|s| - 1]) then
      var r := TrimEnd(s[..|s| - 1]);
      assert s[|r|..] == s[..|s| - 1][|r|..] + [s[|s| - 1]];
      r
    else s
  }

  /** `strip()`. */
  function Strip(s: string): (r: string)
    ensures IsStripped(r) && |r| <= |s|
    ensures r == [] <==> AllSpace(s)
  {
    var t := TrimStart(s);
    var r := TrimEnd(t);
    assert r == [] <==> AllSpace(s) by {
      TrimStartAllSpace(s);
      TrimEndEmpty(t);
    }
    assert r != [] ==> r[0] == t[0];
    r
  }

  /** What `lstrip()` leaves is all whitespace exactly when the text was. */
  lemma TrimStartAllSpace(s: string)
    ensures AllSpace(TrimStart(s)) <==> AllSpace(s)
  {
    var t := TrimStart(s);
    if t == [] {
      assert s[..|s|] == s;
    } else {
      assert t[0] == s[|s| - |t|];
    }
  }

  /** `rstrip()` gives "" exactly when the text is all whitespace. */
  lemma TrimEndEmpty(t: string)
    ensures TrimEnd(t) == [] <==> AllSpace(t)
  {
    var r := TrimEnd(t);
    if r == [] {
      assert t[|r|..] == t;
    } else {
      assert t[|r| - 1] == r[|r| - 1];
    }
  }

  lemma AbsentFromDrop<T>(s: seq<T>, i: nat, x: T)
    requires i <= |s| && x !in s
    ensures x !in s[i..]
  {
    assert forall k :: 0 <= k < |s| - i ==> s[i..][k] == s[i + k];
  }

  lemma AbsentFromTake<T>(s: seq<T>, i: nat, x: T)
    requires i <= |s| && x !in s
    ensures x !in s[..i]
  {
    assert forall k :: 0 <= k < i ==> s[..i][k] == s[k];
  }

  /** `splitlines()` only cuts, so no line holds a character the text does not. */
  lemma {:induction false} LinesAbsent(s: string, x: char)
    requires x !in s
    ensures forall k :: 0 <= k < |Lines(s)| ==> x !in Lines(s)[k]
    decreases |s|
  {
    if s != [] {
      var i := FirstBreak(s);
      if i < |s| {
        var rest := s[i + BreakWidth(s, i)..];
        AbsentFromTake(s, i, x);
        AbsentFromDrop(s, i + BreakWidth(s, i), x);
        LinesAbsent(rest, x);
        assert Lines(s) == [s[..i]] + Lines(rest);
      }
    }
  }

  /** Concatenating two single-line strings gives a single-line string. */
  lemma NoLineBreakAppend(a: string, b: string)
    requires NoLineBreak(a) && NoLineBreak(b)
    ensures NoLineBreak(a + b)
  {
    forall k | 0 <= k < |a + b| ensures !IsLineBreak((a + b)[k]) {
      if k < |a| { assert (a + b)[k] == a[k]; } else { assert (a + b)[k] == b[k - |a|]; }
    }
  }

  /** `strip()` only removes characters, so it adds none. */
  lemma StripAbsent(s: string, x: char)
    requires x !in s
    ensures x !in Strip(s)
  {
    var t := TrimStart(s);
    AbsentFromDrop(s, |s| - |t|, x);
    AbsentFromTake(t, |TrimEnd(t)|, x);
  }

  lemma {:induction false} TrimStartOfPadded(a: string, x: string)
    requires AllSpace(a) && (x == [] || !IsSpace(x[0]))
    ensures TrimStart(a + x) == x
    decreases |a|
  {
    if a == [] {
      assert a + x == x;
    } else {
      assert (a + x)[0] == a[0];
      assert (a + x)[1..] == a[1..] + x;
      TrimStartOfPadded(a[1..], x);
    }
  }

  lemma {:induction false} TrimEndOfPadded(x: string, b: string)
    requires AllSpace(b) && (x == [] || !IsSpace(x[|x| - 1]))
    ensures TrimEnd(x + b) == x
    decreases |b|
  {
    if b == [] {
      assert x + b == x;
    } else {
      assert (x + b)[|x + b| - 1] == b[|b| - 1];
      assert (x + b)[..|x + b| - 1] == x + b[..|b| - 1];
      TrimEndOfPadded(x, b[..|b| - 1]);
    }
  }

  /** `strip()` is determined by its result alone: whatever whitespace surrounds
      a stripped string, stripping gives that string back. */
  lemma StripOfPadded(a: string, t: string, b: string)
    requires AllSpace(a) && AllSpace(b) && IsStripped(t)
    ensures Strip(a + t + b) == t
  {
    if t == [] {
      assert a + t + b == a + b;
      assert AllSpace(a + b) by {
        forall k | 0 <= k < |a + b| ensures IsSpace((a + b)[k]) {
          if k < |a| { assert (a + b)[k] == a[k]; } else { assert (a + b)[k] == b[k - |a|]; }
        }
      }
    } else {
      assert a + t + b == a + (t + b);
      TrimStartOfPadded(a, t + b);
      TrimEndOfPadded(t, b);
    }
  }

  /** A stripped string is its own `strip()`. */
  lemma StripStripped(t: string)
    requires IsStripped(t)
    ensures Strip(t) == t
  {
    assert [] + t + [] == t;
    StripOfPadded([], t, []);
  }

  lemma StripIdempotent(s: string)
    ensures Strip(Strip(s)) == Strip(s)
  {
    StripStripped(Strip(s));
  }

  lemma StripUnchanged(s: string)
    ensures Strip(s) == s <==> IsStripped(s)
  {
    if IsStripped(s) {
      StripStripped(s);
    }
  }

  /** `strip()` is idempotent, and acts exactly on the strings it does not change. */
  lemma StripFixedPoints(s: string)
    ensures Strip(Strip(s)) == Strip(s)
    ensures Strip(s) == s <==> IsStripped(s)
  {
    StripIdempotent(s);
    StripUnchanged(s);
  }

  /** `rstrip()` only looks inside the last part when that part is not all whitespace. */
  lemma TrimEndAppend(x: string, y: string)
    requires TrimEnd(y) != []
    ensures TrimEnd(x + y) == x + TrimEnd(y)
  {
    var r := TrimEnd(y);
    assert y == r + y[|r|..];
    assert x + y == (x + r) + y[|r|..];
    TrimEndOfPadded(x + r, y[|r|..]);
  }

  // ------------------------------------------------------------------
  // replace(c, d) and replace(c, '') for a single character c

  /** `s.replace(c, d)` where `c` and `d` are one character each. */
  function ReplaceChar(s: string, c: char, d: char): (r: string)
    ensures |r| == |s|
    ensures forall k :: 0 <= k < |s| ==> r[k] == (if s[k] == c then d else s[k])
    decreases |s|
  {
    if s == [] then [] else [if s[0] == c then d else s[0]] + ReplaceChar(s[1..], c, d)
  }

  lemma ReplaceAbsent(s: string, c: char, d: char)
    requires c !in s
    ensures ReplaceChar(s, c, d) == s
  {
  }

  /** Replacing one character commutes with concatenation. */
  lemma {:induction false} ReplaceAppend(a: string, b: string, c: char, d: char)
    ensures ReplaceChar(a + b, c, d) == ReplaceChar(a, c, d) + ReplaceChar(b, c, d)
    decreases |a|
  {
    if a != [] {
      var h := [if a[0] == c then d else a[0]];
      assert (a + b)[0] == a[0];
      assert (a + b)[1..] == a[1..] + b;
      ReplaceAppend(a[1..], b, c, d);
      assert ReplaceChar(a + b, c, d) == h + ReplaceChar(a[1..] + b, c, d);
      assert ReplaceChar(a, c, d) == h + ReplaceChar(a[1..], c, d);
    } else {
      assert a + b == b;
    }
  }

  /** `s.replace(c, '')`: every occurrence of `c` deleted, everything else kept in order. */
  function DeleteChar(s: string, c: char): (r: string)
    ensures c !in r && |r| <= |s|
    decreases |s|
  {
    if s == [] then [] else (if s[0] == c then [] else [s[0]]) + DeleteChar(s[1..], c)
  }

  /** Deleting `c` removes every occurrence of `c` and keeps every other character
      as often as it occurs. */
  lemma {:induction false} DeleteCharCounts(s: string, c: char)
    ensures multiset(DeleteChar(s, c)) == multiset(s)[c := 0]
    decreases |s|
  {
    if s != [] {
      DeleteCharCounts(s[1..], c);
      assert s == [s[0]] + s[1..];
    }
  }

  /** Deleting one character commutes with concatenation, so the kept characters
      stay in their original order. */
  lemma {:induction false} DeleteCharAppend(a: string, b: string, c: char)
    ensures DeleteChar(a + b, c) == DeleteChar(a, c) + DeleteChar(b, c)
    decreases |a|
  {
    if a != [] {
      var h := if a[0] == c then [] else [a[0]];
      assert (a + b)[0] == a[0];
      assert (a + b)[1..] == a[1..] + b;
      DeleteCharAppend(a[1..], b, c);
      assert DeleteChar(a + b, c) == h + DeleteChar(a[1..] + b, c);
      assert DeleteChar(a, c) == h + DeleteChar(a[1..], c);
    } else {
      assert a + b == b;
    }
  }

  lemma {:induction false} DeleteAbsent(s: string, c: char)
    requires c !in s
    ensures DeleteChar(s, c) == s
    decreases |s|
  {
    if s != [] {
      DeleteAbsent(s[1..], c);
    }
  }

  // ------------------------------------------------------------------
  // splitlines()

  /** The index of the first line boundary in `s`, or `|s|` when there is none. */
  function FirstBreak(s: string): (i: nat)
    ensures i <= |s| && NoLineBreak(s[..i])
    ensures i < |s| ==> IsLineBreak(s[i])
    decreases |s|
  {
    if s == [] || IsLineBreak(s[0]) then 0
    else
      var j := FirstBreak(s[1..]);
      assert s[..j + 1] == [s[0]] + s[1..][..j];
      1 + j
  }

  /** How many characters the boundary at `i` takes: "\r\n" is one boundary. */
  function BreakWidth(s: string, i: nat): (w: nat)
    requires i < |s|
    ensures 1 <= w && i + w <= |s|
  {
    if s[i] == '\r' && i + 1 < |s| && s[i + 1] == '\n' then 2 else 1
  }

  /** `s.splitlines()`: the lines of `s` without their boundaries; a boundary at the
      very end does not start an empty last line. */
  function Lines(s: string): (r: seq<string>)
    ensures forall k :: 0 <= k < |r| ==> NoLineBreak(r[k])
    ensures |r| <= |s|
    decreases |s|
  {
    if s == [] then []
    else
      var i := FirstBreak(s);
      if i == |s| then [s]
      else [s[..i]] + Lines(s[i + BreakWidth(s, i)..])
  }

  /** Lines glued with "\n" and no boundary after the last: the inverse of `Lines`. */
  function JoinLines(ls: seq<string>): string
    decreases |ls|
  {
    if |ls| == 0 then []
    else if |ls| == 1 then ls[0]
    else ls[0] + "\n" + JoinLines(ls[1..])
  }

  /** Lines each ended by "\n", as the prompt listing lays them out. */
  function Terminated(ls: seq<string>): string
    decreases |ls|
  {
    if ls == [] then [] else ls[0] + "\n" + Terminated(ls[1..])
  }

  lemma {:induction false} FirstBreakAt(a: string, rest: string)
    requires NoLineBreak(a)
    ensures FirstBreak(a + "\n" + rest) == |a|
    ensures BreakWidth(a + "\n" + rest, |a|) == 1
    ensures (a + "\n" + rest)[..|a|] == a && (a + "\n" + rest)[|a| + 1..] == rest
    decreases |a|
  {
    var s := a + "\n" + rest;
    if a != [] {
      assert s[0] == a[0];
      assert s[1..] == a[1..] + "\n" + rest;
      FirstBreakAt(a[1..], rest);
    }
  }

  lemma FirstBreakNone(a: string)
    requires NoLineBreak(a)
    ensures FirstBreak(a) == |a|
  {
  }

  /** Splitting lines that were joined with "\n" gives them back, provided no line holds
      a boundary and the last is not empty (an empty last line leaves no trace). */
  lemma {:induction false} LinesOfJoin(ls: seq<string>)
    requires forall k :: 0 <= k < |ls| ==> NoLineBreak(ls[k])
    requires |ls| > 0 ==> ls[|ls| - 1] != []
    ensures Lines(JoinLines(ls)) == ls
    decreases |ls|
  {
    if |ls| == 1 {
      FirstBreakNone(ls[0]);
    } else if |ls| > 1 {
      FirstBreakAt(ls[0], JoinLines(ls[1..]));
      LinesOfJoin(ls[1..]);
      assert ls == [ls[0]] + ls[1..];
    }
  }

  /** Splitting "\n"-terminated lines gives them back, empty lines included. */
  lemma {:induction false} LinesOfTerminated(ls: seq<string>)
    requires forall k :: 0 <= k < |ls| ==> NoLineBreak(ls[k])
    ensures Lines(Terminated(ls)) == ls
    decreases |ls|
  {
    if ls != [] {
      FirstBreakAt(ls[0], Terminated(ls[1..]));
      LinesOfTerminated(ls[1..]);
      assert ls == [ls[0]] + ls[1..];
    }
  }

  lemma {:induction false} JoinLinesNonEmpty(ls: seq<string>)
    requires |ls| > 0 && ls[|ls| - 1] != []
    ensures JoinLines(ls) != []
    decreases |ls|
  {
    if |ls| > 1 {
      JoinLinesNonEmpty(ls[1..]);
    }
  }

  lemma JoinLinesHead(ls: seq<string>)
    requires |ls| > 0 && ls[0] != []
    ensures |JoinLines(ls)| > 0 && JoinLines(ls)[0] == ls[0][0]
  {
    if |ls| > 1 {
      assert JoinLines(ls) == ls[0] + ("\n" + JoinLines(ls[1..]));
    }
  }

  /** Joined lines end with the last character of the last line. */
  lemma {:induction false} JoinLinesLast(ls: seq<string>)
    requires |ls| > 0 && ls[|ls| - 1] != []
    ensures var j := JoinLines(ls); var l := ls[|ls| - 1];
      |j| > 0 && j[|j| - 1] == l[|l| - 1]
    decreases |ls|
  {
    if |ls| > 1 {
      JoinLinesLast(ls[1..]);
      assert JoinLines(ls) == ls[0] + "\n" + JoinLines(ls[1..]);
    }
  }

  /** The lines with the trailing whitespace of the last one removed. */
  function TrimLast(ls: seq<string>): (r: seq<string>)
    requires |ls| > 0
    ensures |r| == |ls|
  {
    ls[|ls| - 1 := TrimEnd(ls[|ls| - 1])]
  }

  /** `rstrip()` of joined lines only touches the last line, when that line is not all
      whitespace. */
  lemma {:induction false} TrimEndOfJoin(ls: seq<string>)
    requires |ls| > 0 && TrimEnd(ls[|ls| - 1]) != []
    ensures TrimEnd(JoinLines(ls)) == JoinLines(TrimLast(ls))
    decreases |ls|
  {
    var n := |ls|;
    var ls' := TrimLast(ls);
    if n > 1 {
      TrimEndOfJoin(ls[1..]);
      assert TrimLast(ls[1..]) == ls'[1..];
      JoinLinesNonEmpty(ls'[1..]);
      TrimEndAppend(ls[0] + "\n", JoinLines(ls[1..]));
    }
  }

  // ------------------------------------------------------------------
  // str(n) for a natural number

  /** The decimal digit character for `d`. */
  function DigitChar(d: nat): (c: char)
    requires d < 10
    ensures '0' <= c <= '9' && c as int - '0' as int == d
  {
    ('0' as int + d) as char
  }

  function DigitValue(c: char): nat
    requires '0' <= c <= '9'
  {
    (c as int - '0' as int) as nat
  }

  predicate IsDigits(s: string)
  {
    forall k :: 0 <= k < |s| ==> '0' <= s[k] <= '9'
  }

  /** The number a string of decimal digits denotes. */
  function DigitsValue(s: string): nat
    requires IsDigits(s)
    decreases |s|
  {
    if s == [] then 0 else 10 * DigitsValue(s[..|s| - 1]) + DigitValue(s[|s| - 1])
  }

  /** `str(n)`: the decimal digits of `n`, with no leading zero. */
  function NatToString(n: nat): (s: string)
    ensures s != [] && IsDigits(s)
    ensures s[0] == '0' ==> n == 0
    decreases n
  {
    if n < 10 then [DigitChar(n)] else NatToString(n / 10) + [DigitChar(n % 10)]
  }

  /** Reading back the digits of `str(n)` gives `n`. */
  lemma {:induction false} NatToStringValue(n: nat)
    ensures DigitsValue(NatToString(n)) == n
    decreases n
  {
    var s := NatToString(n);
    if n < 10 {
      assert DigitValue(DigitChar(n)) == n;
    } else {
      NatToStringValue(n / 10);
      assert s[..|s| - 1] == NatToString(n / 10);
      assert DigitValue(DigitChar(n % 10)) == n % 10;
    }
  }

  lemma DigitsNoBreak(s: string)
    requires IsDigits(s)
    ensures NoLineBreak(s) && forall k :: 0 <= k < |s| ==> !IsSpace(s[k])
  {
  }
}
