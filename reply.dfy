/** The reply side of one attempt (main.py:78, 82): which lines of the service's
    answer are taken as translations, and what is taken from each. The format the
    prompt asks for is one line `III >>> text` per unit, `III` the unit's 1-based
    number on three digits (main.py:57-60, 67-68). */
module Reply {
  import opened Strings
  import opened Comprehension

  /** How many leading characters of a marked line are dropped (main.py:82): the
      three-digit number, a space, the marker `>>>` and a space. */
  const PrefixWidth: nat := 8

  /** The marker `>>>` that every translated line must contain (main.py:82) starts
      at position `i` of `line`. */
  predicate MarkerAt(line: string, i: int)
  {
    0 <= i && i + 3 <= |line| && line[i] == '>' && line[i + 1] == '>' && line[i + 2] == '>'
  }

  /** `">>>" in line` (main.py:82), as a left-to-right search. */
  predicate HasMarker(line: string)
    decreases |line|
  {
    |line| >= 3 && (MarkerAt(line, 0) || HasMarker(line[1..]))
  }

  /** The search finds the marker exactly when it occurs at some position. */
  lemma {:induction false} HasMarkerIff(line: string)
    ensures HasMarker(line) <==> exists i | 0 <= i <= |line| :: MarkerAt(line, i)
    decreases |line|
  {
    if |line| >= 3 {
      HasMarkerIff(line[1..]);
      if HasMarker(line[1..]) {
        var i :| 0 <= i <= |line[1..]| && MarkerAt(line[1..], i);
        assert MarkerAt(line, i + 1);
      }
      if exists i | 0 <= i <= |line| :: MarkerAt(line, i) {
        var i :| 0 <= i <= |line| && MarkerAt(line, i);
        if i > 0 {
          assert MarkerAt(line[1..], i - 1);
        }
      }
    }
  }

  /** `line[8:].strip()`: Python's slice gives "" for a line of 8 characters or fewer. */
  function Payload(line: string): (r: string)
    ensures IsStripped(r)
    ensures |line| <= PrefixWidth ==> r == []
  {
    Strip(if |line| <= PrefixWidth then [] else line[PrefixWidth..])
  }

  /** What one raw reply yields: it is stripped, split into lines, and the payload of
      every marked line is kept in reply order (main.py:78, 82). */
  function Parse(raw: string): (r: seq<string>)
    ensures |r| <= |Lines(Strip(raw))|
  {
    Keep(Lines(Strip(raw)), HasMarker, Payload)
  }

  /** The parser yields one entry per marked line of the stripped reply and nothing for
      the other lines: the marked lines are taken at increasing positions, none is
      missed, and entry k is the payload of the k-th marked line. */
  lemma ParseSelects(raw: string)
    ensures var ls := Lines(Strip(raw)); var pos := Positions(ls, HasMarker);
      && |Parse(raw)| == |pos| && Increasing(pos)
      && (forall k :: 0 <= k < |pos| ==> HasMarker(ls[pos[k]]) && Parse(raw)[k] == Payload(ls[pos[k]]))
      && (forall j :: 0 <= j < |ls| && HasMarker(ls[j]) ==> j in pos)
  {
    var ls := Lines(Strip(raw));
    KeepSelects(ls, HasMarker, Payload);
    PositionsIncreasing(ls, HasMarker);
    forall j | 0 <= j < |ls| && HasMarker(ls[j]) ensures j in Positions(ls, HasMarker) {
      PositionsComplete(ls, HasMarker, j);
    }
  }

  /** A line with no `>` in it is not marked. */
  lemma NoMarkerWithout(line: string)
    requires '>' !in line
    ensures !HasMarker(line)
  {
    HasMarkerIff(line);
    forall i | 0 <= i <= |line| ensures !MarkerAt(line, i) {
      if i < |line| {
        assert line[i] in line;
      }
    }
  }

  /** A reply with no `>` in it, say an apology over any number of lines, yields no
      translation. */
  lemma UnmarkedReply(raw: string)
    requires '>' !in raw
    ensures Parse(raw) == []
  {
    var ls := Lines(Strip(raw));
    StripAbsent(raw, '>');
    LinesAbsent(Strip(raw), '>');
    ParseSelects(raw);
    if Parse(raw) != [] {
      var pos := Positions(ls, HasMarker);
      NoMarkerWithout(ls[pos[0]]);
    }
  }

  // ------------------------------------------------------------------
  // The wire format the prompt asks for, and the parser as its inverse

  /** `f"{n:03d}"` for n below 1000. */
  function Pad3(n: nat): (s: string)
    requires n < 1000
    ensures |s| == 3 && IsDigits(s)
  {
    [DigitChar(n / 100), DigitChar(n / 10 % 10), DigitChar(n % 10)]
  }

  /** The three digits read back as the number they pad. */
  lemma Pad3Value(n: nat)
    requires n < 1000
    ensures DigitsValue(Pad3(n)) == n
  {
    var s := Pad3(n);
    var a, b, c := s[0], s[1], s[2];
    assert DigitValue(a) == n / 100 && DigitValue(b) == n / 10 % 10 && DigitValue(c) == n % 10;
    assert s[..2] == [a, b] && [a, b][..1] == [a] && [a][..0] == [];
    assert DigitsValue([a]) == n / 100;
    assert DigitsValue([a, b]) == 10 * (n / 100) + n / 10 % 10 == n / 10;
    assert DigitsValue(s) == 10 * (n / 10) + n % 10 == n;
  }

  /** The first `PrefixWidth` characters of a well-formed line: they hold the marker,
      no line boundary, and end in a space after a non-space. */
  predicate WirePrefix(p: string)
  {
    |p| == PrefixWidth && MarkerAt(p, 4) && NoLineBreak(p)
    && !IsSpace(p[0]) && !IsSpace(p[6]) && IsSpace(p[7])
  }

  /** `f"{idx:03d} >>> "`, the part of line `idx` before its text. */
  function LinePrefix(idx: nat): (p: string)
    requires idx < 1000
    ensures |p| == PrefixWidth
  {
    Pad3(idx) + " >>> "
  }

  lemma LinePrefixWire(idx: nat)
    requires idx < 1000
    ensures WirePrefix(LinePrefix(idx))
  {
    var d := Pad3(idx);
    var p := LinePrefix(idx);
    DigitsNoBreak(d);
    assert p[0] == d[0];
    forall k | 0 <= k < |p| ensures !IsLineBreak(p[k]) {
      if k < 3 { assert p[k] == d[k]; } else { assert p[k] == " >>> "[k - 3]; }
    }
  }

  /** Line `idx` of a well-formed reply. */
  function WireLine(idx: nat, text: string): string
    requires idx < 1000
  {
    LinePrefix(idx) + text
  }

  /** The reply the prompt asks for: one numbered, marked line per unit. */
  function WireLines(ts: seq<string>): (ls: seq<string>)
    requires |ts| < 1000
    ensures |ls| == |ts|
  {
    seq(|ts|, k requires 0 <= k < |ts| => WireLine(k + 1, ts[k]))
  }

  /** The reply the prompt asks for: the lines of `WireLines`, one per unit, joined.
      It is empty exactly when there is nothing to answer. */
  function FormatReply(ts: seq<string>): (r: string)
    requires |ts| < 1000
    ensures r == [] <==> ts == []
  {
    var ls := WireLines(ts);
    if ts != [] then
      assert |ls[0]| >= PrefixWidth;
      JoinLinesHead(ls);
      JoinLines(ls)
    else JoinLines(ls)
  }

  /** A marker inside a prefix is found in every extension of it. */
  lemma MarkerExtends(p: string, x: string, i: nat)
    requires MarkerAt(p, i)
    ensures HasMarker(p + x)
  {
    assert MarkerAt(p + x, i) by {
      assert (p + x)[i] == p[i] && (p + x)[i + 1] == p[i + 1] && (p + x)[i + 2] == p[i + 2];
    }
    HasMarkerIff(p + x);
  }

  /** The payload of a line is the stripped text after its prefix. */
  lemma PayloadAfter(p: string, x: string)
    requires |p| == PrefixWidth
    ensures Payload(p + x) == Strip(x)
  {
    if x == [] {
      assert p + x == p;
    } else {
      assert (p + x)[PrefixWidth..] == x;
    }
  }

  /** What the parser makes of one well-formed line. */
  lemma PrefixedLineParses(p: string, text: string)
    requires WirePrefix(p) && IsStripped(text) && NoLineBreak(text)
    ensures NoLineBreak(p + text) && HasMarker(p + text) && Payload(p + text) == text
    ensures !IsSpace((p + text)[0])
  {
    NoLineBreakAppend(p, text);
    MarkerExtends(p, text, 4);
    PayloadAfter(p, text);
    StripFixedPoints(text);
    assert (p + text)[0] == p[0];
  }

  /** What the parser makes of a well-formed line that ends the reply, once the whole
      reply has been stripped (which can only shorten that line). */
  lemma TrimmedLineParses(p: string, text: string)
    requires WirePrefix(p) && IsStripped(text) && NoLineBreak(text)
    ensures TrimEnd(p + text) != [] && NoLineBreak(TrimEnd(p + text))
    ensures HasMarker(TrimEnd(p + text)) && Payload(TrimEnd(p + text)) == text
  {
    if text == [] {
      var h := p[..7];
      assert p + text == h + [p[7]];
      TrimEndOfPadded(h, [p[7]]);
      assert NoLineBreak(h) by {
        forall k | 0 <= k < |h| ensures !IsLineBreak(h[k]) { assert h[k] == p[k]; }
      }
      MarkerExtends(h, [], 4);
      assert h + [] == h;
    } else {
      var line := p + text;
      assert line == line + [];
      TrimEndOfPadded(line, []);
      PrefixedLineParses(p, text);
    }
  }

  /** What the parser makes of line `idx` of a well-formed reply. */
  lemma WireLineParses(idx: nat, text: string)
    requires 1 <= idx < 1000 && IsStripped(text) && NoLineBreak(text)
    ensures var line := WireLine(idx, text);
      NoLineBreak(line) && HasMarker(line) && Payload(line) == text && !IsSpace(line[0])
  {
    LinePrefixWire(idx);
    PrefixedLineParses(LinePrefix(idx), text);
  }

  /** What the parser makes of line `idx` once it lost its trailing whitespace. */
  lemma TrimmedWireLineParses(idx: nat, text: string)
    requires 1 <= idx < 1000 && IsStripped(text) && NoLineBreak(text)
    ensures var line := TrimEnd(WireLine(idx, text));
      line != [] && NoLineBreak(line) && HasMarker(line) && Payload(line) == text
  {
    LinePrefixWire(idx);
    TrimmedLineParses(LinePrefix(idx), text);
  }

  /** The wire lines with the trailing whitespace of the last removed, as `strip()`
      leaves them. */
  function TrimmedWireLines(ts: seq<string>): (ls: seq<string>)
    requires 0 < |ts| < 1000
    ensures |ls| == |ts|
  {
    TrimLast(WireLines(ts))
  }

  lemma WireLinesAt(ts: seq<string>, k: nat)
    requires k < |ts| < 1000
    ensures WireLines(ts)[k] == WireLine(k + 1, ts[k])
  {
  }

  lemma LastTrimmedWireLine(ts: seq<string>)
    requires 0 < |ts| < 1000
    ensures TrimmedWireLines(ts)[|ts| - 1] == TrimEnd(WireLine(|ts|, ts[|ts| - 1]))
  {
    WireLinesAt(ts, |ts| - 1);
  }

  lemma InnerTrimmedWireLine(ts: seq<string>, k: nat)
    requires k < |ts| - 1 && |ts| < 1000
    ensures TrimmedWireLines(ts)[k] == WireLine(k + 1, ts[k])
  {
    WireLinesAt(ts, k);
  }

  lemma LastTrimmedWireLineParses(ts: seq<string>)
    requires 0 < |ts| < 1000 && IsStripped(ts[|ts| - 1]) && NoLineBreak(ts[|ts| - 1])
    ensures var l := TrimmedWireLines(ts)[|ts| - 1];
      l != [] && NoLineBreak(l) && HasMarker(l) && Payload(l) == ts[|ts| - 1]
  {
    var k := |ts| - 1;
    LastTrimmedWireLine(ts);
    TrimmedWireLineParses(k + 1, ts[k]);
  }

  lemma InnerTrimmedWireLineParses(ts: seq<string>, k: nat)
    requires k < |ts| - 1 && |ts| < 1000 && IsStripped(ts[k]) && NoLineBreak(ts[k])
    ensures var l := TrimmedWireLines(ts)[k];
      l != [] && NoLineBreak(l) && HasMarker(l) && Payload(l) == ts[k]
  {
    InnerTrimmedWireLine(ts, k);
    WireLineParses(k + 1, ts[k]);
  }

  lemma TrimmedWireLinesParse(ts: seq<string>, k: nat)
    requires k < |ts| < 1000 && IsStripped(ts[k]) && NoLineBreak(ts[k])
    ensures var l := TrimmedWireLines(ts)[k];
      l != [] && NoLineBreak(l) && HasMarker(l) && Payload(l) == ts[k]
  {
    if k == |ts| - 1 {
      LastTrimmedWireLineParses(ts);
    } else {
      InnerTrimmedWireLineParses(ts, k);
    }
  }

  /** A well-formed reply starts with the digit of its first line. */
  lemma StripOfReplyHead(ts: seq<string>)
    requires 0 < |ts| < 1000 && IsStripped(ts[0]) && NoLineBreak(ts[0])
    ensures FormatReply(ts) != [] && !IsSpace(FormatReply(ts)[0])
  {
    WireLineParses(1, ts[0]);
    WireLinesAt(ts, 0);
    JoinLinesHead(WireLines(ts));
  }

  /** A well-formed reply starts with a digit, so `strip()` only trims its end. */
  lemma StripOfReply(ts: seq<string>)
    requires 0 < |ts| < 1000 && IsStripped(ts[0]) && NoLineBreak(ts[0])
    ensures Strip(FormatReply(ts)) == TrimEnd(FormatReply(ts))
  {
    var raw := FormatReply(ts);
    StripOfReplyHead(ts);
    TrimStartOfPadded([], raw);
    assert [] + raw == raw;
  }

  lemma LastWireLineNotBlank(ts: seq<string>)
    requires 0 < |ts| < 1000 && IsStripped(ts[|ts| - 1]) && NoLineBreak(ts[|ts| - 1])
    ensures TrimEnd(WireLines(ts)[|ts| - 1]) != []
  {
    LastTrimmedWireLineParses(ts);
  }

  lemma TrimEndOfReply(ts: seq<string>)
    requires 0 < |ts| < 1000 && IsStripped(ts[|ts| - 1]) && NoLineBreak(ts[|ts| - 1])
    ensures TrimEnd(FormatReply(ts)) == JoinLines(TrimmedWireLines(ts))
  {
    LastWireLineNotBlank(ts);
    TrimEndOfJoin(WireLines(ts));
  }

  /** The lines of a stripped well-formed reply: the wire lines, the last one with its
      trailing whitespace removed. */
  lemma LinesOfStrippedReply(ts: seq<string>)
    requires 0 < |ts| < 1000
    requires forall k :: 0 <= k < |ts| ==> IsStripped(ts[k]) && NoLineBreak(ts[k])
    ensures Lines(Strip(FormatReply(ts))) == TrimmedWireLines(ts)
  {
    var w' := TrimmedWireLines(ts);
    assert Strip(FormatReply(ts)) == JoinLines(w') by {
      StripOfReply(ts);
      TrimEndOfReply(ts);
    }
    assert forall k :: 0 <= k < |w'| ==> NoLineBreak(w'[k]) by {
      forall k | 0 <= k < |w'| ensures NoLineBreak(w'[k]) {
        TrimmedWireLinesParse(ts, k);
      }
    }
    assert w'[|w'| - 1] != [] by {
      TrimmedWireLinesParse(ts, |ts| - 1);
    }
    LinesOfJoin(w');
  }

  /** The parser sees the trimmed wire lines of a well-formed reply. */
  lemma ParseOfReply(ts: seq<string>)
    requires 0 < |ts| < 1000
    requires forall k :: 0 <= k < |ts| ==> IsStripped(ts[k]) && NoLineBreak(ts[k])
    ensures Parse(FormatReply(ts)) == Keep(TrimmedWireLines(ts), HasMarker, Payload)
  {
    LinesOfStrippedReply(ts);
  }

  /** Every trimmed wire line is marked and carries its translation. */
  lemma TrimmedWireLinesMarked(ts: seq<string>)
    requires 0 < |ts| < 1000
    requires forall k :: 0 <= k < |ts| ==> IsStripped(ts[k]) && NoLineBreak(ts[k])
    ensures forall k :: 0 <= k < |ts| ==>
      HasMarker(TrimmedWireLines(ts)[k]) && Payload(TrimmedWireLines(ts)[k]) == ts[k]
  {
    forall k | 0 <= k < |ts|
      ensures HasMarker(TrimmedWireLines(ts)[k]) && Payload(TrimmedWireLines(ts)[k]) == ts[k]
    {
      TrimmedWireLinesParse(ts, k);
    }
  }

  /** The comprehension over the trimmed wire lines gives back the translations. */
  lemma KeepTrimmedWireLines(ts: seq<string>)
    requires 0 < |ts| < 1000
    requires forall k :: 0 <= k < |ts| ==> IsStripped(ts[k]) && NoLineBreak(ts[k])
    ensures Keep(TrimmedWireLines(ts), HasMarker, Payload) == ts
  {
    TrimmedWireLinesMarked(ts);
    KeepEquals(TrimmedWireLines(ts), HasMarker, Payload, ts);
  }

  /** The parser inverts the wire format: a reply laid out exactly as the prompt asks,
      for fewer than 1000 single-line, stripped translations, yields those translations. */
  lemma ParseFormatReply(ts: seq<string>)
    requires |ts| < 1000
    requires forall k :: 0 <= k < |ts| ==> IsStripped(ts[k]) && NoLineBreak(ts[k])
    ensures Parse(FormatReply(ts)) == ts
  {
    if |ts| == 0 {
      assert FormatReply(ts) == [];
    } else {
      ParseOfReply(ts);
      KeepTrimmedWireLines(ts);
    }
  }
}
