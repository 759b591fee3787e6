/** A concrete service for the split: it refuses every prompt whose listing shows a
    blank fragment and answers every other prompt with one well-formed line per unit.
    Against it the engine's bisection narrows down to the blank fragments, which keep
    their original text, while every other fragment is translated (main.py:42-115). */
module BlankService {
  import opened Wrappers
  import opened Strings
  import opened Comprehension
  import Normalise
  import opened Reply
  import opened Engine
  import opened Planner

  // ------------------------------------------------------------------
  // What the service can see of a blank fragment in the listing

  /** Somewhere in `s` a space stands right before a "\n". */
  predicate SpaceBeforeNewline(s: string)
    decreases |s|
  {
    |s| >= 2 && ((s[0] == ' ' && s[1] == '\n') || SpaceBeforeNewline(s[1..]))
  }

  predicate EndsInSpace(s: string)
  {
    s != [] && s[|s| - 1] == ' '
  }

  /** Appending to a text free of "\n": the new space-newline pairs are the ones of the
      suffix and, possibly, one at the seam. */
  lemma {:induction false} SpaceBeforeNewlineAppend(a: string, b: string)
    requires '\n' !in a
    ensures SpaceBeforeNewline(a + b) <==> (EndsInSpace(a) && b != [] && b[0] == '\n') || SpaceBeforeNewline(b)
    decreases |a|
  {
    if a == [] {
      assert a + b == b;
    } else {
      assert (a + b)[1..] == a[1..] + b;
      AbsentFromDrop(a, 1, '\n');
      SpaceBeforeNewlineAppend(a[1..], b);
      if |a| == 1 {
        assert a[1..] + b == b;
      } else {
        assert (a + b)[1] == a[1];
      }
    }
  }

  /** In lines each ended by "\n" and holding no other "\n", a space stands before a
      "\n" exactly when some line ends in a space. */
  lemma {:induction false} SpaceBeforeTerminator(ls: seq<string>)
    requires forall k :: 0 <= k < |ls| ==> '\n' !in ls[k]
    ensures SpaceBeforeNewline(Terminated(ls)) <==> exists k :: 0 <= k < |ls| && EndsInSpace(ls[k])
    decreases |ls|
  {
    if ls != [] {
      var rest := Terminated(ls[1..]);
      assert Terminated(ls) == ls[0] + ("\n" + rest);
      SpaceBeforeNewlineAppend(ls[0], "\n" + rest);
      assert ("\n" + rest)[1..] == rest;
      SpaceBeforeTerminator(ls[1..]);
      if exists k :: 0 <= k < |ls[1..]| && EndsInSpace(ls[1..][k]) {
        var k :| 0 <= k < |ls[1..]| && EndsInSpace(ls[1..][k]);
        assert EndsInSpace(ls[k + 1]);
      }
      if exists k :: 0 <= k < |ls| && EndsInSpace(ls[k]) {
        var k :| 0 <= k < |ls| && EndsInSpace(ls[k]);
        if k > 0 {
          assert EndsInSpace(ls[1..][k - 1]);
        }
      }
    }
  }

  /** A line of the listing holds no "\n", and it ends in a space exactly when its
      unit, stripped, is blank. */
  lemma ListingLineEnd(idx: nat, t: string)
    requires IsStripped(t) && '\n' !in t
    ensures '\n' !in Normalise.ListingLine(idx, t)
    ensures EndsInSpace(Normalise.ListingLine(idx, t)) <==> t == []
  {
    var d := NatToString(idx);
    DigitsNoBreak(d);
    var l := Normalise.ListingLine(idx, t);
    assert l == d + ". " + t;
    forall i | 0 <= i < |l| ensures l[i] != '\n' {
      if i < |d| {
        assert l[i] == d[i] && !IsLineBreak(d[i]);
      } else if i >= |d| + 2 {
        assert l[i] == t[i - |d| - 2];
      }
    }
    if t != [] {
      assert l[|l| - 1] == t[|t| - 1];
    }
  }

  /** A normalised fragment is stripped and holds no "\n". */
  lemma NormalUnit(x: string)
    ensures var t := Normalise.Normalise(x); IsStripped(t) && '\n' !in t
  {
    Normalise.NormaliseShape(x);
    Normalise.NormaliseForm(x);
  }

  /** Line k of the listing of a cleaned chunk holds no "\n", and it ends in a space
      exactly when unit k is empty. */
  lemma ListingLinesEnd(cl: seq<string>, k: nat)
    requires k < |cl| && IsStripped(cl[k]) && '\n' !in cl[k]
    ensures var l := Normalise.ListingLines(cl)[k];
      '\n' !in l && (EndsInSpace(l) <==> cl[k] == [])
  {
    assert Normalise.ListingLines(cl)[k] == Normalise.ListingLine(k + 1, cl[k]);
    ListingLineEnd(k + 1, cl[k]);
  }

  /** Line k of the listing of a chunk holds no "\n", and it ends in a space exactly
      when fragment k normalises to the empty text. */
  lemma CleanedLineEnd(chunk: seq<string>, k: nat)
    requires k < |chunk|
    ensures var l := Normalise.ListingLines(Normalise.Cleaned(chunk))[k];
      '\n' !in l && (EndsInSpace(l) <==> Normalise.Normalise(chunk[k]) == [])
  {
    Normalise.CleanedAt(chunk, k);
    NormalUnit(chunk[k]);
    ListingLinesEnd(Normalise.Cleaned(chunk), k);
  }

  /** The listing of a chunk has a space before a "\n" exactly when one of its
      fragments normalises to the empty text. */
  lemma ListingShowsBlank(chunk: seq<string>)
    ensures SpaceBeforeNewline(Normalise.Listing(Normalise.Cleaned(chunk)))
        <==> exists k :: 0 <= k < |chunk| && Normalise.Normalise(chunk[k]) == []
  {
    var ls := Normalise.ListingLines(Normalise.Cleaned(chunk));
    forall k | 0 <= k < |ls| ensures '\n' !in ls[k] {
      CleanedLineEnd(chunk, k);
    }
    SpaceBeforeTerminator(ls);
    if exists k :: 0 <= k < |ls| && EndsInSpace(ls[k]) {
      var k :| 0 <= k < |ls| && EndsInSpace(ls[k]);
      CleanedLineEnd(chunk, k);
    }
    if exists k :: 0 <= k < |chunk| && Normalise.Normalise(chunk[k]) == [] {
      var k :| 0 <= k < |chunk| && Normalise.Normalise(chunk[k]) == [];
      CleanedLineEnd(chunk, k);
    }
  }

  // ------------------------------------------------------------------
  // The service

  /** The text this service gives for every unit it answers. */
  const Answer: string := "X"

  /** The translation this service performs: every unit becomes `Answer`. */
  function AnswerOf(t: string): string
  {
    Answer
  }

  /** One well-formed reply line; the parser ignores its number. */
  const AnswerLine: string := WireLine(0, Answer)

  /** The reply for `n` units: `n` copies of the answer line. */
  function AnswerReply(n: nat): string
  {
    JoinLines(seq(n, _ => AnswerLine))
  }

  /** The answer line is one stripped, marked line carrying `Answer`. */
  lemma AnswerLineParses()
    ensures AnswerLine != [] && IsStripped(AnswerLine) && NoLineBreak(AnswerLine)
    ensures HasMarker(AnswerLine) && Payload(AnswerLine) == Answer
  {
    LinePrefixWire(0);
    PrefixedLineParses(LinePrefix(0), Answer);
    assert AnswerLine[|AnswerLine| - 1] == 'X';
  }

  /** `n` copies of one stripped line split back into those `n` lines. */
  lemma RepeatedLines(line: string, n: nat)
    requires line != [] && IsStripped(line) && NoLineBreak(line)
    ensures Lines(Strip(JoinLines(seq(n, _ => line)))) == seq(n, _ => line)
  {
    var ls := seq(n, _ => line);
    if n > 0 {
      JoinLinesHead(ls);
      JoinLinesLast(ls);
      StripStripped(JoinLines(ls));
      LinesOfJoin(ls);
    }
  }

  /** `n` copies of one marked line carrying `text` parse into `n` copies of `text`. */
  lemma ParseRepeated(line: string, text: string, n: nat)
    requires line != [] && IsStripped(line) && NoLineBreak(line)
    requires HasMarker(line) && Payload(line) == text
    ensures Parse(JoinLines(seq(n, _ => line))) == seq(n, _ => text)
  {
    var ls := seq(n, _ => line);
    var ts := seq(n, _ => text);
    var raw := JoinLines(ls);
    assert Lines(Strip(raw)) == ls by {
      RepeatedLines(line, n);
    }
    assert Keep(ls, HasMarker, Payload) == ts by {
      forall k | 0 <= k < n ensures HasMarker(ls[k]) && Payload(ls[k]) == ts[k] {
        assert ls[k] == line && ts[k] == text;
      }
      KeepEquals(ls, HasMarker, Payload, ts);
    }
  }

  /** The reply for `n` units parses into `n` answers. */
  lemma ParseAnswerReply(n: nat)
    ensures Parse(AnswerReply(n)) == seq(n, _ => Answer)
  {
    AnswerLineParses();
    ParseRepeated(AnswerLine, Answer, n);
  }

  /** The service: a prompt whose listing shows a blank unit makes it raise; any other
      prompt gets one answer line per announced unit. */
  function BlankRefusing(c: nat, p: Prompt): Option<string>
  {
    if SpaceBeforeNewline(p.listing) then None else Some(AnswerReply(p.count))
  }

  /** The answers for a chunk are the chunk mapped by `AnswerOf`. */
  lemma AnswersMap(s: seq<string>)
    ensures seq(|s|, _ => Answer) == Map(s, AnswerOf)
  {
    forall k | 0 <= k < |s| ensures seq(|s|, _ => Answer)[k] == Map(s, AnswerOf)[k] {
      MapAt(s, AnswerOf, k);
    }
  }

  /** Some fragment of `s` normalises to the empty text. */
  predicate HasBlank(s: seq<string>)
  {
    exists k :: 0 <= k < |s| && Normalise.Normalise(s[k]) == []
  }

  /** What the engine makes of the service: nothing for a chunk holding a fragment
      that normalises to the empty text, and one answer per fragment otherwise. */
  lemma BlankRefusingReplies(lang: string, c: nat, s: seq<string>)
    ensures RepliesOf(BlankRefusing, lang)(c, s) == if HasBlank(s) then None else Some(Map(s, AnswerOf))
  {
    var cl := Normalise.Cleaned(s);
    var listing := Normalise.Listing(cl);
    RepliesAt(BlankRefusing, lang, c, s, cl, listing);
    ListingShowsBlank(s);
    if !SpaceBeforeNewline(listing) {
      assert BlankRefusing(c, Prompt(lang, |cl|, listing)) == Some(AnswerReply(|s|));
      ParseAnswerReply(|s|);
      AnswersMap(s);
    }
  }

  /** Every answer the service gives is accepted and is one `Answer` per unit. */
  lemma BlankRefusingTranslates(lang: string)
    ensures TranslatesBy(RepliesOf(BlankRefusing, lang), AnswerOf)
  {
    var replies := RepliesOf(BlankRefusing, lang);
    forall c: nat, s: seq<string> | Accepted(replies(c, s), |s|)
      ensures replies(c, s).value == Map(s, AnswerOf)
    {
      BlankRefusingReplies(lang, c, s);
    }
  }

  /** The one bad normal form is the empty text. */
  lemma BlankForm(t: string)
    ensures HasBadForm({""})(t) <==> Normalise.Normalise(t) == []
  {
    HasBadFormAt({""}, t);
  }

  /** The service answers a chunk exactly when none of its fragments normalises to the
      empty text. */
  lemma BlankRefusingChunk(lang: string, c: nat, s: seq<string>)
    ensures Accepted(RepliesOf(BlankRefusing, lang)(c, s), |s|)
        <==> forall k :: 0 <= k < |s| ==> !HasBadForm({""})(s[k])
  {
    BlankRefusingReplies(lang, c, s);
    if HasBlank(s) {
      var k :| 0 <= k < |s| && Normalise.Normalise(s[k]) == [];
      BlankForm(s[k]);
    } else {
      forall k | 0 <= k < |s| ensures !HasBadForm({""})(s[k]) {
        BlankForm(s[k]);
      }
    }
  }

  lemma BlankRefusingAccepts(lang: string)
    ensures AcceptsAllBut(RepliesOf(BlankRefusing, lang), HasBadForm({""}))
  {
    forall c: nat, s: seq<string>
      ensures Accepted(RepliesOf(BlankRefusing, lang)(c, s), |s|)
          <==> forall k :: 0 <= k < |s| ==> !HasBadForm({""})(s[k])
    {
      BlankRefusingChunk(lang, c, s);
    }
  }

  /** The service meets both hypotheses of the isolation lemmas, with the empty text as
      the one bad normal form. */
  lemma BlankRefusingIsolates(lang: string)
    ensures TranslatesBy(RepliesOf(BlankRefusing, lang), AnswerOf)
    ensures AcceptsAllBut(RepliesOf(BlankRefusing, lang), HasBadForm({""}))
  {
    BlankRefusingTranslates(lang);
    BlankRefusingAccepts(lang);
  }

  /** Against this service `mass_translate` keeps exactly the blank fragments as they
      were, each at its own position, and answers every other fragment. */
  lemma BlankFragmentsKept(lang: string, textList: seq<string>, batchSize: nat, maxRetries: nat)
    requires batchSize > 0 && maxRetries >= 1
    ensures var r := Plan(EngineOf(BlankRefusing, lang, maxRetries), batchSize, textList, 0).0;
      && r.Some? && |r.value| == |textList|
      && forall k :: 0 <= k < |textList| ==>
           r.value[k] == if Normalise.Normalise(textList[k]) == [] then textList[k] else Answer
  {
    BlankRefusingIsolates(lang);
    MassTranslateIsolates(BlankRefusing, lang, textList, batchSize, maxRetries, AnswerOf, {""});
  }
}
