/** The retry-and-split engine `translate_chunk` (main.py:42-105): up to `max_retries`
    attempts on the whole chunk, each accepted only when the reply yields exactly one
    translation per unit; then, for a single unit, its original text, and otherwise
    the two halves translated in turn. */
module Engine {
  import opened Wrappers
  import opened Strings
  import opened Normalise
  import opened Reply
  import opened Comprehension

  /** What one attempt sends (main.py:54-74): the target language, the number of
      lines announced to the service and the numbered listing of the cleaned chunk.
      The fixed wording around them is the same on every call. */
  datatype Prompt = Prompt(lang: string, count: nat, listing: string)

  /** The translation service: given how many calls were made before this one and the
      prompt, the text of the reply, or `None` when the call raises. */
  type Service = (nat, Prompt) -> Option<string>

  /** The prompt for a cleaned chunk. */
  function PromptFor(lang: string, cleaned: seq<string>): Prompt
  {
    Prompt(lang, |cleaned|, Listing(cleaned))
  }

  /** What the parser makes of one reply (main.py:76-82); `None` when the call raised. */
  function ParseReply(reply: Option<string>): (r: Option<seq<string>>)
    ensures r.None? <==> reply.None?
    ensures r.Some? ==> |r.value| <= |reply.value|
  {
    match reply
    case None => None
    case Some(raw) => Some(Parse(raw))
  }

  /** The parsed reply to call number `c` when it is about `chunk`. The engine looks at
      the service only through this view of it. */
  type Replies = (nat, seq<string>) -> Option<seq<string>>

  /** The view of a service for one target language: the chunk is cleaned, the prompt
      built from it and the reply parsed. */
  function RepliesOf(svc: Service, lang: string): Replies
  {
    (c: nat, chunk: seq<string>) => ParseReply(svc(c, PromptFor(lang, Cleaned(chunk))))
  }

  /** An attempt on `n` units succeeds when the reply parses into exactly `n` lines
      (main.py:84). */
  predicate Accepted(r: Option<seq<string>>, n: nat)
  {
    r.Some? && |r.value| == n
  }

  /** No answer about a non-empty chunk is ever accepted, whatever the call. The
      engine is never called on the empty chunk, so nothing is asked of it there. */
  ghost predicate NeverAccepted(replies: Replies)
  {
    forall c: nat, chunk: seq<string> :: chunk != [] ==> !Accepted(replies(c, chunk), |chunk|)
  }

  /** The service never answers a prompt announcing one line or more with as many
      marked lines as it announces: it raises, or miscounts, on every call. */
  ghost predicate Refuses(svc: Service)
  {
    forall c: nat, p: Prompt :: p.count > 0 ==> !Accepted(ParseReply(svc(c, p)), p.count)
  }

  /** Attempts `attempt` to `maxRetries` on one chunk (main.py:52-92), the first made as
      call number `call`: the first accepted list together with the number of calls
      made so far, or `None` once the attempts are used up. */
  function Retry(replies: Replies, chunk: seq<string>, attempt: nat, maxRetries: nat, call: nat)
    : (r: (Option<seq<string>>, nat))
    requires 1 <= attempt <= maxRetries + 1
    ensures call <= r.1 <= call + (maxRetries + 1 - attempt)
    ensures r.0.None? ==> r.1 == call + (maxRetries + 1 - attempt)
    ensures r.0.Some? ==> call < r.1 && r.0 == replies(r.1 - 1, chunk) && |r.0.value| == |chunk|
    ensures forall c :: call <= c < r.1 && (r.0.None? || c < r.1 - 1) ==> !Accepted(replies(c, chunk), |chunk|)
    decreases maxRetries + 1 - attempt
  {
    if attempt > maxRetries then (None, call)
    else if Accepted(replies(call, chunk), |chunk|) then (replies(call, chunk), call + 1)
    else Retry(replies, chunk, attempt + 1, maxRetries, call + 1)
  }

  /** The split of main.py:101-103: `chunk[:mid]` and `chunk[mid:]` with
      `mid = len(chunk) // 2`. Both halves are non-empty and shorter than the chunk,
      and together they are the chunk. */
  function Halves(chunk: seq<string>): (h: (seq<string>, seq<string>))
    requires |chunk| >= 2
    ensures h.0 + h.1 == chunk && |h.0| == |chunk| / 2
    ensures 0 < |h.0| < |chunk| && 0 < |h.1| < |chunk|
  {
    var mid := |chunk| / 2;
    assert chunk[..mid] + chunk[mid..] == chunk;
    (chunk[..mid], chunk[mid..])
  }

  /** What `translate_chunk(chunk)` returns when the service answers as `replies` and
      its first call is number `call`, with the number of calls made when it returns. */
  function TranslateWith(replies: Replies, maxRetries: nat, chunk: seq<string>, call: nat)
    : (r: (seq<string>, nat))
    requires chunk != []
    ensures call <= r.1
    decreases |chunk|
  {
    var res := Retry(replies, chunk, 1, maxRetries, call);
    if res.0.Some? then (res.0.value, res.1)
    else if |chunk| == 1 then (chunk, res.1)
    else
      var h := Halves(chunk);
      var left := TranslateWith(replies, maxRetries, h.0, res.1);
      var right := TranslateWith(replies, maxRetries, h.1, left.1);
      (left.0 + right.0, right.1)
  }

  /** `translate_chunk(chunk)` against the service `svc`. */
  function Translate(svc: Service, lang: string, maxRetries: nat, chunk: seq<string>, call: nat)
    : (seq<string>, nat)
    requires chunk != []
  {
    TranslateWith(RepliesOf(svc, lang), maxRetries, chunk, call)
  }

  lemma RepliesAt(svc: Service, lang: string, c: nat, chunk: seq<string>, cleaned: seq<string>, listing: string)
    requires cleaned == Cleaned(chunk) && listing == Listing(cleaned)
    ensures RepliesOf(svc, lang)(c, chunk) == ParseReply(svc(c, Prompt(lang, |cleaned|, listing)))
  {
    assert PromptFor(lang, Cleaned(chunk)) == Prompt(lang, |cleaned|, listing);
  }

  /** One attempt: an accepted reply ends the retries, any other goes on to the next
      attempt. */
  lemma RetryStep(replies: Replies, chunk: seq<string>, attempt: nat, maxRetries: nat, call: nat, r: Option<seq<string>>)
    requires 1 <= attempt <= maxRetries && replies(call, chunk) == r
    ensures Retry(replies, chunk, attempt, maxRetries, call)
      == if Accepted(r, |chunk|) then (r, call + 1) else Retry(replies, chunk, attempt + 1, maxRetries, call + 1)
  {
  }

  /** The retry loop of main.py:52-92 on a chunk already cleaned: up to `maxRetries`
      prompts, numbered from `call`, stopping at the first reply that parses into one
      line per unit; a call that raises counts as a failed attempt. */
  method RetryLoop(svc: Service, lang: string, maxRetries: nat, chunk: seq<string>, cleaned: seq<string>, call: nat)
    returns (found: Option<seq<string>>, next: nat)
    requires cleaned == Cleaned(chunk)
    ensures (found, next) == Retry(RepliesOf(svc, lang), chunk, 1, maxRetries, call)
  {
    ghost var replies := RepliesOf(svc, lang);
    next := call;
    var attempt := 1;
    while attempt <= maxRetries
      invariant 1 <= attempt <= maxRetries + 1 && next == call + (attempt - 1)
      invariant Retry(replies, chunk, 1, maxRetries, call) == Retry(replies, chunk, attempt, maxRetries, next)
      decreases maxRetries + 1 - attempt
    {
      var listing := BuildListing(cleaned);
      var reply := svc(next, Prompt(lang, |cleaned|, listing));
      RepliesAt(svc, lang, next, chunk, cleaned, listing);
      RetryStep(replies, chunk, attempt, maxRetries, next, ParseReply(reply));
      next := next + 1;
      match reply {
        case Some(raw) =>
          var lines := Parse(raw);
          if |lines| == |cleaned| {
            found := Some(lines);
            return;
          }
        case None =>
      }
      attempt := attempt + 1;
    }
    found := None;
  }

  /** `translate_chunk` (main.py:42-105), with the service calls numbered from `call`:
      it computes what `Translate` describes. */
  method TranslateChunk(svc: Service, lang: string, maxRetries: nat, chunk: seq<string>, call: nat)
    returns (translated: seq<string>, next: nat)
    requires chunk != []
    ensures (translated, next) == Translate(svc, lang, maxRetries, chunk, call)
    decreases |chunk|
  {
    var cleaned := CleanChunk(chunk);
    var found;
    found, next := RetryLoop(svc, lang, maxRetries, chunk, cleaned, call);
    if found.Some? {
      translated := found.value;
      return;
    }
    if |chunk| == 1 {
      translated := chunk;
      return;
    }
    var mid := |chunk| / 2;
    assert Halves(chunk) == (chunk[..mid], chunk[mid..]);
    var first, n1 := TranslateChunk(svc, lang, maxRetries, chunk[..mid], next);
    var second, n2 := TranslateChunk(svc, lang, maxRetries, chunk[mid..], n1);
    translated, next := first + second, n2;
  }

  // ------------------------------------------------------------------
  // What translate_chunk promises, whatever the service answers

  /** The result has one entry per unit of the chunk. */
  lemma {:induction false} TranslateLength(replies: Replies, maxRetries: nat, chunk: seq<string>, call: nat)
    requires chunk != []
    ensures |TranslateWith(replies, maxRetries, chunk, call).0| == |chunk|
    decreases |chunk|
  {
    var res := Retry(replies, chunk, 1, maxRetries, call);
    if res.0.None? && |chunk| > 1 {
      var h := Halves(chunk);
      TranslateLength(replies, maxRetries, h.0, res.1);
      var left := TranslateWith(replies, maxRetries, h.0, res.1);
      TranslateLength(replies, maxRetries, h.1, left.1);
    }
  }

  /** The most calls a chunk of `n` units can cost: `m` attempts for each of the
      chunks of its halving. */
  function Budget(m: nat, n: nat): (b: nat)
    ensures m <= b
    decreases n
  {
    if n <= 1 then m else Budget(m, n - 1) + 2 * m
  }

  /** The budget of a chunk split in two is its own attempts plus the budgets of
      the halves. */
  lemma {:induction false} BudgetSplit(m: nat, a: nat, b: nat)
    requires a >= 1 && b >= 1
    ensures Budget(m, a + b) == m + Budget(m, a) + Budget(m, b)
    decreases b
  {
    if b > 1 {
      BudgetSplit(m, a, b - 1);
      assert Budget(m, a + b) == Budget(m, a + b - 1) + 2 * m;
    }
  }

  /** The budget is `m` calls for each of the 2n - 1 chunks the halving of n units
      can produce. */
  lemma {:induction false} BudgetClosed(m: nat, n: nat)
    requires n >= 1
    ensures Budget(m, n) == m * (2 * n - 1)
    decreases n
  {
    if n > 1 {
      BudgetClosed(m, n - 1);
      assert m * (2 * n - 1) == m * (2 * (n - 1) - 1) + 2 * m;
    }
  }

  /** A chunk of n units costs at most `maxRetries` calls for each of the at most
      2n - 1 chunks that the halving can produce. */
  lemma {:induction false} TranslateCalls(replies: Replies, maxRetries: nat, chunk: seq<string>, call: nat)
    requires chunk != []
    ensures TranslateWith(replies, maxRetries, chunk, call).1 <= call + Budget(maxRetries, |chunk|)
    decreases |chunk|
  {
    var res := Retry(replies, chunk, 1, maxRetries, call);
    if res.0.None? && |chunk| > 1 {
      var h := Halves(chunk);
      TranslateCalls(replies, maxRetries, h.0, res.1);
      var left := TranslateWith(replies, maxRetries, h.0, res.1);
      TranslateCalls(replies, maxRetries, h.1, left.1);
      BudgetSplit(maxRetries, |h.0|, |h.1|);
    }
  }

  /** When no answer is ever accepted, every attempt is made and none succeeds. */
  lemma RetryRefused(replies: Replies, chunk: seq<string>, attempt: nat, maxRetries: nat, call: nat)
    requires chunk != [] && 1 <= attempt <= maxRetries + 1 && NeverAccepted(replies)
    ensures Retry(replies, chunk, attempt, maxRetries, call) == (None, call + (maxRetries + 1 - attempt))
  {
  }

  /** When no answer is ever accepted, every unit comes back as its original text. */
  lemma {:induction false} TranslateRefusedText(replies: Replies, maxRetries: nat, chunk: seq<string>, call: nat)
    requires chunk != [] && NeverAccepted(replies)
    ensures TranslateWith(replies, maxRetries, chunk, call).0 == chunk
    decreases |chunk|
  {
    var res := Retry(replies, chunk, 1, maxRetries, call);
    RetryRefused(replies, chunk, 1, maxRetries, call);
    if |chunk| > 1 {
      var h := Halves(chunk);
      TranslateRefusedText(replies, maxRetries, h.0, res.1);
      var left := TranslateWith(replies, maxRetries, h.0, res.1);
      TranslateRefusedText(replies, maxRetries, h.1, left.1);
    }
  }

  /** When no answer is ever accepted, each of the 2n - 1 chunks of the halving of n
      units uses up all its attempts. */
  lemma {:induction false} TranslateRefusedCalls(replies: Replies, maxRetries: nat, chunk: seq<string>, call: nat)
    requires chunk != [] && NeverAccepted(replies)
    ensures TranslateWith(replies, maxRetries, chunk, call).1 == call + Budget(maxRetries, |chunk|)
    decreases |chunk|
  {
    var res := Retry(replies, chunk, 1, maxRetries, call);
    RetryRefused(replies, chunk, 1, maxRetries, call);
    if |chunk| > 1 {
      var h := Halves(chunk);
      TranslateRefusedCalls(replies, maxRetries, h.0, res.1);
      var left := TranslateWith(replies, maxRetries, h.0, res.1);
      TranslateRefusedCalls(replies, maxRetries, h.1, left.1);
      BudgetSplit(maxRetries, |h.0|, |h.1|);
    }
  }

  /** When no answer is ever accepted, the chunk comes back unchanged after
      `maxRetries` * (2n - 1) calls. */
  lemma TranslateRefused(replies: Replies, maxRetries: nat, chunk: seq<string>, call: nat)
    requires chunk != [] && NeverAccepted(replies)
    ensures TranslateWith(replies, maxRetries, chunk, call) == (chunk, call + maxRetries * (2 * |chunk| - 1))
  {
    TranslateRefusedText(replies, maxRetries, chunk, call);
    TranslateRefusedCalls(replies, maxRetries, chunk, call);
    BudgetClosed(maxRetries, |chunk|);
  }

  /** With no attempts allowed, nothing is sent and every unit keeps its original text. */
  lemma {:induction false} NoRetries(replies: Replies, chunk: seq<string>, call: nat)
    requires chunk != []
    ensures TranslateWith(replies, 0, chunk, call) == (chunk, call)
    decreases |chunk|
  {
    if |chunk| > 1 {
      var h := Halves(chunk);
      NoRetries(replies, h.0, call);
      NoRetries(replies, h.1, call);
    }
  }

  /** Every answer the replies accept is a unit-by-unit translation by `g`: entry k of
      the accepted list is `g` of unit k of the chunk it answers. */
  ghost predicate TranslatesBy(replies: Replies, g: string -> string)
  {
    forall c: nat, s: seq<string> :: Accepted(replies(c, s), |s|) ==> replies(c, s).value == Map(s, g)
  }

  /** The replies accept an answer, on any call, exactly for the non-empty chunks that
      hold no bad unit. The empty chunk is never sent, so nothing is asked of it. */
  ghost predicate AcceptsAllBut(replies: Replies, isBad: string -> bool)
  {
    forall c: nat, s: seq<string> :: s != [] ==>
      (Accepted(replies(c, s), |s|) <==> (forall k :: 0 <= k < |s| ==> !isBad(s[k])))
  }

  /** Entry k of `r` stands at the position of unit k of `chunk`: it is the
      translation `g` of that unit or the unit itself. */
  ghost predicate InPlace(chunk: seq<string>, r: seq<string>, g: string -> string)
  {
    |r| == |chunk| && forall k :: 0 <= k < |chunk| ==> r[k] == g(chunk[k]) || r[k] == chunk[k]
  }

  /** Results for the two halves, each in place, are in place for the whole chunk. */
  lemma InPlaceConcat(a: seq<string>, b: seq<string>, ra: seq<string>, rb: seq<string>, g: string -> string)
    requires InPlace(a, ra, g) && InPlace(b, rb, g)
    ensures InPlace(a + b, ra + rb, g)
  {
    forall k | 0 <= k < |a + b| ensures (ra + rb)[k] == g((a + b)[k]) || (ra + rb)[k] == (a + b)[k] {
      if k < |a| {
        assert (ra + rb)[k] == ra[k] && (a + b)[k] == a[k];
      } else {
        assert (ra + rb)[k] == rb[k - |a|] && (a + b)[k] == b[k - |a|];
      }
    }
  }

  /** Order is kept: when accepted answers translate unit by unit, entry k of the result
      is unit k translated, or unit k untouched where its attempts ran out, whichever
      halves were translated and whichever fell back. */
  lemma {:induction false} TranslateInPlace(replies: Replies, maxRetries: nat, chunk: seq<string>, call: nat, g: string -> string)
    requires chunk != [] && TranslatesBy(replies, g)
    ensures InPlace(chunk, TranslateWith(replies, maxRetries, chunk, call).0, g)
    decreases |chunk|
  {
    var res := Retry(replies, chunk, 1, maxRetries, call);
    if res.0.Some? {
      assert res.0.value == Map(chunk, g);
      forall k | 0 <= k < |chunk| ensures res.0.value[k] == g(chunk[k]) {
        MapAt(chunk, g, k);
      }
    } else if |chunk| > 1 {
      var h := Halves(chunk);
      TranslateInPlace(replies, maxRetries, h.0, res.1, g);
      var left := TranslateWith(replies, maxRetries, h.0, res.1);
      TranslateInPlace(replies, maxRetries, h.1, left.1, g);
      var right := TranslateWith(replies, maxRetries, h.1, left.1);
      InPlaceConcat(h.0, h.1, left.0, right.0, g);
    }
  }

  /** Entry k of `r` is unit k of `chunk` when that unit is bad, and its translation
      `g` otherwise. */
  ghost predicate IsolatedFrom(chunk: seq<string>, r: seq<string>, g: string -> string, isBad: string -> bool)
  {
    |r| == |chunk| && forall k :: 0 <= k < |chunk| ==> r[k] == (if isBad(chunk[k]) then chunk[k] else g(chunk[k]))
  }

  lemma IsolatedConcat(a: seq<string>, b: seq<string>, ra: seq<string>, rb: seq<string>,
                       g: string -> string, isBad: string -> bool)
    requires IsolatedFrom(a, ra, g, isBad) && IsolatedFrom(b, rb, g, isBad)
    ensures IsolatedFrom(a + b, ra + rb, g, isBad)
  {
    forall k | 0 <= k < |a + b|
      ensures (ra + rb)[k] == (if isBad((a + b)[k]) then (a + b)[k] else g((a + b)[k]))
    {
      if k < |a| {
        assert (ra + rb)[k] == ra[k] && (a + b)[k] == a[k];
      } else {
        assert (ra + rb)[k] == rb[k - |a|] && (a + b)[k] == b[k - |a|];
      }
    }
  }

  /** The split isolates failures: when answers are accepted exactly for the chunks
      without a bad unit, and then translate unit by unit, the bisection narrows down
      to the bad units, which alone keep their original text, and every other unit is
      translated. */
  lemma {:induction false} TranslateIsolates(replies: Replies, maxRetries: nat, chunk: seq<string>, call: nat,
                                             g: string -> string, isBad: string -> bool)
    requires chunk != [] && maxRetries >= 1
    requires TranslatesBy(replies, g) && AcceptsAllBut(replies, isBad)
    ensures IsolatedFrom(chunk, TranslateWith(replies, maxRetries, chunk, call).0, g, isBad)
    decreases |chunk|
  {
    var res := Retry(replies, chunk, 1, maxRetries, call);
    if res.0.Some? {
      assert Accepted(replies(res.1 - 1, chunk), |chunk|);
      assert res.0.value == Map(chunk, g);
      forall k | 0 <= k < |chunk| ensures res.0.value[k] == g(chunk[k]) && !isBad(chunk[k]) {
        MapAt(chunk, g, k);
      }
    } else {
      assert !Accepted(replies(call, chunk), |chunk|);
      if |chunk| == 1 {
        assert isBad(chunk[0]);
      } else {
        var h := Halves(chunk);
        TranslateIsolates(replies, maxRetries, h.0, res.1, g, isBad);
        var left := TranslateWith(replies, maxRetries, h.0, res.1);
        TranslateIsolates(replies, maxRetries, h.1, left.1, g, isBad);
        var right := TranslateWith(replies, maxRetries, h.1, left.1);
        IsolatedConcat(h.0, h.1, left.0, right.0, g, isBad);
      }
    }
  }

  /** An acceptable first answer is returned exactly as parsed, after one call. */
  lemma FirstAttemptAccepted(replies: Replies, maxRetries: nat, chunk: seq<string>, call: nat)
    requires chunk != [] && maxRetries >= 1 && Accepted(replies(call, chunk), |chunk|)
    ensures TranslateWith(replies, maxRetries, chunk, call) == (replies(call, chunk).value, call + 1)
  {
  }

  /** A service that answers the first prompt in the reply format, one numbered line
      per unit, has its lines taken as the translation after that single call. */
  lemma WellFormedAnswer(svc: Service, lang: string, maxRetries: nat, chunk: seq<string>, call: nat, ts: seq<string>)
    requires chunk != [] && maxRetries >= 1
    requires |ts| == |chunk| < 1000
    requires forall k :: 0 <= k < |ts| ==> IsStripped(ts[k]) && NoLineBreak(ts[k])
    requires svc(call, PromptFor(lang, Cleaned(chunk))) == Some(FormatReply(ts))
    ensures Translate(svc, lang, maxRetries, chunk, call) == (ts, call + 1)
  {
    ParseFormatReply(ts);
    assert RepliesOf(svc, lang)(call, chunk) == Some(ts);
    FirstAttemptAccepted(RepliesOf(svc, lang), maxRetries, chunk, call);
  }

  /** A service that refuses every prompt is, seen through the parser, one whose
      answers are never accepted. */
  lemma RefusingService(svc: Service, lang: string)
    requires Refuses(svc)
    ensures NeverAccepted(RepliesOf(svc, lang))
  {
    forall c: nat, chunk: seq<string> | chunk != [] ensures !Accepted(RepliesOf(svc, lang)(c, chunk), |chunk|) {
      var p := PromptFor(lang, Cleaned(chunk));
      assert p.count == |chunk| > 0;
      assert !Accepted(ParseReply(svc(c, p)), p.count);
    }
  }

  /** A service that answers every prompt with an apology and no translated line. */
  function Mute(c: nat, p: Prompt): Option<string>
  {
    Some("Sorry, no.")
  }

  /** The call raised, or its reply holds no `>`. */
  predicate Unmarked(reply: Option<string>)
  {
    reply.Some? ==> '>' !in reply.value
  }

  /** A reply with no `>` in it gives the empty list, which is accepted for no
      non-empty chunk. */
  lemma UnmarkedParseReply(reply: Option<string>, n: nat)
    requires Unmarked(reply) && n > 0
    ensures reply.Some? ==> ParseReply(reply) == Some([])
    ensures !Accepted(ParseReply(reply), n)
  {
    if reply.Some? {
      UnmarkedReply(reply.value);
    }
  }

  /** A service none of whose replies holds a `>` refuses every prompt: the parser
      finds no marked line, and a prompt announces at least one. */
  lemma UnmarkedRefuses(svc: Service)
    requires forall c: nat, p: Prompt :: Unmarked(svc(c, p))
    ensures Refuses(svc)
  {
    forall c: nat, p: Prompt | p.count > 0 ensures !Accepted(ParseReply(svc(c, p)), p.count) {
      UnmarkedParseReply(svc(c, p), p.count);
    }
  }

  /** The apology holds no `>`, so the mute service refuses every prompt and, through
      the parser, no answer of it is accepted. */
  lemma MuteRefuses(lang: string)
    ensures Refuses(Mute) && NeverAccepted(RepliesOf(Mute, lang))
  {
    var raw := "Sorry, no.";
    assert '>' !in raw by {
      forall k | 0 <= k < |raw| ensures raw[k] != '>' {
        assert ' ' <= raw[k] <= 'y';
      }
    }
    UnmarkedRefuses(Mute);
    RefusingService(Mute, lang);
  }

  /** A service that raises on every prompt for `lang` and answers prompts for other
      languages with one well-formed line. */
  function RaisesFor(lang: string): Service
  {
    (c: nat, p: Prompt) => if p.lang == lang then None else Some(FormatReply(["X"]))
  }

  /** The one-line answer parses into its one text. */
  lemma OneLineReply()
    ensures Parse(FormatReply(["X"])) == ["X"]
  {
    var ts := ["X"];
    assert IsStripped(ts[0]) && NoLineBreak(ts[0]);
    ParseFormatReply(ts);
  }

  /** Such a service has no answer accepted by the pipeline for `lang`: every prompt
      built for `lang` raises. */
  lemma RaisesForSilent(lang: string)
    ensures NeverAccepted(RepliesOf(RaisesFor(lang), lang))
  {
    forall c: nat, chunk: seq<string> | chunk != []
      ensures !Accepted(RepliesOf(RaisesFor(lang), lang)(c, chunk), |chunk|)
    {
      var p := PromptFor(lang, Cleaned(chunk));
      assert RaisesFor(lang)(c, p) == None;
    }
  }

  /** A prompt for a language other than `lang` gets the one-line answer, parsed. */
  lemma RaisesForOther(lang: string, p: Prompt)
    requires p.lang != lang
    ensures ParseReply(RaisesFor(lang)(0, p)) == Some(["X"])
  {
    OneLineReply();
  }

  /** Yet it does not refuse every prompt: one for another language is answered
      acceptably. So the refusal lemmas that read only the replies for one language
      cover more services than `Refuses` does. */
  lemma RaisesForAnswers(lang: string, other: string)
    requires other != lang
    ensures !Refuses(RaisesFor(lang))
  {
    var p := Prompt(other, 1, []);
    RaisesForOther(lang, p);
    assert p.count > 0 && Accepted(ParseReply(RaisesFor(lang)(0, p)), p.count);
  }
}
