/** The batch loop of `mass_translate` (main.py:107-115): the input is cut into
    consecutive slices of `batch_size` fragments, each slice goes through the engine
    in turn, and the translations are appended in order; an empty result for a slice
    makes the whole call return `None`. */
module Planner {
  import opened Wrappers
  import Normalise
  import opened Engine

  function Min(a: nat, b: nat): nat
  {
    if a <= b then a else b
  }

  // ------------------------------------------------------------------
  // The batches

  /** The slices `xs[i:i + bs]` for i = 0, bs, 2 bs, ... below `len(xs)` (main.py:107-108). */
  function Batches<T>(xs: seq<T>, bs: nat): (r: seq<seq<T>>)
    requires bs > 0
    decreases |xs|
  {
    if xs == [] then [] else [xs[..Min(bs, |xs|)]] + Batches(xs[Min(bs, |xs|)..], bs)
  }

  /** The concatenation of a sequence of sequences, in order. */
  function Concat<T>(xss: seq<seq<T>>): seq<T>
    decreases |xss|
  {
    if xss == [] then [] else xss[0] + Concat(xss[1..])
  }

  /** Batch k is the slice from lo = k * bs up to lo + bs, cut at the end of the input;
      there is a batch k for every slice start lo below the length. */
  lemma {:induction false} BatchAt<T>(xs: seq<T>, bs: nat, k: nat, lo: nat)
    requires bs > 0 && lo == k * bs && lo < |xs|
    ensures k < |Batches(xs, bs)|
    ensures Batches(xs, bs)[k] == xs[lo..Min(lo + bs, |xs|)]
    decreases k
  {
    if k > 0 {
      MulStep(k, bs);
      var rest := xs[bs..];
      BatchAt(rest, bs, k - 1, lo - bs);
      assert Batches(xs, bs)[k] == Batches(rest, bs)[k - 1] by {
        assert Batches(xs, bs) == [xs[..bs]] + Batches(rest, bs);
      }
      SliceOfDrop(xs, bs, lo - bs, Min(lo, |rest|));
    }
  }

  lemma SliceOfDrop<T>(xs: seq<T>, d: nat, a: nat, b: nat)
    requires d <= |xs| && a <= b <= |xs| - d
    ensures xs[d..][a..b] == xs[d + a..d + b]
  {
  }

  lemma MulStep(k: nat, b: nat)
    requires k >= 1
    ensures (k - 1) * b == k * b - b && k * b >= b
  {
    assert k * b == (k - 1) * b + b;
  }

  lemma DivSingle(a: nat, b: nat)
    requires 0 < b <= a < 2 * b
    ensures a / b == 1
  {
    assert a == 1 * b + (a - b);
  }

  lemma MulAtLeast(d: nat, b: nat)
    requires d >= 1
    ensures d * b >= b
  {
    assert d * b == b + (d - 1) * b;
  }

  lemma DivUnique(a: nat, b: nat, q: nat, r: nat)
    requires 0 <= r < b && a == q * b + r
    ensures a / b == q
  {
    var q2, r2 := a / b, a % b;
    assert a == q2 * b + r2;
    if q2 < q {
      assert (q - q2) * b == r2 - r;
      MulAtLeast(q - q2, b);
      assert false;
    } else if q2 > q {
      assert (q2 - q) * b == r - r2;
      MulAtLeast(q2 - q, b);
      assert false;
    }
  }

  lemma DivStep(a: nat, b: nat)
    requires b > 0
    ensures (a + b) / b == a / b + 1
  {
    var q, r := a / b, a % b;
    assert a + b == (q + 1) * b + r;
    DivUnique(a + b, b, q + 1, r);
  }

  /** The number of batches is the number of steps of `range(0, len(xs), bs)`. */
  lemma {:induction false} BatchesCount<T>(xs: seq<T>, bs: nat)
    requires bs > 0
    ensures |Batches(xs, bs)| == (|xs| + bs - 1) / bs
    decreases |xs|
  {
    if xs != [] {
      if |xs| <= bs {
        assert xs[Min(bs, |xs|)..] == [];
        DivSingle(|xs| + bs - 1, bs);
      } else {
        BatchesCount(xs[bs..], bs);
        DivStep(|xs| - bs + bs - 1, bs);
      }
    }
  }

  /** Every batch is non-empty and holds at most `bs` fragments; all but the last hold
      exactly `bs`. */
  lemma {:induction false} BatchesSizes<T>(xs: seq<T>, bs: nat)
    requires bs > 0
    ensures forall k :: 0 <= k < |Batches(xs, bs)| ==> 0 < |Batches(xs, bs)[k]| <= bs
    ensures forall k :: 0 <= k < |Batches(xs, bs)| - 1 ==> |Batches(xs, bs)[k]| == bs
    decreases |xs|
  {
    if xs != [] {
      BatchesSizes(xs[Min(bs, |xs|)..], bs);
    }
  }

  /** The batches, put back together in order, are the input. */
  lemma {:induction false} BatchesConcat<T>(xs: seq<T>, bs: nat)
    requires bs > 0
    ensures Concat(Batches(xs, bs)) == xs
    decreases |xs|
  {
    if xs != [] {
      var n := Min(bs, |xs|);
      BatchesConcat(xs[n..], bs);
      assert Batches(xs, bs)[1..] == Batches(xs[n..], bs);
      assert xs[..n] + xs[n..] == xs;
    }
  }

  // ------------------------------------------------------------------
  // The batch loop

  /** A chunk translator, as the loop sees `translate_chunk`: given a chunk and the
      number of calls made so far, its translation and the new call count. */
  type Translator = (seq<string>, nat) -> (seq<string>, nat)

  /** `translate_chunk` against a service. The loop never hands it an empty chunk;
      there it is given the empty answer, at no call, so that the translator is total.
      The call counter never goes back. */
  function EngineOf(svc: Service, lang: string, maxRetries: nat): (t: Translator)
    ensures forall c: nat :: t([], c) == ([], c)
    ensures forall chunk: seq<string>, c: nat :: c <= t(chunk, c).1
  {
    (chunk: seq<string>, c: nat) => if chunk == [] then ([], c) else Translate(svc, lang, maxRetries, chunk, c)
  }

  lemma EngineAt(svc: Service, lang: string, maxRetries: nat, chunk: seq<string>, c: nat)
    requires chunk != []
    ensures EngineOf(svc, lang, maxRetries)(chunk, c) == Translate(svc, lang, maxRetries, chunk, c)
  {
  }

  /** `Some(p + v)` when `o` is `Some(v)`: the effect on the final answer of the
      translations collected before a batch. */
  function Prepend(p: seq<string>, o: Option<seq<string>>): (r: Option<seq<string>>)
    ensures r.Some? <==> o.Some?
  {
    match o
    case None => None
    case Some(v) => Some(p + v)
  }

  lemma PrependNil(o: Option<seq<string>>)
    ensures Prepend([], o) == o
  {
    if o.Some? {
      assert [] + o.value == o.value;
    }
  }

  lemma PrependPrepend(p: seq<string>, q: seq<string>, o: Option<seq<string>>)
    ensures Prepend(p, Prepend(q, o)) == Prepend(p + q, o)
  {
    if o.Some? {
      assert p + (q + o.value) == (p + q) + o.value;
    }
  }

  /** What the batch loop returns for the fragments `xs` still to do, the first call
      being number `call`, with the number of calls made: `None` as soon as a batch
      comes back empty. */
  function Plan(tr: Translator, bs: nat, xs: seq<string>, call: nat): (r: (Option<seq<string>>, nat))
    requires bs > 0
    decreases |xs|
  {
    if xs == [] then (Some([]), call)
    else
      var n := Min(bs, |xs|);
      var t := tr(xs[..n], call);
      if t.0 == [] then (None, t.1)
      else
        var rest := Plan(tr, bs, xs[n..], t.1);
        (Prepend(t.0, rest.0), rest.1)
  }

  /** The fragments from position i on; nothing once i has passed the end. */
  function Rest(xs: seq<string>, i: nat): (r: seq<string>)
    ensures |r| <= |xs|
  {
    if i <= |xs| then xs[i..] else []
  }

  /** The loop's view of `Plan`: the answer so far prepended, and the call count. */
  function Outcome(all: seq<string>, p: (Option<seq<string>>, nat)): (Option<seq<string>>, nat)
  {
    (Prepend(all, p.0), p.1)
  }

  /** After the batch at i comes back non-empty, the loop goes on from i + bs with it
      appended; when it comes back empty, the answer is `None`. */
  lemma PlanAdvance(tr: Translator, bs: nat, xs: seq<string>, i: nat, call: nat, all: seq<string>)
    requires bs > 0 && i < |xs|
    ensures var t := tr(xs[i..Min(i + bs, |xs|)], call);
      && (t.0 != [] ==> Outcome(all, Plan(tr, bs, Rest(xs, i), call))
                        == Outcome(all + t.0, Plan(tr, bs, Rest(xs, i + bs), t.1)))
      && (t.0 == [] ==> Plan(tr, bs, Rest(xs, i), call) == (None, t.1))
  {
    var t := tr(xs[i..Min(i + bs, |xs|)], call);
    var ys := xs[i..];
    var n := Min(bs, |ys|);
    assert ys[..n] == xs[i..Min(i + bs, |xs|)];
    assert ys[n..] == Rest(xs, i + bs);
    PrependPrepend(all, t.0, Plan(tr, bs, Rest(xs, i + bs), t.1).0);
  }

  // The loop is proved against a translator `tr` of which it knows only that it
  // agrees with `translate_chunk` (`Implements`), never against the function value
  // `EngineOf` itself: unfolding the engine inside the loop's proof makes that proof
  // far larger than it needs to be. `ChooseEngine` supplies such a `tr`,
  // `TranslateBatch` is the call of `TranslateChunk` seen through it, and `PlanSame`
  // turns the loop's result back into a statement about `EngineOf`.

  /** `tr` agrees with `translate_chunk` against the service on every chunk the loop
      can hand it. */
  ghost predicate Implements(tr: Translator, svc: Service, lang: string, maxRetries: nat)
  {
    forall chunk: seq<string>, c: nat {:trigger Translate(svc, lang, maxRetries, chunk, c)} ::
      chunk != [] ==> tr(chunk, c) == Translate(svc, lang, maxRetries, chunk, c)
  }

  /** Some translator implements the engine: `EngineOf` does. */
  lemma ChooseEngine(svc: Service, lang: string, maxRetries: nat) returns (tr: Translator)
    ensures Implements(tr, svc, lang, maxRetries)
  {
    tr := EngineOf(svc, lang, maxRetries);
  }

  /** The loop depends on the translator only through the chunks it is handed. */
  lemma {:induction false} PlanSame(tr: Translator, tr2: Translator, bs: nat, xs: seq<string>, call: nat)
    requires bs > 0
    requires forall chunk: seq<string>, c: nat :: chunk != [] ==> tr(chunk, c) == tr2(chunk, c)
    ensures Plan(tr, bs, xs, call) == Plan(tr2, bs, xs, call)
    decreases |xs|
  {
    if xs != [] {
      var n := Min(bs, |xs|);
      var t := tr(xs[..n], call);
      PlanSame(tr, tr2, bs, xs[n..], t.1);
    }
  }

  /** One batch: `translate_chunk(chunk)`, which is what `tr` says. */
  method TranslateBatch(svc: Service, lang: string, maxRetries: nat, chunk: seq<string>, call: nat, ghost tr: Translator)
    returns (translated: seq<string>, next: nat)
    requires chunk != [] && Implements(tr, svc, lang, maxRetries)
    ensures (translated, next) == tr(chunk, call)
  {
    translated, next := TranslateChunk(svc, lang, maxRetries, chunk, call);
  }

  /** `mass_translate(text_list, lang, batch_size, max_retries)` (main.py:39-115),
      with the service calls numbered from 0: it computes what `Plan` describes. */
  method MassTranslate(svc: Service, lang: string, textList: seq<string>, batchSize: nat, maxRetries: nat)
    returns (result: Option<seq<string>>, calls: nat)
    requires batchSize > 0
    ensures (result, calls) == Plan(EngineOf(svc, lang, maxRetries), batchSize, textList, 0)
  {
    ghost var tr := ChooseEngine(svc, lang, maxRetries);
    var all: seq<string> := [];
    calls := 0;
    var i := 0;
    assert Rest(textList, 0) == textList;
    PrependNil(Plan(tr, batchSize, textList, 0).0);
    while i < |textList|
      invariant Plan(tr, batchSize, textList, 0) == Outcome(all, Plan(tr, batchSize, Rest(textList, i), calls))
      decreases |textList| - i
    {
      var chunk := textList[i..Min(i + batchSize, |textList|)];
      ghost var before := calls;
      var translated;
      translated, calls := TranslateBatch(svc, lang, maxRetries, chunk, calls, tr);
      if translated == [] {
        assert Plan(tr, batchSize, Rest(textList, i), before) == (None, calls) by {
          PlanAdvance(tr, batchSize, textList, i, before, all);
        }
        result := None;
        break;
      }
      assert Outcome(all, Plan(tr, batchSize, Rest(textList, i), before))
        == Outcome(all + translated, Plan(tr, batchSize, Rest(textList, i + batchSize), calls)) by {
        PlanAdvance(tr, batchSize, textList, i, before, all);
      }
      all := all + translated;
      i := i + batchSize;
    }
    if i >= |textList| {
      assert Rest(textList, i) == [];
      result := Some(all);
      assert all + [] == all;
    }
    assert Plan(tr, batchSize, textList, 0) == Plan(EngineOf(svc, lang, maxRetries), batchSize, textList, 0) by {
      forall chunk: seq<string>, c: nat | chunk != []
        ensures tr(chunk, c) == EngineOf(svc, lang, maxRetries)(chunk, c)
      {
        EngineAt(svc, lang, maxRetries, chunk, c);
      }
      PlanSame(tr, EngineOf(svc, lang, maxRetries), batchSize, textList, 0);
    }
  }

  // ------------------------------------------------------------------
  // What mass_translate promises

  /** The translator answers every non-empty chunk with one entry per unit. */
  ghost predicate KeepsLength(tr: Translator)
  {
    forall chunk: seq<string>, c: nat :: chunk != [] ==> |tr(chunk, c).0| == |chunk|
  }

  /** The translator answers every non-empty chunk with the chunk itself. */
  ghost predicate KeepsText(tr: Translator)
  {
    forall chunk: seq<string>, c: nat :: chunk != [] ==> tr(chunk, c).0 == chunk
  }

  /** The translators run on each batch in turn, the calls counted on from `call`:
      their results in order and the call count at the end. */
  function Each(tr: Translator, bss: seq<seq<string>>, call: nat): (r: (seq<seq<string>>, nat))
    ensures |r.0| == |bss|
    decreases |bss|
  {
    if bss == [] then ([], call)
    else
      var t := tr(bss[0], call);
      var rest := Each(tr, bss[1..], t.1);
      ([t.0] + rest.0, rest.1)
  }

  /** When every batch comes back with one entry per fragment, the `None` branch is
      never taken, and the answer has one entry per fragment of the input. */
  lemma {:induction false} PlanTotal(tr: Translator, bs: nat, xs: seq<string>, call: nat)
    requires bs > 0 && KeepsLength(tr)
    ensures Plan(tr, bs, xs, call).0.Some? && |Plan(tr, bs, xs, call).0.value| == |xs|
    decreases |xs|
  {
    if xs != [] {
      var n := Min(bs, |xs|);
      var t := tr(xs[..n], call);
      assert |t.0| == n;
      PlanTotal(tr, bs, xs[n..], t.1);
    }
  }

  /** When every batch comes back with one entry per fragment, the answer is the
      per-batch results concatenated in batch order, and the calls are those of the
      batches one after the other. */
  lemma {:induction false} PlanBatches(tr: Translator, bs: nat, xs: seq<string>, call: nat)
    requires bs > 0 && KeepsLength(tr)
    ensures var e := Each(tr, Batches(xs, bs), call);
      Plan(tr, bs, xs, call) == (Some(Concat(e.0)), e.1)
    decreases |xs|
  {
    if xs != [] {
      var n := Min(bs, |xs|);
      var t := tr(xs[..n], call);
      assert |t.0| == n;
      PlanBatches(tr, bs, xs[n..], t.1);
      var bss := Batches(xs, bs);
      assert bss[0] == xs[..n] && bss[1..] == Batches(xs[n..], bs);
      var e := Each(tr, bss, call);
      assert e.0[0] == t.0 && e.0[1..] == Each(tr, Batches(xs[n..], bs), t.1).0;
    }
  }

  /** When every batch comes back unchanged, so does the whole input. */
  lemma {:induction false} PlanKeepsText(tr: Translator, bs: nat, xs: seq<string>, call: nat)
    requires bs > 0 && KeepsText(tr)
    ensures Plan(tr, bs, xs, call).0 == Some(xs)
    decreases |xs|
  {
    if xs != [] {
      var n := Min(bs, |xs|);
      var t := tr(xs[..n], call);
      assert t.0 == xs[..n];
      PlanKeepsText(tr, bs, xs[n..], t.1);
      assert xs[..n] + xs[n..] == xs;
    }
  }

  /** The translator answers every non-empty chunk in place: entry k is unit k
      translated by `g`, or unit k itself. */
  ghost predicate KeepsInPlace(tr: Translator, g: string -> string)
  {
    forall chunk: seq<string>, c: nat :: chunk != [] ==> InPlace(chunk, tr(chunk, c).0, g)
  }

  /** When every batch comes back in place, so does the whole answer. */
  lemma {:induction false} PlanInPlace(tr: Translator, bs: nat, xs: seq<string>, call: nat, g: string -> string)
    requires bs > 0 && KeepsInPlace(tr, g)
    ensures var r := Plan(tr, bs, xs, call).0;
      r.Some? && InPlace(xs, r.value, g)
    decreases |xs|
  {
    if xs != [] {
      var n := Min(bs, |xs|);
      var t := tr(xs[..n], call);
      assert InPlace(xs[..n], t.0, g);
      PlanInPlace(tr, bs, xs[n..], t.1, g);
      InPlaceConcat(xs[..n], xs[n..], t.0, Plan(tr, bs, xs[n..], t.1).0.value, g);
      assert xs[..n] + xs[n..] == xs;
    }
  }

  /** The translator answers every non-empty chunk with its bad units untouched and
      every other unit translated by `g`. */
  ghost predicate KeepsIsolated(tr: Translator, g: string -> string, isBad: string -> bool)
  {
    forall chunk: seq<string>, c: nat :: chunk != [] ==> IsolatedFrom(chunk, tr(chunk, c).0, g, isBad)
  }

  /** When every batch isolates its bad units, so does the whole answer. */
  lemma {:induction false} PlanIsolates(tr: Translator, bs: nat, xs: seq<string>, call: nat,
                                        g: string -> string, isBad: string -> bool)
    requires bs > 0 && KeepsIsolated(tr, g, isBad)
    ensures var r := Plan(tr, bs, xs, call).0;
      r.Some? && IsolatedFrom(xs, r.value, g, isBad)
    decreases |xs|
  {
    if xs != [] {
      var n := Min(bs, |xs|);
      var t := tr(xs[..n], call);
      assert IsolatedFrom(xs[..n], t.0, g, isBad);
      PlanIsolates(tr, bs, xs[n..], t.1, g, isBad);
      IsolatedConcat(xs[..n], xs[n..], t.0, Plan(tr, bs, xs[n..], t.1).0.value, g, isBad);
      assert xs[..n] + xs[n..] == xs;
    }
  }

  /** `translate_chunk` keeps the length of every non-empty chunk. */
  lemma EngineKeepsLength(svc: Service, lang: string, maxRetries: nat)
    ensures KeepsLength(EngineOf(svc, lang, maxRetries))
  {
    forall chunk: seq<string>, c: nat | chunk != []
      ensures |EngineOf(svc, lang, maxRetries)(chunk, c).0| == |chunk|
    {
      EngineAt(svc, lang, maxRetries, chunk, c);
      TranslateLength(RepliesOf(svc, lang), maxRetries, chunk, c);
    }
  }

  /** Whatever the service answers, `mass_translate` returns a list, never `None`,
      with one entry per input fragment. */
  lemma MassTranslateTotal(svc: Service, lang: string, textList: seq<string>, batchSize: nat, maxRetries: nat)
    requires batchSize > 0
    ensures var r := Plan(EngineOf(svc, lang, maxRetries), batchSize, textList, 0).0;
      r.Some? && |r.value| == |textList|
  {
    EngineKeepsLength(svc, lang, maxRetries);
    PlanTotal(EngineOf(svc, lang, maxRetries), batchSize, textList, 0);
  }

  /** Whatever the service answers, the answer of `mass_translate` is the
      translations of its batches, in batch order. */
  lemma MassTranslateBatches(svc: Service, lang: string, textList: seq<string>, batchSize: nat, maxRetries: nat)
    requires batchSize > 0
    ensures var tr := EngineOf(svc, lang, maxRetries);
      Plan(tr, batchSize, textList, 0).0 == Some(Concat(Each(tr, Batches(textList, batchSize), 0).0))
  {
    EngineKeepsLength(svc, lang, maxRetries);
    PlanBatches(EngineOf(svc, lang, maxRetries), batchSize, textList, 0);
  }

  /** Against a service none of whose answers to the prompts for `lang` is accepted,
      `mass_translate` returns its input unchanged. What the service does for other
      languages, or for prompts the pipeline never builds, does not matter. */
  lemma MassTranslateRefused(svc: Service, lang: string, textList: seq<string>, batchSize: nat, maxRetries: nat)
    requires batchSize > 0 && NeverAccepted(RepliesOf(svc, lang))
    ensures Plan(EngineOf(svc, lang, maxRetries), batchSize, textList, 0).0 == Some(textList)
  {
    forall chunk: seq<string>, c: nat | chunk != []
      ensures EngineOf(svc, lang, maxRetries)(chunk, c).0 == chunk
    {
      EngineAt(svc, lang, maxRetries, chunk, c);
      TranslateRefused(RepliesOf(svc, lang), maxRetries, chunk, c);
    }
    PlanKeepsText(EngineOf(svc, lang, maxRetries), batchSize, textList, 0);
  }

  /** Order is kept end to end: when the service's accepted answers translate unit by
      unit with `g`, entry k of the answer of `mass_translate` is fragment k translated,
      or fragment k itself where its attempts ran out. */
  lemma MassTranslateInPlace(svc: Service, lang: string, textList: seq<string>, batchSize: nat, maxRetries: nat,
                             g: string -> string)
    requires batchSize > 0 && TranslatesBy(RepliesOf(svc, lang), g)
    ensures var r := Plan(EngineOf(svc, lang, maxRetries), batchSize, textList, 0).0;
      r.Some? && InPlace(textList, r.value, g)
  {
    forall chunk: seq<string>, c: nat | chunk != []
      ensures InPlace(chunk, EngineOf(svc, lang, maxRetries)(chunk, c).0, g)
    {
      EngineAt(svc, lang, maxRetries, chunk, c);
      TranslateInPlace(RepliesOf(svc, lang), maxRetries, chunk, c, g);
    }
    PlanInPlace(EngineOf(svc, lang, maxRetries), batchSize, textList, 0, g);
  }

  /** A fragment is bad when its normal form is one of `badForms`. The service sees a
      fragment only through its normal form, so this is how a service that chokes on
      certain fragments singles them out. */
  function HasBadForm(badForms: set<string>): string -> bool
  {
    t => Normalise.Normalise(t) in badForms
  }

  lemma HasBadFormAt(badForms: set<string>, t: string)
    ensures HasBadForm(badForms)(t) <==> Normalise.Normalise(t) in badForms
  {
  }

  /** Split correctness end to end: a service that fails on exactly the prompts
      listing a fragment whose normal form is in `badForms`, and otherwise translates
      unit by unit with `g`, leaves exactly those fragments untranslated in the answer
      of `mass_translate`, each at its own position, and translates every other one. */
  lemma MassTranslateIsolates(svc: Service, lang: string, textList: seq<string>, batchSize: nat, maxRetries: nat,
                              g: string -> string, badForms: set<string>)
    requires batchSize > 0 && maxRetries >= 1
    requires TranslatesBy(RepliesOf(svc, lang), g) && AcceptsAllBut(RepliesOf(svc, lang), HasBadForm(badForms))
    ensures var r := Plan(EngineOf(svc, lang, maxRetries), batchSize, textList, 0).0;
      && r.Some? && |r.value| == |textList|
      && forall k :: 0 <= k < |textList| ==>
           r.value[k] == if Normalise.Normalise(textList[k]) in badForms then textList[k] else g(textList[k])
  {
    var isBad := HasBadForm(badForms);
    forall chunk: seq<string>, c: nat | chunk != []
      ensures IsolatedFrom(chunk, EngineOf(svc, lang, maxRetries)(chunk, c).0, g, isBad)
    {
      EngineAt(svc, lang, maxRetries, chunk, c);
      TranslateIsolates(RepliesOf(svc, lang), maxRetries, chunk, c, g, isBad);
    }
    PlanIsolates(EngineOf(svc, lang, maxRetries), batchSize, textList, 0, g, isBad);
  }
}
