/** The first half of one attempt on a chunk: every fragment is normalised into a
    bounded unit free of '\n' and '\r' (main.py:45-50), and the cleaned units are laid out as
    the numbered listing that ends the prompt (main.py:73-74). */
module Normalise {
  import opened Strings
  import opened Comprehension

  /** A normalised fragment longer than this is cut (main.py:48). */
  const MaxFragment: nat := 300

  /** What is appended to a cut fragment (main.py:49). */
  const Ellipsis: string := "..."

  /** `t.replace('\n', ' ').replace('\r', '')`: newlines become spaces, carriage
      returns vanish. */
  function Flatten(t: string): (r: string)
    ensures '\n' !in r && '\r' !in r
  {
    var u := ReplaceChar(t, '\n', ' ');
    var r := DeleteChar(u, '\r');
    assert '\n' !in r by {
      DeleteCharCounts(u, '\r');
      assert multiset(r)['\n'] == multiset(u)['\n'] == 0;
    }
    r
  }

  /** The normalised form of one fragment (main.py:47-49). */
  function Normalise(t: string): (r: string)
    ensures |r| <= MaxFragment + |Ellipsis|
  {
    var u := Strip(Flatten(t));
    if |u| > MaxFragment then u[..MaxFragment] + Ellipsis else u
  }

  /** An element absent from a sequence and from a suffix is absent from any
      prefix of the sequence followed by that suffix. */
  lemma AbsentFromCut<T>(u: seq<T>, n: nat, e: seq<T>, x: T)
    requires n <= |u| && x !in u && x !in e
    ensures x !in u[..n] + e
  {
    assert forall k :: 0 <= k < n ==> u[..n][k] == u[k];
  }

  /** A normalised fragment holds no '\n' or '\r' and no whitespace at its start; it is cut
      exactly when the flattened, stripped text is longer than the bound, and it is
      empty exactly when the flattened text was all whitespace. */
  lemma NormaliseShape(t: string)
    ensures var r := Normalise(t);
      '\n' !in r && '\r' !in r
      && (|r| > MaxFragment <==> |Strip(Flatten(t))| > MaxFragment)
      && (r == [] <==> AllSpace(Flatten(t)))
      && (r == [] || !IsSpace(r[0]))
  {
    var f := Flatten(t);
    var u := Strip(f);
    var r := Normalise(t);
    assert '\n' !in u && '\r' !in u by {
      StripAbsent(f, '\n');
      StripAbsent(f, '\r');
    }
    if |u| > MaxFragment {
      assert r == u[..MaxFragment] + Ellipsis;
      AbsentFromCut(u, MaxFragment, Ellipsis, '\n');
      AbsentFromCut(u, MaxFragment, Ellipsis, '\r');
      assert r[0] == u[0];
    } else {
      assert r == u;
    }
  }

  /** The cleaned chunk: the normal form of each fragment, in chunk order. */
  function Cleaned(chunk: seq<string>): (r: seq<string>)
    ensures |r| == |chunk|
  {
    Map(chunk, Normalise)
  }

  /** The cleaned chunk is as long as the chunk, and position k holds the normal form
      of fragment k. */
  lemma CleanedAt(chunk: seq<string>, k: nat)
    requires k < |chunk|
    ensures |Cleaned(chunk)| == |chunk| && Cleaned(chunk)[k] == Normalise(chunk[k])
  {
    MapAt(chunk, Normalise, k);
  }

  /** A string already flat, stripped and short, or cut with the ellipsis, is left alone. */
  lemma NormalFormFixed(r: string)
    requires Flatten(r) == r && Strip(r) == r
    requires |r| <= MaxFragment || r[..MaxFragment] + Ellipsis == r
    ensures Normalise(r) == r
  {
  }

  /** A stripped text cut to the bound, with the ellipsis after it, is still stripped
      and keeps its cut form. */
  lemma CutForm(u: string)
    requires IsStripped(u) && |u| > MaxFragment
    ensures var r := u[..MaxFragment] + Ellipsis;
      IsStripped(r) && r[..MaxFragment] + Ellipsis == r
  {
    var r := u[..MaxFragment] + Ellipsis;
    assert r[0] == u[0] && r[|r| - 1] == '.';
    assert r[..MaxFragment] == u[..MaxFragment];
  }

  /** A normalised fragment is stripped, and is either short or a cut of 300
      characters followed by the ellipsis. */
  lemma NormaliseForm(t: string)
    ensures var r := Normalise(t);
      IsStripped(r) && (|r| <= MaxFragment || r[..MaxFragment] + Ellipsis == r)
  {
    var u := Strip(Flatten(t));
    if |u| > MaxFragment {
      CutForm(u);
    }
  }

  /** A normalised fragment is its own normal form: normalising it again changes
      nothing, even when it was cut and carries the ellipsis. */
  lemma NormaliseIdempotent(t: string)
    ensures Normalise(Normalise(t)) == Normalise(t)
  {
    var r := Normalise(t);
    assert Flatten(r) == r by {
      NormaliseShape(t);
      ReplaceAbsent(r, '\n', ' ');
      DeleteAbsent(r, '\r');
    }
    assert Strip(r) == r && (|r| <= MaxFragment || r[..MaxFragment] + Ellipsis == r) by {
      NormaliseForm(t);
      StripFixedPoints(r);
    }
    NormalFormFixed(r);
  }

  /** Flattening turns the one newline between two newline-free parts into a space. */
  lemma FlattenJoin(p: string, q: string)
    requires '\n' !in p && '\n' !in q && '\r' !in p && '\r' !in q
    ensures Flatten(p + "\n" + q) == p + " " + q
  {
    ReplaceAbsent(p, '\n', ' ');
    ReplaceAbsent(q, '\n', ' ');
    assert ReplaceChar("\n", '\n', ' ') == " ";
    ReplaceAppend(p + "\n", q, '\n', ' ');
    ReplaceAppend(p, "\n", '\n', ' ');
    DeleteAbsent(p + " " + q, '\r');
  }

  lemma FlattenTwoLines(a: string, x: string, y: string, b: string)
    requires '\n' !in a + x && '\n' !in y + b && '\r' !in a + x && '\r' !in y + b
    ensures Flatten(a + x + "\n" + y + b) == a + (x + " " + y) + b
  {
    assert a + x + "\n" + y + b == (a + x) + "\n" + (y + b);
    FlattenJoin(a + x, y + b);
    assert (a + x) + " " + (y + b) == a + (x + " " + y) + b;
  }

  /** A short fragment spread over two lines, with whitespace around it, becomes one
      line with a space where the newline was. */
  lemma NormaliseTwoLines(a: string, x: string, y: string, b: string)
    requires AllSpace(a) && AllSpace(b)
    requires '\n' !in a && '\n' !in x && '\n' !in y && '\n' !in b
    requires '\r' !in a && '\r' !in x && '\r' !in y && '\r' !in b
    requires IsStripped(x + " " + y) && |x + " " + y| <= MaxFragment
    ensures Normalise(a + x + "\n" + y + b) == x + " " + y
  {
    FlattenTwoLines(a, x, y, b);
    StripOfPadded(a, x + " " + y, b);
  }

  /** The cleaning loop of main.py:45-50: the cleaned chunk holds the normal form of
      each fragment, in the same order. */
  method CleanChunk(chunk: seq<string>) returns (cleaned: seq<string>)
    ensures cleaned == Cleaned(chunk)
  {
    cleaned := [];
    for i := 0 to |chunk|
      invariant cleaned == Map(chunk[..i], Normalise)
    {
      MapSnoc(chunk, i, Normalise);
      cleaned := cleaned + [Normalise(chunk[i])];
    }
    assert chunk[..|chunk|] == chunk;
  }

  // ------------------------------------------------------------------
  // The numbered listing at the end of the prompt

  /** Line `idx` of the listing, `f"{idx}. {text}"` without its "\n". */
  function ListingLine(idx: nat, text: string): string
  {
    NatToString(idx) + ". " + text
  }

  /** The lines of the listing, numbered from 1 in chunk order. */
  function ListingLines(cleaned: seq<string>): (ls: seq<string>)
    ensures |ls| == |cleaned|
  {
    seq(|cleaned|, k requires 0 <= k < |cleaned| => ListingLine(k + 1, cleaned[k]))
  }

  /** The text appended to the prompt for a cleaned chunk. */
  function Listing(cleaned: seq<string>): string
  {
    Terminated(ListingLines(cleaned))
  }

  lemma {:induction false} TerminatedSnoc(ls: seq<string>, x: string)
    ensures Terminated(ls + [x]) == Terminated(ls) + x + "\n"
    decreases |ls|
  {
    if ls == [] {
      assert Terminated([x]) == x + "\n" + Terminated([]);
    } else {
      assert (ls + [x])[1..] == ls[1..] + [x];
      TerminatedSnoc(ls[1..], x);
    }
  }

  /** The prompt-building loop of main.py:73-74 produces the listing. */
  method BuildListing(cleaned: seq<string>) returns (listing: string)
    ensures listing == Listing(cleaned)
  {
    listing := "";
    for i := 0 to |cleaned|
      invariant listing == Listing(cleaned[..i])
    {
      var line := NatToString(i + 1) + ". " + cleaned[i] + "\n";
      assert ListingLines(cleaned[..i + 1]) == ListingLines(cleaned[..i]) + [ListingLine(i + 1, cleaned[i])];
      TerminatedSnoc(ListingLines(cleaned[..i]), ListingLine(i + 1, cleaned[i]));
      listing := listing + line;
    }
    assert cleaned[..|cleaned|] == cleaned;
  }

  lemma ListingLineNoBreak(idx: nat, text: string)
    requires NoLineBreak(text)
    ensures NoLineBreak(ListingLine(idx, text))
  {
    var d := NatToString(idx);
    DigitsNoBreak(d);
    assert NoLineBreak(". ");
    NoLineBreakAppend(d, ". ");
    NoLineBreakAppend(d + ". ", text);
  }

  lemma ListingLinesNoBreak(cleaned: seq<string>)
    requires forall k :: 0 <= k < |cleaned| ==> NoLineBreak(cleaned[k])
    ensures forall k :: 0 <= k < |cleaned| ==> NoLineBreak(ListingLines(cleaned)[k])
  {
    forall k | 0 <= k < |cleaned| ensures NoLineBreak(ListingLines(cleaned)[k]) {
      ListingLineNoBreak(k + 1, cleaned[k]);
    }
  }

  /** When no unit holds a line boundary, the service is shown exactly one line per
      unit, line k being unit k prefixed by its 1-based number. */
  lemma ListingLayout(cleaned: seq<string>)
    requires forall k :: 0 <= k < |cleaned| ==> NoLineBreak(cleaned[k])
    ensures Lines(Listing(cleaned)) == ListingLines(cleaned)
    ensures forall k :: 0 <= k < |cleaned| ==> Lines(Listing(cleaned))[k] == NatToString(k + 1) + ". " + cleaned[k]
  {
    ListingLinesNoBreak(cleaned);
    LinesOfTerminated(ListingLines(cleaned));
  }
}
