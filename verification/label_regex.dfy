/**
 * The period-label pattern `([A-Za-z]+)\s*\d+.*-\s*([A-Za-z]+)\s*\d+` as
 * Python's `re.match` applies it: anchored at the start of the label and not
 * at its end, with greedy quantifiers and backtracking.
 *
 * `Match` is an explicit recogniser that follows the backtracking order;
 * `Split` is the pattern read as a language (the label starts with nine
 * consecutive pieces of the right classes). `MatchSound` and `MatchComplete`
 * connect the two, and `MatchComplete` also states which hyphen the greedy
 * `.*` settles on: the last one after which the rest of the pattern matches.
 */
module LabelRegex {
  import opened Optional
  import opened Text

  /** What the scripts read from the match object: groups 1 and 2, and the index of the hyphen matched by `-`. */
  datatype LabelMatch = LabelMatch(first: string, second: string, hyphen: nat)

  /**
   * The label begins with: letters s[0..a], whitespace s[a..b], digits
   * s[b..c], anything but a newline s[c..p], a hyphen at p, whitespace
   * s[p+1..e], letters s[e..f], whitespace s[f..g] and digits s[g..h].
   * Groups 1 and 2 are s[0..a] and s[e..f].
   */
  ghost predicate Split(s: string, a: nat, b: nat, c: nat, p: nat, e: nat, f: nat, g: nat, h: nat) {
    && 0 < a <= b < c <= p < e < f <= g < h <= |s|
    && AllIn(s, 0, a, Letter) && AllIn(s, a, b, Space) && AllIn(s, b, c, Digit)
    && AllIn(s, c, p, AnyButNewline) && s[p] == '-'
    && AllIn(s, p + 1, e, Space) && AllIn(s, e, f, Letter)
    && AllIn(s, f, g, Space) && AllIn(s, g, h, Digit)
  }

  /**
   * `\s*([A-Za-z]+)\s*\d+` tried at index t: where its whitespace, letters
   * and whitespace end, the letters being the captured group.
   */
  function TailAt(s: string, t: nat): Option<(nat, nat, nat)>
    requires t <= |s|
  {
    var e := RunEnd(s, t, Space);
    var f := RunEnd(s, e, Letter);
    var g := RunEnd(s, f, Space);
    if e < f && g < |s| && IsDigit(s[g]) then Some((e, f, g)) else None
  }

  /** When `TailAt` succeeds, the text from t on is whitespace, letters, whitespace and a digit. */
  lemma TailAtMeans(s: string, t: nat)
    requires t <= |s| && TailAt(s, t).Some?
    ensures var r := TailAt(s, t).value;
      && t <= r.0 < r.1 <= r.2 < |s| && IsDigit(s[r.2])
      && AllIn(s, t, r.0, Space) && AllIn(s, r.0, r.1, Letter) && AllIn(s, r.1, r.2, Space)
  {
    var e := RunEnd(s, t, Space);
    var f := RunEnd(s, e, Letter);
    RunEndMeans(s, t, Space);
    RunEndMeans(s, e, Letter);
    RunEndMeans(s, f, Space);
  }

  /** A hyphen at p after which the rest of the pattern matches. */
  predicate HyphenAt(s: string, p: nat) {
    p < |s| && s[p] == '-' && TailAt(s, p + 1).Some?
  }

  /** The right-most index in [lo, hi) where `HyphenAt` holds: where the backtracking `.*` stops first. */
  function LastHyphen(s: string, lo: nat, hi: nat): (r: Option<nat>)
    requires hi <= |s|
    ensures r.Some? ==> lo <= r.value < hi
    decreases hi
  {
    if hi <= lo then None
    else if HyphenAt(s, hi - 1) then Some(hi - 1)
    else LastHyphen(s, lo, hi - 1)
  }

  /** The index `LastHyphen` finds qualifies. */
  lemma {:induction false} LastHyphenMeans(s: string, lo: nat, hi: nat)
    requires hi <= |s| && LastHyphen(s, lo, hi).Some?
    ensures HyphenAt(s, LastHyphen(s, lo, hi).value)
    decreases hi
  {
    if lo < hi && !HyphenAt(s, hi - 1) {
      LastHyphenMeans(s, lo, hi - 1);
    }
  }

  /** No index after the one `LastHyphen` finds qualifies. */
  lemma {:induction false} LastHyphenIsLast(s: string, lo: nat, hi: nat, p: nat)
    requires hi <= |s| && lo <= p < hi && HyphenAt(s, p)
    ensures LastHyphen(s, lo, hi).Some? && p <= LastHyphen(s, lo, hi).value
    decreases hi
  {
    if p < hi - 1 && !HyphenAt(s, hi - 1) {
      LastHyphenIsLast(s, lo, hi - 1, p);
    }
  }

  /** Where the pieces of a successful match end: see `Split`. */
  datatype Spans = Spans(a: nat, b: nat, c: nat, p: nat, e: nat, f: nat, g: nat)

  /** The pieces `re.match` settles on, if the label matches at all. */
  function Locate(s: string): Option<Spans> {
    var a := RunEnd(s, 0, Letter);
    var b := RunEnd(s, a, Space);
    var c := RunEnd(s, b, Digit);
    if a == 0 || b == c then None
    else
      var p := LastHyphen(s, c, RunEnd(s, c, AnyButNewline));
      if p.None? || TailAt(s, p.value + 1).None? then None
      else
        var t := TailAt(s, p.value + 1).value;
        Some(Spans(a, b, c, p.value, t.0, t.1, t.2))
  }

  /** `Locate`'s result, given the runs, the hyphen and the tail it finds. */
  lemma LocateIs(s: string, a: nat, b: nat, c: nat, p: nat, t: (nat, nat, nat))
    requires RunEnd(s, 0, Letter) == a && 0 < a && a <= |s|
    requires RunEnd(s, a, Space) == b && b <= |s| && RunEnd(s, b, Digit) == c && b < c <= |s|
    requires LastHyphen(s, c, RunEnd(s, c, AnyButNewline)) == Some(p) && p < |s|
    requires TailAt(s, p + 1) == Some(t)
    ensures Locate(s) == Some(Spans(a, b, c, p, t.0, t.1, t.2))
  {
  }

  /** The pieces `Locate` reports are a way of matching the pattern. */
  lemma LocateSplits(s: string)
    requires Locate(s).Some?
    ensures var m := Locate(s).value; Split(s, m.a, m.b, m.c, m.p, m.e, m.f, m.g, m.g + 1)
  {
    var a := RunEnd(s, 0, Letter);
    var b := RunEnd(s, a, Space);
    var c := RunEnd(s, b, Digit);
    var nl := RunEnd(s, c, AnyButNewline);
    var p := LastHyphen(s, c, nl).value;
    var t := TailAt(s, p + 1).value;
    LocateIs(s, a, b, c, p, t);
    LastHyphenMeans(s, c, nl);
    TailAtMeans(s, p + 1);
    RunEndMeans(s, 0, Letter);
    RunEndMeans(s, a, Space);
    RunEndMeans(s, b, Digit);
    RunEndMeans(s, c, AnyButNewline);
    PiecesSplit(s, a, b, c, nl, p, t.0, t.1, t.2);
  }

  /** Runs of the right classes, a hyphen before the first newline and a matching tail make a `Split`. */
  lemma PiecesSplit(s: string, a: nat, b: nat, c: nat, nl: nat, p: nat, e: nat, f: nat, g: nat)
    requires 0 < a <= b < c <= p < nl <= |s| && s[p] == '-'
    requires AllIn(s, 0, a, Letter) && AllIn(s, a, b, Space) && AllIn(s, b, c, Digit)
    requires AllIn(s, c, nl, AnyButNewline)
    requires p + 1 <= e < f <= g < |s| && IsDigit(s[g])
    requires AllIn(s, p + 1, e, Space) && AllIn(s, e, f, Letter) && AllIn(s, f, g, Space)
    ensures Split(s, a, b, c, p, e, f, g, g + 1)
  {
    assert AllIn(s, c, p, AnyButNewline);
    assert AllIn(s, g, g + 1, Digit);
  }

  /** `re.match(pattern, s)`: groups 1 and 2 and the hyphen, when the label matches. */
  function Match(s: string): Option<LabelMatch> {
    match Locate(s)
    case None => None
    case Some(m) =>
      LocateSplits(s);
      Some(LabelMatch(s[..m.a], s[m.e..m.f], m.p))
  }

  /**
   * Group 1 is a non-empty maximal run of letters at the very start of the
   * label, group 2 a non-empty run of letters.
   */
  lemma MatchTokens(s: string)
    requires Match(s).Some?
    ensures var r := Match(s).value;
      && 0 < |r.first| < |s| && r.first == s[..|r.first|]
      && (forall k | 0 <= k < |r.first| :: IsLetter(r.first[k]))
      && !IsLetter(s[|r.first|])
      && r.second != []
      && (forall k | 0 <= k < |r.second| :: IsLetter(r.second[k]))
  {
    var m := Locate(s).value;
    LocateSplits(s);
    forall k | 0 <= k < m.a
      ensures IsLetter(s[k])
    {
      assert Letter.Has(s[k]);
    }
    forall k | m.e <= k < m.f
      ensures IsLetter(s[k])
    {
      assert Letter.Has(s[k]);
    }
    if m.a < m.b {
      assert Space.Has(s[m.a]);
      SpaceIsNotText(s[m.a]);
    } else {
      assert Digit.Has(s[m.a]);
    }
  }

  /** Whenever `Match` succeeds, the label does match the pattern, with the groups and the hyphen it reports. */
  lemma MatchSound(s: string) returns (a: nat, b: nat, c: nat, e: nat, f: nat, g: nat, h: nat)
    requires Match(s).Some?
    ensures Split(s, a, b, c, Match(s).value.hyphen, e, f, g, h)
    ensures Match(s).value.first == s[..a] && Match(s).value.second == s[e..f]
  {
    var m := Locate(s).value;
    LocateSplits(s);
    a, b, c, e, f, g, h := m.a, m.b, m.c, m.e, m.f, m.g, m.g + 1;
  }

  /** Both tokens of a successful match are pieces of the label (`mes_inicio in texto`). */
  lemma MatchTokensOccur(s: string)
    requires Match(s).Some?
    ensures Contains(s, Match(s).value.first) && Contains(s, Match(s).value.second)
  {
    var m := Locate(s).value;
    LocateSplits(s);
    assert OccursAt(s, Match(s).value.first, 0);
    assert OccursAt(s, Match(s).value.second, m.e);
    ContainsMeans(s, Match(s).value.first);
    ContainsMeans(s, Match(s).value.second);
  }

  /** The pieces `([A-Za-z]+)\s*` of a match are the maximal runs, and its digits lie inside the maximal digit run. */
  lemma HeadRuns(s: string, a: nat, b: nat, c: nat)
    requires 0 < a <= b < c <= |s|
    requires AllIn(s, 0, a, Letter) && AllIn(s, a, b, Space) && AllIn(s, b, c, Digit)
    ensures RunEnd(s, 0, Letter) == a && RunEnd(s, a, Space) == b
    ensures c <= RunEnd(s, b, Digit)
  {
    assert Digit.Has(s[b]);
    NotSpace(s[b]);
    if a < b {
      assert Space.Has(s[a]);
      SpaceIsNotText(s[a]);
    }
    RunEndCovers(s, b, c, Digit);
    RunEndIs(s, 0, a, Letter);
    RunEndIs(s, a, b, Space);
  }

  /** The pieces `\s*([A-Za-z]+)\s*` of a match after its hyphen are the maximal runs, so `TailAt` finds them. */
  lemma TailRuns(s: string, t: nat, e: nat, f: nat, g: nat)
    requires t <= e < f <= g < |s| && IsDigit(s[g])
    requires AllIn(s, t, e, Space) && AllIn(s, e, f, Letter) && AllIn(s, f, g, Space)
    ensures TailAt(s, t) == Some((e, f, g))
  {
    assert Letter.Has(s[e]);
    NotSpace(s[e]);
    NotSpace(s[g]);
    if f < g {
      assert Space.Has(s[f]);
      SpaceIsNotText(s[f]);
    }
    RunEndIs(s, t, e, Space);
    RunEndIs(s, e, f, Letter);
    RunEndIs(s, f, g, Space);
  }

  /** The runs `Locate` computes on a label that matches the pattern as `Split` describes. */
  lemma SplitRuns(s: string, a: nat, b: nat, c: nat, p: nat, e: nat, f: nat, g: nat, h: nat) returns (c': nat)
    requires Split(s, a, b, c, p, e, f, g, h)
    ensures RunEnd(s, 0, Letter) == a && RunEnd(s, a, Space) == b
    ensures RunEnd(s, b, Digit) == c' && b < c' <= p < RunEnd(s, c', AnyButNewline)
    ensures HyphenAt(s, p) && TailAt(s, p + 1) == Some((e, f, g))
  {
    HeadRuns(s, a, b, c);
    c' := RunEnd(s, b, Digit);
    RunEndMeans(s, b, Digit);
    assert c' <= p by {
      assert !Digit.Has(s[p]);
    }
    assert p < RunEnd(s, c', AnyButNewline) by {
      forall k | c' <= k < p + 1
        ensures AnyButNewline.Has(s[k])
      {
        if k < p {
          assert AnyButNewline.Has(s[k]);
        }
      }
      RunEndCovers(s, c', p + 1, AnyButNewline);
    }
    assert Digit.Has(s[g]);
    TailRuns(s, p + 1, e, f, g);
  }

  /** A qualifying hyphen in [lo, hi) means `LastHyphen` finds one at or after it, with its tail. */
  lemma LastHyphenFrom(s: string, lo: nat, hi: nat, p: nat) returns (q: nat, t: (nat, nat, nat))
    requires hi <= |s| && lo <= p < hi && HyphenAt(s, p)
    ensures LastHyphen(s, lo, hi) == Some(q) && p <= q < |s| && TailAt(s, q + 1) == Some(t)
    ensures q == p ==> TailAt(s, p + 1) == Some(t)
  {
    LastHyphenIsLast(s, lo, hi, p);
    q := LastHyphen(s, lo, hi).value;
    LastHyphenMeans(s, lo, hi);
    t := TailAt(s, q + 1).value;
  }

  /** `Match`'s result on a label whose runs and hyphen are known: the last hyphen at or after p decides group 2. */
  lemma MatchFromRuns(s: string, a: nat, b: nat, c': nat, p: nat, e: nat, f: nat, g: nat)
    requires RunEnd(s, 0, Letter) == a && 0 < a && RunEnd(s, a, Space) == b
    requires RunEnd(s, b, Digit) == c' && b < c' <= p < RunEnd(s, c', AnyButNewline)
    requires HyphenAt(s, p) && TailAt(s, p + 1) == Some((e, f, g))
    ensures Match(s).Some? && Match(s).value.first == s[..a]
    ensures p <= Match(s).value.hyphen
    ensures Match(s).value.hyphen == p ==> Match(s).value.second == s[e..f]
  {
    var q, t := LastHyphenFrom(s, c', RunEnd(s, c', AnyButNewline), p);
    LocateIs(s, a, b, c', q, t);
    assert Match(s) == Some(LabelMatch(s[..a], s[t.0..t.1], q));
  }

  /**
   * Whenever the label matches the pattern in some way, `Match` succeeds with
   * the same group 1; its hyphen is the last one possible, and where the two
   * hyphens agree so does group 2.
   */
  lemma MatchComplete(s: string, a: nat, b: nat, c: nat, p: nat, e: nat, f: nat, g: nat, h: nat)
    requires Split(s, a, b, c, p, e, f, g, h)
    ensures Match(s).Some? && Match(s).value.first == s[..a]
    ensures p <= Match(s).value.hyphen
    ensures Match(s).value.hyphen == p ==> Match(s).value.second == s[e..f]
  {
    var c' := SplitRuns(s, a, b, c, p, e, f, g, h);
    MatchFromRuns(s, a, b, c', p, e, f, g);
  }
}
