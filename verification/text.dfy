/**
 * The text primitives the period detector is built on: Python's notion of
 * whitespace (shared by `str.strip()` and the regular-expression class `\s`),
 * the ASCII letter and digit classes of the label pattern, maximal runs of a
 * character class, and substring search (`needle in hay`).
 */
module Text {

  /**
   * Python's `str.isspace()`: tab to carriage return, the four information
   * separators, space, next line, no-break space, the ogham space mark, the
   * spaces U+2000 to U+200A, the line and paragraph separators, the narrow
   * no-break space, the medium mathematical space and the ideographic space.
   */
  predicate IsSpace(c: char) {
    || '\t' <= c <= '\r' || '\U{1C}' <= c <= ' ' || c == '\U{85}' || c == '\U{A0}' || c == '\U{1680}'
    || '\U{2000}' <= c <= '\U{200A}' || c == '\U{2028}' || c == '\U{2029}' || c == '\U{202F}'
    || c == '\U{205F}' || c == '\U{3000}'
  }

  /** Letters, digits and the hyphen are not whitespace. */
  lemma NotSpace(c: char)
    requires IsLetter(c) || IsDigit(c) || c == '-'
    ensures !IsSpace(c)
  {
  }

  /** Whitespace is neither a letter nor a digit. */
  lemma SpaceIsNotText(c: char)
    requires IsSpace(c)
    ensures !IsLetter(c) && !IsDigit(c)
  {
  }

  /** The regular-expression class `[A-Za-z]`. */
  predicate IsLetter(c: char) {
    'A' <= c <= 'Z' || 'a' <= c <= 'z'
  }

  /** The regular-expression class `\d`, restricted to ASCII digits. */
  predicate IsDigit(c: char) {
    '0' <= c <= '9'
  }

  /** The character classes the label pattern uses; `AnyButNewline` is `.`. */
  datatype CharClass = Letter | Space | Digit | AnyButNewline {
    predicate Has(c: char) {
      match this
      case Letter => IsLetter(c)
      case Space => IsSpace(c)
      case Digit => IsDigit(c)
      case AnyButNewline => c != '\n'
    }
  }

  /** Every character of s[i..j] belongs to `cls`. */
  predicate AllIn(s: string, i: nat, j: nat, cls: CharClass)
    requires i <= j <= |s|
  {
    forall k {:trigger cls.Has(s[k])} | i <= k < j :: cls.Has(s[k])
  }

  /** The end of the longest run of `cls` characters starting at `i`. */
  function RunEnd(s: string, i: nat, cls: CharClass): (j: nat)
    requires i <= |s|
    ensures i <= j <= |s|
    decreases |s| - i
  {
    if i < |s| && cls.Has(s[i]) then RunEnd(s, i + 1, cls) else i
  }

  /** `RunEnd` ends a run of `cls` characters, at the end of the text or at a character outside `cls`. */
  lemma {:induction false} RunEndMeans(s: string, i: nat, cls: CharClass)
    requires i <= |s|
    ensures var j := RunEnd(s, i, cls);
      AllIn(s, i, j, cls) && (j == |s| || !cls.Has(s[j]))
    decreases |s| - i
  {
    if i < |s| && cls.Has(s[i]) {
      RunEndMeans(s, i + 1, cls);
    }
  }

  /** A run and a stop character pin the run's end down. */
  lemma {:induction false} RunEndIs(s: string, i: nat, j: nat, cls: CharClass)
    requires i <= j <= |s| && AllIn(s, i, j, cls)
    requires j == |s| || !cls.Has(s[j])
    ensures RunEnd(s, i, cls) == j
    decreases j - i
  {
    if i < j {
      RunEndIs(s, i + 1, j, cls);
    }
  }

  /** A run of `cls` characters from `i` to `j` ends no later than the longest one. */
  lemma {:induction false} RunEndCovers(s: string, i: nat, j: nat, cls: CharClass)
    requires i <= j <= |s| && AllIn(s, i, j, cls)
    ensures j <= RunEnd(s, i, cls)
    decreases j - i
  {
    if i < j {
      assert cls.Has(s[i]);
      RunEndCovers(s, i + 1, j, cls);
    }
  }

  /** `needle` occurs in `hay` starting at index `i`. */
  predicate OccursAt(hay: string, needle: string, i: nat) {
    i + |needle| <= |hay| && hay[i..i + |needle|] == needle
  }

  lemma OccursShift(hay: string, needle: string)
    requires hay != [] && !OccursAt(hay, needle, 0)
    ensures (exists i: nat :: OccursAt(hay[1..], needle, i)) <==> (exists i: nat :: OccursAt(hay, needle, i))
  {
    if i: nat :| OccursAt(hay[1..], needle, i) {
      assert hay[1..][i..i + |needle|] == hay[i + 1..i + 1 + |needle|];
      assert OccursAt(hay, needle, i + 1);
    }
    if i: nat :| OccursAt(hay, needle, i) {
      assert i != 0;
      assert hay[1..][i - 1..i - 1 + |needle|] == hay[i..i + |needle|];
      assert OccursAt(hay[1..], needle, i - 1);
    }
  }

  /** Python's `needle in hay` on strings. */
  function Contains(hay: string, needle: string): bool
    decreases |hay|
  {
    if needle <= hay then true
    else if hay == [] then false
    else Contains(hay[1..], needle)
  }

  /** `needle in hay` holds exactly when `needle` occurs in `hay` at some index. */
  lemma {:induction false} ContainsMeans(hay: string, needle: string)
    ensures Contains(hay, needle) <==> exists i: nat :: OccursAt(hay, needle, i)
    decreases |hay|
  {
    if needle <= hay {
      assert OccursAt(hay, needle, 0);
    } else if hay != [] {
      OccursShift(hay, needle);
      ContainsMeans(hay[1..], needle);
    }
  }

  /** The start of the whitespace run that ends `s[lo..hi]`. */
  function TrailingSpace(s: string, lo: nat, hi: nat): (j: nat)
    requires lo <= hi <= |s|
    ensures lo <= j <= hi
    decreases hi
  {
    if lo < hi && IsSpace(s[hi - 1]) then TrailingSpace(s, lo, hi - 1) else hi
  }

  /** `TrailingSpace` starts a run of whitespace that reaches `hi`, at `lo` or after a character that is not whitespace. */
  lemma {:induction false} TrailingSpaceMeans(s: string, lo: nat, hi: nat)
    requires lo <= hi <= |s|
    ensures var j := TrailingSpace(s, lo, hi);
      AllIn(s, j, hi, Space) && (j == lo || !IsSpace(s[j - 1]))
    decreases hi
  {
    if lo < hi && IsSpace(s[hi - 1]) {
      TrailingSpaceMeans(s, lo, hi - 1);
    }
  }

  /** Python's `str.strip()`. */
  function Strip(s: string): string {
    var i := RunEnd(s, 0, Space);
    s[i..TrailingSpace(s, i, |s|)]
  }

  /**
   * What `str.strip()` returns: empty exactly when the text is all whitespace,
   * otherwise neither starting nor ending with whitespace, and always the piece
   * of the text that begins where its leading whitespace ends and is followed
   * by whitespace only.
   */
  lemma StripMeans(s: string)
    ensures Strip(s) == [] <==> AllIn(s, 0, |s|, Space)
    ensures Strip(s) != [] ==> !IsSpace(Strip(s)[0]) && !IsSpace(Strip(s)[|Strip(s)| - 1])
    ensures OccursAt(s, Strip(s), RunEnd(s, 0, Space))
    ensures AllIn(s, RunEnd(s, 0, Space) + |Strip(s)|, |s|, Space)
  {
    var i := RunEnd(s, 0, Space);
    RunEndMeans(s, 0, Space);
    TrailingSpaceMeans(s, i, |s|);
  }

  /** Python's `sep.join(xs)`. */
  function Join(xs: seq<string>, sep: string): string {
    if xs == [] then "" else if |xs| == 1 then xs[0] else xs[0] + sep + Join(xs[1..], sep)
  }
}
