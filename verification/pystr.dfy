/**
 * The few Python `str` operations the rule interpreter is built from:
 * `startswith`, `strip`, slicing `s[n:]`, `split` on one character and `in`.
 * Strings are sequences of characters; no encoding is involved.
 */
module PyStr {

  /** `c.isspace()`: the characters `str.strip()` removes. */
  predicate IsSpace(c: char) {
    || c == ' '
    || '\t' <= c <= '\r'
    || '\U{1C}' <= c <= '\U{1F}'
    || c == '\U{85}' || c == '\U{A0}' || c == '\U{1680}'
    || '\U{2000}' <= c <= '\U{200A}'
    || c == '\U{2028}' || c == '\U{2029}' || c == '\U{202F}' || c == '\U{205F}' || c == '\U{3000}'
  }

  /** A non-empty text that neither starts nor ends with whitespace. */
  predicate Trimmed(s: string) {
    s != [] && !IsSpace(s[0]) && !IsSpace(s[|s| - 1])
  }

  /** `s.startswith(p)` */
  predicate StartsWith(s: string, p: string) {
    |p| <= |s| && s[..|p|] == p
  }

  /** The slice `s[n:]`, which is empty when `n` lies past the end. */
  function Drop(s: string, n: nat): (t: string)
    ensures |t| == if n <= |s| then |s| - n else 0
    ensures forall k | 0 <= k < |t| :: t[k] == s[n + k]
  {
    if n <= |s| then s[n..] else []
  }

  /** Number of whitespace characters at the start of `s`. */
  function LeadingSpaces(s: string): (n: nat)
    ensures n <= |s|
    ensures forall k | 0 <= k < n :: IsSpace(s[k])
    ensures n == |s| || !IsSpace(s[n])
  {
    if s != [] && IsSpace(s[0]) then 1 + LeadingSpaces(s[1..]) else 0
  }

  /** Number of whitespace characters at the end of `s`. */
  function TrailingSpaces(s: string): (n: nat)
    ensures n <= |s|
    ensures forall k | |s| - n <= k < |s| :: IsSpace(s[k])
    ensures n == |s| || !IsSpace(s[|s| - 1 - n])
  {
    if s != [] && IsSpace(s[|s| - 1]) then 1 + TrailingSpaces(s[..|s| - 1]) else 0
  }

  /** `s.strip()`: `s` without its leading and trailing whitespace. */
  function Strip(s: string): (t: string)
    ensures |t| <= |s|
  {
    var i := LeadingSpaces(s);
    var j := TrailingSpaces(s[i..]);
    s[i..|s| - j]
  }

  /** What `strip` keeps neither starts nor ends with whitespace, and holds only characters of `s`. */
  lemma StripTrims(s: string)
    ensures var t := Strip(s); t == [] || (!IsSpace(t[0]) && !IsSpace(t[|t| - 1]))
    ensures forall c | c in Strip(s) :: c in s
  {
  }

  /** Index of the first occurrence of `c` in `s`. */
  function IndexOf(s: string, c: char): (i: nat)
    requires c in s
    ensures i < |s| && s[i] == c && c !in s[..i]
  {
    if s[0] == c then 0 else 1 + IndexOf(s[1..], c)
  }

  /** The text before the first `c`, or all of `s` when there is none. */
  function Before(s: string, c: char): (t: string)
    ensures c !in t && StartsWith(s, t)
    ensures |t| == |s| || s[|t|] == c
  {
    if c in s then s[..IndexOf(s, c)] else s
  }

  /** The text after the first `c`. */
  function After(s: string, c: char): (t: string)
    requires c in s
    ensures s == Before(s, c) + [c] + t
    ensures |t| < |s|
  {
    s[IndexOf(s, c) + 1..]
  }

  /** `sep.join(pieces)` */
  function Join(pieces: seq<string>, sep: char): string
    requires pieces != []
  {
    if |pieces| == 1 then pieces[0] else pieces[0] + [sep] + Join(pieces[1..], sep)
  }

  /** `s.count(c)` */
  function Count(s: string, c: char): (n: nat)
    ensures n == 0 <==> c !in s
  {
    if s == [] then 0 else (if s[0] == c then 1 else 0) + Count(s[1..], c)
  }

  /** `s.split(sep)`: one piece more than there are separators, none longer than `s`. */
  function Split(s: string, sep: char): (pieces: seq<string>)
    ensures |pieces| == Count(s, sep) + 1
    ensures forall k | 0 <= k < |pieces| :: |pieces[k]| <= |s|
  {
    if s == [] then [[]]
    else
      var rest := Split(s[1..], sep);
      if s[0] == sep then [[]] + rest
      else [[s[0]] + rest[0]] + rest[1..]
  }

  /** A character absent from a text is absent from every piece of its split. */
  lemma {:induction false} SplitKeepsAbsent(s: string, sep: char, c: char)
    requires c !in s
    ensures forall k | 0 <= k < |Split(s, sep)| :: c !in Split(s, sep)[k]
  {
    if s != [] {
      SplitKeepsAbsent(s[1..], sep, c);
    }
  }

  /** Putting a character in front of the first piece puts it in front of the joined text. */
  lemma JoinPrepend(c: char, pieces: seq<string>, sep: char)
    requires pieces != []
    ensures Join([[c] + pieces[0]] + pieces[1..], sep) == [c] + Join(pieces, sep)
  {
    var moved := [[c] + pieces[0]] + pieces[1..];
    if |pieces| > 1 {
      assert moved[1..] == pieces[1..];
    }
  }

  /** Joining the pieces of a split gives the original text back. */
  lemma {:induction false} JoinSplit(s: string, sep: char)
    ensures Join(Split(s, sep), sep) == s
  {
    if s != [] {
      var rest := Split(s[1..], sep);
      JoinSplit(s[1..], sep);
      if s[0] == sep {
        assert ([[]] + rest)[1..] == rest;
      } else {
        JoinPrepend(s[0], rest, sep);
      }
      assert s == [s[0]] + s[1..];
    }
  }

  /** A split ends its first piece at the first separator and splits the rest afresh. */
  lemma {:induction false} SplitAtFirst(s: string, sep: char)
    requires sep in s
    ensures Split(s, sep) == [s[..IndexOf(s, sep)]] + Split(After(s, sep), sep)
  {
    if s[0] != sep {
      var tail := s[1..];
      SplitAtFirst(tail, sep);
      var i := IndexOf(tail, sep);
      assert IndexOf(s, sep) == i + 1;
      assert [s[0]] + tail[..i] == s[..i + 1];
      assert tail[i + 1..] == s[i + 2..];
    }
  }

  /** The first piece of a split is the text before the first separator. */
  lemma SplitFirstPiece(s: string, sep: char)
    ensures Split(s, sep)[0] == Before(s, sep)
  {
    if sep in s {
      SplitAtFirst(s, sep);
    } else {
      JoinSplit(s, sep);
    }
  }

  /**
   * The first piece of a split is the text before the first separator, and
   * the second is the text between the first and the second separator.
   */
  lemma SplitPieces(s: string, sep: char)
    ensures Split(s, sep)[0] == Before(s, sep)
    ensures sep in s ==> Split(s, sep)[1] == Before(After(s, sep), sep)
  {
    SplitFirstPiece(s, sep);
    if sep in s {
      SplitAtFirst(s, sep);
      SplitFirstPiece(After(s, sep), sep);
    }
  }

  /** Splitting joined pieces that hold no separator gives the pieces back. */
  lemma {:induction false} SplitJoin(pieces: seq<string>, sep: char)
    requires pieces != []
    requires forall k | 0 <= k < |pieces| :: sep !in pieces[k]
    ensures Split(Join(pieces, sep), sep) == pieces
  {
    if |pieces| > 1 {
      var first := pieces[0];
      var tail := Join(pieces[1..], sep);
      var s := Join(pieces, sep);
      assert s == first + [sep] + tail;
      assert s[|first|] == sep && sep !in s[..|first|] by {
        assert s[..|first|] == first;
      }
      IndexOfFirst(s, sep, |first|);
      assert s[..|first|] == first;
      assert After(s, sep) == tail;
      SplitAtFirst(s, sep);
      SplitJoin(pieces[1..], sep);
    } else {
      JoinSplit(pieces[0], sep);
    }
  }

  /** The first occurrence is the only index holding `c` with no `c` before it. */
  lemma IndexOfFirst(s: string, c: char, i: nat)
    requires i < |s| && s[i] == c && c !in s[..i]
    ensures IndexOf(s, c) == i
  {
  }

  /** A text that neither starts nor ends with whitespace is its own strip. */
  lemma StripTrimmed(s: string)
    requires s == [] || (!IsSpace(s[0]) && !IsSpace(s[|s| - 1]))
    ensures Strip(s) == s
  {
  }

  /** Stripping removes whitespace padding on both sides and nothing more. */
  lemma StripPadded(left: string, s: string, right: string)
    requires forall k | 0 <= k < |left| :: IsSpace(left[k])
    requires forall k | 0 <= k < |right| :: IsSpace(right[k])
    requires s != [] && !IsSpace(s[0]) && !IsSpace(s[|s| - 1])
    ensures Strip(left + s + right) == s
  {
    var t := left + s + right;
    var i := LeadingSpaces(t);
    assert t[|left|] == s[0];
    assert i == |left|;
    var j := TrailingSpaces(t[i..]);
    assert t[i..] == s + right;
    assert (s + right)[|s| - 1] == s[|s| - 1];
    assert j == |right|;
    assert t[i..|t| - j] == s;
  }

  /** A character written twice in a row is counted at least twice. */
  lemma {:induction false} CountAdjacent(s: string, c: char, k: nat)
    requires k + 1 < |s| && s[k] == c && s[k + 1] == c
    ensures Count(s, c) >= 2
  {
    if k > 0 {
      CountAdjacent(s[1..], c, k - 1);
    } else {
      assert c in s[1..];
    }
  }
}
