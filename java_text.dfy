/** The few java.lang.String operations the handlers rely on, with the JDK's semantics:
    `toLowerCase` (restricted to ASCII letters), `trim`, `split` with a one-character
    separator and the default limit, and indexing the first piece of a split. */
module JavaText {

  /** Character.toLowerCase on the ASCII range: 'A'..'Z' map to 'a'..'z', everything else is kept. */
  function LowerChar(c: char): char {
    if 'A' <= c <= 'Z' then (c as int + 32) as char else c
  }

  /** String.toLowerCase, ASCII letters only. */
  function Lower(s: string): (r: string)
    ensures |r| == |s|
    ensures forall i | 0 <= i < |s| :: r[i] == LowerChar(s[i])
  {
    if s == [] then [] else [LowerChar(s[0])] + Lower(s[1..])
  }

  /** Lower-casing is determined character by character. */
  lemma LowerPointwise(s: string, t: string)
    requires |s| == |t| && forall i | 0 <= i < |s| :: LowerChar(s[i]) == t[i]
    ensures Lower(s) == t
  {
  }

  /** Case-insensitive comparison over ASCII letters. */
  predicate EqualsIgnoreCase(a: string, b: string) {
    Lower(a) == Lower(b)
  }

  /** The leading part of String.trim: drop every character up to and including U+0020 at the front. */
  function TrimStart(s: string): (r: string)
    ensures |r| <= |s| && r == s[|s| - |r|..]
    ensures forall k | 0 <= k < |s| - |r| :: s[k] <= ' '
    ensures r == [] || r[0] > ' '
  {
    if s != [] && s[0] <= ' ' then TrimStart(s[1..]) else s
  }

  /** The trailing part of String.trim: drop every character up to and including U+0020 at the end. */
  function TrimEnd(s: string): (r: string)
    ensures |r| <= |s| && r == s[..|r|]
    ensures forall k | |r| <= k < |s| :: s[k] <= ' '
    ensures r == [] || r[|r| - 1] > ' '
  {
    if s != [] && s[|s| - 1] <= ' ' then TrimEnd(s[..|s| - 1]) else s
  }

  /** String.trim: remove the characters up to U+0020 at both ends. */
  function Trim(s: string): (r: string)
    ensures |r| <= |s|
    ensures r == [] || (r[0] > ' ' && r[|r| - 1] > ' ')
  {
    TrimEnd(TrimStart(s))
  }

  /** Trim keeps one contiguous slice of its input, drops only characters up to U+0020 around it,
      and the slice neither starts nor ends with such a character. */
  lemma TrimSlice(s: string) returns (i: nat, j: nat)
    ensures i <= j <= |s| && Trim(s) == s[i..j]
    ensures forall k | 0 <= k < i :: s[k] <= ' '
    ensures forall k | j <= k < |s| :: s[k] <= ' '
    ensures i < j ==> s[i] > ' ' && s[j - 1] > ' '
  {
    var t := TrimStart(s);
    i := |s| - |t|;
    j := i + |TrimEnd(t)|;
    PrefixOfSuffix(s, i, TrimEnd(t));
  }

  /** A prefix `r` of the suffix of `s` from `i` is the slice of `s` from `i`, and the rest of
      that suffix lies at the end of `s`. */
  lemma PrefixOfSuffix(s: string, i: nat, r: string)
    requires i <= |s| && |r| <= |s| - i && r == s[i..][..|r|]
    ensures r == s[i..i + |r|]
    ensures forall k | i + |r| <= k < |s| :: s[k] == s[i..][k - i]
  {
  }

  /** The characters before the first occurrence of `sep` (all of `s` when there is none). */
  function UntilFirst(s: string, sep: char): (r: string)
    ensures r <= s && sep !in r
    ensures |r| == |s| || s[|r|] == sep
  {
    if s == [] || s[0] == sep then [] else [s[0]] + UntilFirst(s[1..], sep)
  }

  /** The three facts UntilFirst promises determine its result. */
  lemma UntilFirstUnique(s: string, sep: char, k: nat)
    requires k <= |s| && sep !in s[..k]
    requires k == |s| || s[k] == sep
    ensures UntilFirst(s, sep) == s[..k]
  {
  }

  /** Without a separator, everything comes before the first one. */
  lemma UntilFirstAbsent(s: string, sep: char)
    requires sep !in s
    ensures UntilFirst(s, sep) == s
  {
    UntilFirstUnique(s, sep, |s|);
  }

  /** A separator right after `head` ends the first piece there. */
  lemma UntilFirstBefore(head: string, tail: string, sep: char)
    requires sep !in head && tail != [] && tail[0] == sep
    ensures UntilFirst(head + tail, sep) == head
  {
    assert (head + tail)[..|head|] == head;
    UntilFirstUnique(head + tail, sep, |head|);
  }

  /** Trim leaves a string alone that neither starts nor ends with a character up to U+0020. */
  lemma TrimNothing(s: string)
    requires s == [] || (s[0] > ' ' && s[|s| - 1] > ' ')
    ensures Trim(s) == s
  {
  }

  predicate OnlySeparators(s: string, sep: char) {
    forall i | 0 <= i < |s| :: s[i] == sep
  }

  /** Every piece of `s` between occurrences of `sep`, empty pieces included. */
  function Pieces(s: string, sep: char): (ps: seq<string>)
    ensures |ps| >= 1
    ensures forall k | 0 <= k < |ps| :: sep !in ps[k]
  {
    if s == [] then [[]]
    else
      var rest := Pieces(s[1..], sep);
      if s[0] == sep then [[]] + rest else [[s[0]] + rest[0]] + rest[1..]
  }

  /** The step of String.split with limit 0 that removes the trailing empty strings. */
  function DropTrailingEmpty(ps: seq<string>): (r: seq<string>)
    ensures r <= ps
    ensures r == [] || r[|r| - 1] != []
    ensures forall k | |r| <= k < |ps| :: ps[k] == []
  {
    if ps == [] then []
    else if ps[|ps| - 1] == [] then DropTrailingEmpty(ps[..|ps| - 1])
    else ps
  }

  /** String.split(sep) for a one-character, non-meta separator: the input itself when the separator
      does not occur, otherwise its pieces without the trailing empty ones. */
  function Split(s: string, sep: char): (r: seq<string>)
    ensures forall k | 0 <= k < |r| :: sep !in r[k]
    ensures sep in s ==> r == [] || r[|r| - 1] != []
  {
    if sep !in s then [s] else DropTrailingEmpty(Pieces(s, sep))
  }

  lemma {:induction false} FirstPiece(s: string, sep: char)
    ensures Pieces(s, sep)[0] == UntilFirst(s, sep)
  {
    if s != [] {
      FirstPiece(s[1..], sep);
    }
  }

  lemma {:induction false} AllPiecesEmpty(s: string, sep: char)
    ensures (forall k | 0 <= k < |Pieces(s, sep)| :: Pieces(s, sep)[k] == []) <==> OnlySeparators(s, sep)
  {
    if s != [] {
      AllPiecesEmpty(s[1..], sep);
      var rest := Pieces(s[1..], sep);
      var ps := Pieces(s, sep);
      if s[0] == sep {
        assert ps == [[]] + rest;
        if OnlySeparators(s, sep) {
          assert OnlySeparators(s[1..], sep) by {
            forall i | 0 <= i < |s[1..]| ensures s[1..][i] == sep { assert s[1..][i] == s[i + 1]; }
          }
        } else {
          var i :| 0 <= i < |s| && s[i] != sep;
          assert s[1..][i - 1] == s[i];
          assert !OnlySeparators(s[1..], sep);
          var k :| 0 <= k < |rest| && rest[k] != [];
          assert ps[k + 1] == rest[k];
        }
      } else {
        assert ps[0] != [];
        assert !OnlySeparators(s, sep);
      }
    }
  }

  /** What `split(sep)[0]` finds: nothing exactly when `s` is non-empty and made only of separators,
      otherwise the text before the first separator. */
  lemma SplitHead(s: string, sep: char)
    ensures Split(s, sep) == [] <==> s != [] && OnlySeparators(s, sep)
    ensures Split(s, sep) != [] ==> Split(s, sep)[0] == UntilFirst(s, sep)
  {
    if sep !in s {
      if s != [] {
        assert s[0] in s;
      }
      UntilFirstUnique(s, sep, |s|);
    } else {
      var ps := Pieces(s, sep);
      AllPiecesEmpty(s, sep);
      FirstPiece(s, sep);
      var r := DropTrailingEmpty(ps);
      if r != [] {
        assert r[0] == ps[0];
      }
    }
  }
}
