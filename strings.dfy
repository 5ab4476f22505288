/**
 * The parts of .NET's System.String and System.Char that the card parser calls:
 * Char.IsWhiteSpace, Char.IsDigit, String.Trim, String.ToLower, String.Contains,
 * String.Split(char), String.Join(char, ...) and Enumerable.Last.
 * Strings are sequences of Unicode scalar values.
 */
module Strings {

  /** Char.IsWhiteSpace: the 25 characters of the Unicode White_Space property. */
  predicate IsWhiteSpace(c: char) {
    || ('\t' <= c <= '\r')
    || c == ' '
    || c == '\U{85}'
    || c == '\U{A0}'
    || c == '\U{1680}'
    || ('\U{2000}' <= c <= '\U{200A}')
    || c == '\U{2028}'
    || c == '\U{2029}'
    || c == '\U{202F}'
    || c == '\U{205F}'
    || c == '\U{3000}'
  }

  /**
   * The two white-space sets the parser strips: Char.IsWhiteSpace, used by
   * String.Trim(), and the narrower set that NumberStyles.AllowLeadingWhite and
   * AllowTrailingWhite skip (space and '\t' through '\r').
   */
  datatype WhiteSet = AnyWhiteSpace | NumberWhite

  predicate IsWhite(ws: WhiteSet, c: char) {
    match ws
    case AnyWhiteSpace => IsWhiteSpace(c)
    case NumberWhite => c == ' ' || '\t' <= c <= '\r'
  }

  /** Char.IsDigit, restricted to the ASCII digits. */
  predicate IsDigit(c: char) {
    '0' <= c <= '9'
  }

  /** Enumerable.All(s, char.IsDigit); true of the empty string. */
  predicate AllDigits(s: string) {
    forall k :: 0 <= k < |s| ==> IsDigit(s[k])
  }

  /** Every character of s satisfies ws. */
  predicate AllWith(s: string, ws: WhiteSet) {
    forall k :: 0 <= k < |s| ==> IsWhite(ws, s[k])
  }

  /** Removes the longest prefix of characters in ws. */
  function TrimStartWith(s: string, ws: WhiteSet): (r: string)
    ensures |r| <= |s|
  {
    if s != [] && IsWhite(ws, s[0]) then TrimStartWith(s[1..], ws) else s
  }

  /** Removes the longest suffix of characters in ws. */
  function TrimEndWith(s: string, ws: WhiteSet): (r: string)
    ensures |r| <= |s|
  {
    if s != [] && IsWhite(ws, s[|s| - 1]) then TrimEndWith(s[..|s| - 1], ws) else s
  }

  /** The front trim is a suffix of s, only ws-characters precede it, and it does not start with one. */
  lemma {:induction false} TrimStartFacts(s: string, ws: WhiteSet)
    ensures var r := TrimStartWith(s, ws);
            && r == s[|s| - |r|..]
            && (forall k :: 0 <= k < |s| - |r| ==> IsWhite(ws, s[k]))
            && (r != [] ==> !IsWhite(ws, r[0]))
  {
    if s != [] && IsWhite(ws, s[0]) {
      TrimStartFacts(s[1..], ws);
      var r := TrimStartWith(s, ws);
      forall k | 0 < k < |s| - |r| ensures IsWhite(ws, s[k]) {
        assert s[k] == s[1..][k - 1];
      }
    }
  }

  /** The back trim is a prefix of s, only ws-characters follow it, and it does not end with one. */
  lemma {:induction false} TrimEndFacts(s: string, ws: WhiteSet)
    ensures var r := TrimEndWith(s, ws);
            && r == s[..|r|]
            && (forall k :: |r| <= k < |s| ==> IsWhite(ws, s[k]))
            && (r != [] ==> !IsWhite(ws, r[|r| - 1]))
  {
    if s != [] && IsWhite(ws, s[|s| - 1]) {
      TrimEndFacts(s[..|s| - 1], ws);
      var r := TrimEndWith(s, ws);
      forall k | |r| <= k < |s| - 1 ensures IsWhite(ws, s[k]) {
        assert s[k] == s[..|s| - 1][k];
      }
    }
  }

  /**
   * Removes every leading and trailing character in ws: what is left neither
   * starts nor ends with one.
   */
  function TrimWith(s: string, ws: WhiteSet): (r: string)
    ensures |r| <= |s|
    ensures r != [] ==> !IsWhite(ws, r[0]) && !IsWhite(ws, r[|r| - 1])
  {
    var t := TrimStartWith(s, ws);
    TrimStartFacts(s, ws);
    TrimEndFacts(t, ws);
    TrimEndWith(t, ws)
  }

  /**
   * The trim is the slice of s that starts after the leading ws-characters;
   * only ws-characters lie outside it.
   */
  lemma TrimWithIsSlice(s: string, ws: WhiteSet)
    ensures var i := |s| - |TrimStartWith(s, ws)|;
            var r := TrimWith(s, ws);
            && i + |r| <= |s| && r == s[i..i + |r|]
            && (forall k :: 0 <= k < i ==> IsWhite(ws, s[k]))
            && (forall k :: i + |r| <= k < |s| ==> IsWhite(ws, s[k]))
  {
    var t := TrimStartWith(s, ws);
    var r := TrimEndWith(t, ws);
    var i := |s| - |t|;
    TrimStartFacts(s, ws);
    TrimEndFacts(t, ws);
    assert r == s[i..i + |r|] by {
      assert t == s[i..] && r == t[..|r|];
    }
    forall k | i + |r| <= k < |s| ensures IsWhite(ws, s[k]) {
      assert s[k] == t[k - i];
    }
  }

  /** String.Trim(): strips Char.IsWhiteSpace characters from both ends. */
  function Trim(s: string): string {
    TrimWith(s, AnyWhiteSpace)
  }

  /** Char.ToLower, restricted to the ASCII letters. */
  function ToLowerChar(c: char): char {
    if 'A' <= c <= 'Z' then (c as int - 'A' as int + 'a' as int) as char else c
  }

  /** String.ToLower(), character by character. */
  function ToLower(s: string): string {
    if s == [] then [] else [ToLowerChar(s[0])] + ToLower(s[1..])
  }

  /** Lower-casing keeps the length and maps every character on its own. */
  lemma {:induction false} ToLowerAt(s: string)
    ensures |ToLower(s)| == |s|
    ensures forall k :: 0 <= k < |s| ==> ToLower(s)[k] == ToLowerChar(s[k])
  {
    if s != [] {
      ToLowerAt(s[1..]);
      forall k | 0 < k < |s| ensures ToLower(s)[k] == ToLowerChar(s[k]) {
        assert s[1..][k - 1] == s[k];
      }
    }
  }

  /** Lower-casing a concatenation lower-cases each part. */
  lemma {:induction false} ToLowerAppend(a: string, b: string)
    ensures ToLower(a + b) == ToLower(a) + ToLower(b)
  {
    if a == [] {
      assert a + b == b;
    } else {
      assert (a + b)[0] == a[0] && (a + b)[1..] == a[1..] + b;
      ToLowerAppend(a[1..], b);
    }
  }

  /** sub occurs in s starting at index i. */
  predicate OccursAt(s: string, sub: string, i: int) {
    0 <= i <= |s| - |sub| && s[i..i + |sub|] == sub
  }

  /** String.Contains(string), ordinal comparison. */
  predicate Contains(s: string, sub: string) {
    exists i :: 0 <= i <= |s| - |sub| && OccursAt(s, sub, i)
  }

  /** String.Join(char, parts): the parts with one separator between neighbours. */
  function Join(parts: seq<string>, sep: char): string {
    if parts == [] then []
    else if |parts| == 1 then parts[0]
    else parts[0] + [sep] + Join(parts[1..], sep)
  }

  /**
   * String.Split(char) with no options: the maximal separator-free pieces,
   * empty pieces kept, so there is always at least one.
   */
  function Split(s: string, sep: char): (r: seq<string>)
    ensures |r| >= 1
  {
    if s == [] then [[]]
    else
      var rest := Split(s[1..], sep);
      if s[0] == sep then [[]] + rest
      else [[s[0]] + rest[0]] + rest[1..]
  }

  /** No piece of a split holds the separator. */
  lemma {:induction false} SplitPiecesWithoutSeparator(s: string, sep: char)
    ensures forall k :: 0 <= k < |Split(s, sep)| ==> sep !in Split(s, sep)[k]
  {
    if s != [] {
      SplitPiecesWithoutSeparator(s[1..], sep);
    }
  }

  /** Enumerable.Last on a non-empty sequence. */
  function Last<T>(xs: seq<T>): T
    requires xs != []
  {
    xs[|xs| - 1]
  }

  /** Joining the pieces again gives back the split string. */
  lemma {:induction false} JoinSplit(s: string, sep: char)
    ensures Join(Split(s, sep), sep) == s
  {
    if s != [] {
      var rest := Split(s[1..], sep);
      JoinSplit(s[1..], sep);
      if s[0] == sep {
        assert ([[]] + rest)[1..] == rest;
      } else if |rest| > 1 {
        var r := [[s[0]] + rest[0]] + rest[1..];
        assert r[1..] == rest[1..];
        assert Join(rest, sep) == rest[0] + [sep] + Join(rest[1..], sep);
      }
    }
  }

  /** A string without the separator splits into itself alone. */
  lemma {:induction false} SplitWithoutSeparator(s: string, sep: char)
    requires sep !in s
    ensures Split(s, sep) == [s]
  {
    if s != [] {
      SplitWithoutSeparator(s[1..], sep);
      assert [s[0]] + s[1..] == s;
    }
  }

  /** A separator-free head followed by a separator splits off as the first piece. */
  lemma {:induction false} SplitAtFirstSeparator(a: string, b: string, sep: char)
    requires sep !in a
    ensures Split(a + [sep] + b, sep) == [a] + Split(b, sep)
  {
    var s := a + [sep] + b;
    if a == [] {
      assert s[1..] == b;
    } else {
      assert s[1..] == a[1..] + [sep] + b;
      SplitAtFirstSeparator(a[1..], b, sep);
      assert [a[0]] + a[1..] == a;
    }
  }

  /** Splitting a join of separator-free parts gives back the parts. */
  lemma {:induction false} SplitJoin(parts: seq<string>, sep: char)
    requires |parts| >= 1
    requires forall k :: 0 <= k < |parts| ==> sep !in parts[k]
    ensures Split(Join(parts, sep), sep) == parts
  {
    if |parts| == 1 {
      SplitWithoutSeparator(parts[0], sep);
    } else {
      SplitJoin(parts[1..], sep);
      SplitAtFirstSeparator(parts[0], Join(parts[1..], sep), sep);
      assert [parts[0]] + parts[1..] == parts;
    }
  }

  /** Joining all but the last part, then adding the separator and the last part, is the whole join. */
  lemma {:induction false} JoinAllButLast(parts: seq<string>, sep: char)
    requires |parts| >= 2
    ensures Join(parts, sep) == Join(parts[..|parts| - 1], sep) + [sep] + Last(parts)
  {
    if |parts| > 2 {
      JoinAllButLast(parts[1..], sep);
      assert parts[1..][..|parts| - 2] == parts[..|parts| - 1][1..];
    }
  }

  /**
   * The last piece of a split is the longest separator-free suffix: it is a
   * suffix, holds no separator, and is either all of s or preceded by a separator.
   */
  lemma LastPieceIsSuffix(s: string, sep: char)
    ensures var p := Last(Split(s, sep));
            && |p| <= |s| && p == s[|s| - |p|..] && sep !in p
            && (|p| < |s| ==> s[|s| - |p| - 1] == sep)
  {
    var parts := Split(s, sep);
    JoinSplit(s, sep);
    SplitPiecesWithoutSeparator(s, sep);
    assert sep !in Last(parts);
    if |parts| >= 2 {
      JoinAllButLast(parts, sep);
      var init := Join(parts[..|parts| - 1], sep);
      assert s == init + [sep] + Last(parts);
      assert s[|init| + 1..] == Last(parts);
    }
  }

  /** The last piece is exactly what follows the last separator. */
  lemma LastPieceAfterLastSeparator(s: string, sep: char, i: int)
    requires 0 <= i < |s| && s[i] == sep && sep !in s[i + 1..]
    ensures Last(Split(s, sep)) == s[i + 1..]
  {
    LastPieceIsSuffix(s, sep);
  }

  /** The last piece of the split of a string without the separator is the string itself. */
  lemma LastPieceWithoutSeparator(s: string, sep: char)
    requires sep !in s
    ensures Last(Split(s, sep)) == s
  {
    SplitWithoutSeparator(s, sep);
  }

  /** A split into more than one piece happens exactly when the separator occurs. */
  lemma SplitSeveralIff(s: string, sep: char)
    ensures |Split(s, sep)| >= 2 <==> sep in s
  {
    if sep in s {
      JoinSplit(s, sep);
    } else {
      SplitWithoutSeparator(s, sep);
    }
  }

  /** A string that ends in the separator has an empty last piece. */
  lemma LastPieceAfterFinalSeparator(s: string, sep: char)
    requires s != [] && s[|s| - 1] == sep
    ensures Last(Split(s, sep)) == []
  {
    LastPieceAfterLastSeparator(s, sep, |s| - 1);
  }

  /** A string that neither starts nor ends with a ws-character is its own trim. */
  lemma TrimKeepsUntrimmable(s: string, ws: WhiteSet)
    requires s != [] && !IsWhite(ws, s[0]) && !IsWhite(ws, s[|s| - 1])
    ensures TrimWith(s, ws) == s
  {
    assert TrimStartWith(s, ws) == s;
  }

  /** A string made only of ws-characters trims, from the front, to nothing. */
  lemma {:induction false} TrimStartAllWith(s: string, ws: WhiteSet)
    requires AllWith(s, ws)
    ensures TrimStartWith(s, ws) == []
  {
    if s != [] {
      TrimStartAllWith(s[1..], ws);
    }
  }

  /** A ws-prefix does not change the front trim. */
  lemma {:induction false} TrimStartSkipsPrefix(pre: string, s: string, ws: WhiteSet)
    requires AllWith(pre, ws)
    ensures TrimStartWith(pre + s, ws) == TrimStartWith(s, ws)
  {
    if pre == [] {
      assert pre + s == s;
    } else {
      assert (pre + s)[0] == pre[0];
      assert IsWhite(ws, pre[0]);
      assert (pre + s)[1..] == pre[1..] + s;
      assert AllWith(pre[1..], ws) by {
        forall k | 0 <= k < |pre| - 1 ensures IsWhite(ws, pre[1..][k]) {
          assert pre[1..][k] == pre[k + 1];
        }
      }
      TrimStartSkipsPrefix(pre[1..], s, ws);
    }
  }

  /** Once the front trim of s is not empty, appending to s appends to it. */
  lemma {:induction false} TrimStartAppend(s: string, post: string, ws: WhiteSet)
    requires TrimStartWith(s, ws) != []
    ensures TrimStartWith(s + post, ws) == TrimStartWith(s, ws) + post
  {
    if IsWhite(ws, s[0]) {
      assert (s + post)[1..] == s[1..] + post;
      TrimStartAppend(s[1..], post, ws);
    }
  }

  /** A ws-suffix does not change the back trim. */
  lemma {:induction false} TrimEndSkipsSuffix(s: string, post: string, ws: WhiteSet)
    requires AllWith(post, ws)
    ensures TrimEndWith(s + post, ws) == TrimEndWith(s, ws)
  {
    if post == [] {
      assert s + post == s;
    } else {
      var n := |post| - 1;
      assert (s + post)[|s| + n] == post[n];
      assert IsWhite(ws, post[n]);
      assert (s + post)[..|s| + n] == s + post[..n];
      assert AllWith(post[..n], ws) by {
        forall k | 0 <= k < n ensures IsWhite(ws, post[..n][k]) {
          assert post[..n][k] == post[k];
        }
      }
      TrimEndSkipsSuffix(s, post[..n], ws);
    }
  }

  /** Surrounding a string with ws-characters does not change its trim. */
  lemma TrimIgnoresSurroundingWith(pre: string, s: string, post: string, ws: WhiteSet)
    requires AllWith(pre, ws) && AllWith(post, ws)
    ensures TrimWith(pre + s + post, ws) == TrimWith(s, ws)
  {
    assert pre + s + post == pre + (s + post);
    TrimStartSkipsPrefix(pre, s + post, ws);
    var t := TrimStartWith(s, ws);
    if t != [] {
      TrimStartAppend(s, post, ws);
      TrimEndSkipsSuffix(t, post, ws);
    } else {
      TrimStartFacts(s, ws);
      assert AllWith(s + post, ws);
      TrimStartAllWith(s + post, ws);
    }
  }
}
