/** Splitting a string on a separator character, as `str::split(char)` does, and its inverse. */
module Text {

  /** The position of the first `sep` in `s`, or `|s|` when there is none. */
  function IndexOf(s: string, sep: char): (k: nat)
    ensures k <= |s|
    ensures forall i :: 0 <= i < k ==> s[i] != sep
    ensures k < |s| ==> s[k] == sep
  {
    if |s| == 0 || s[0] == sep then 0 else 1 + IndexOf(s[1..], sep)
  }

  /**
    The pieces of `s` between occurrences of `sep`, in order. There is always
    at least one piece: the empty string splits into one empty piece, and a
    separator at either end gives an empty piece there.
   */
  function Split(s: string, sep: char): (pieces: seq<string>)
    ensures |pieces| >= 1
    ensures forall i :: 0 <= i < |pieces| ==> sep !in pieces[i]
    decreases |s|
  {
    var k := IndexOf(s, sep);
    if k == |s| then [s] else [s[..k]] + Split(s[k + 1..], sep)
  }

  /** The pieces with one `sep` between neighbours. */
  function Join(pieces: seq<string>, sep: char): string
    requires |pieces| >= 1
    decreases |pieces|
  {
    if |pieces| == 1 then pieces[0] else pieces[0] + [sep] + Join(pieces[1..], sep)
  }

  /** Joining the pieces of a split restores the string. */
  lemma {:induction false} JoinSplit(s: string, sep: char)
    ensures Join(Split(s, sep), sep) == s
    decreases |s|
  {
    var k := IndexOf(s, sep);
    if k < |s| {
      var rest := Split(s[k + 1..], sep);
      JoinSplit(s[k + 1..], sep);
      assert ([s[..k]] + rest)[1..] == rest;
      assert s == s[..k] + [sep] + s[k + 1..];
    }
  }

  /** A separator-free prefix moves the first separator by its length. */
  lemma {:induction false} IndexOfAfterPrefix(a: string, t: string, sep: char)
    requires sep !in a
    ensures IndexOf(a + t, sep) == |a| + IndexOf(t, sep)
    decreases |a|
  {
    if |a| == 0 {
      assert a + t == t;
    } else {
      assert a[0] in a;
      assert (a + t)[1..] == a[1..] + t;
      IndexOfAfterPrefix(a[1..], t, sep);
    }
  }

  /** Splitting pieces that contain no separator after joining them gives the pieces back. */
  lemma {:induction false} SplitJoin(pieces: seq<string>, sep: char)
    requires |pieces| >= 1
    requires forall i :: 0 <= i < |pieces| ==> sep !in pieces[i]
    ensures Split(Join(pieces, sep), sep) == pieces
    decreases |pieces|
  {
    var first := pieces[0];
    assert sep !in first;
    if |pieces| == 1 {
      IndexOfAfterPrefix(first, "", sep);
      assert first + "" == first;
    } else {
      var tail := Join(pieces[1..], sep);
      var s := first + [sep] + tail;
      assert s == first + ([sep] + tail);
      IndexOfAfterPrefix(first, [sep] + tail, sep);
      assert s[..|first|] == first;
      assert s[|first| + 1..] == tail;
      SplitJoin(pieces[1..], sep);
    }
  }

  /** How many times `c` occurs in `s`. */
  function Occurrences(s: string, c: char): nat
  {
    multiset(s)[c]
  }

  /** Counting occurrences distributes over concatenation. */
  lemma OccurrencesAppend(a: string, b: string, c: char)
    ensures Occurrences(a + b, c) == Occurrences(a, c) + Occurrences(b, c)
  {
    assert multiset(a + b) == multiset(a) + multiset(b);
  }

  /** A string without `c` holds it no times. */
  lemma OccurrencesAbsent(s: string, c: char)
    requires c !in s
    ensures Occurrences(s, c) == 0
  {
  }

  /** A string whose only occurrence of `c` is its last character holds `c` once. */
  lemma OccurrencesOnlyLast(s: string, c: char)
    requires |s| > 0 && s[|s| - 1] == c && c !in s[..|s| - 1]
    ensures Occurrences(s, c) == 1
  {
    var init := s[..|s| - 1];
    assert s == init + [c];
    assert multiset(init)[c] == 0;
  }

  /** A split gives one more piece than there are separators. */
  lemma {:induction false} SplitCount(s: string, sep: char)
    ensures |Split(s, sep)| == Occurrences(s, sep) + 1
    decreases |s|
  {
    var k := IndexOf(s, sep);
    if k == |s| {
      assert sep !in s;
      OccurrencesAbsent(s, sep);
    } else {
      SplitCount(s[k + 1..], sep);
      assert s == s[..k] + [sep] + s[k + 1..];
      assert sep !in s[..k];
      OccurrencesAbsent(s[..k], sep);
      OccurrencesAppend(s[..k] + [sep], s[k + 1..], sep);
      OccurrencesAppend(s[..k], [sep], sep);
    }
  }

  /** Every character of a join satisfies `p` when the separator and every piece's characters do. */
  lemma {:induction false} JoinAll(pieces: seq<string>, sep: char, p: char -> bool)
    requires |pieces| >= 1
    requires p(sep)
    requires forall i, k :: 0 <= i < |pieces| && 0 <= k < |pieces[i]| ==> p(pieces[i][k])
    ensures forall k :: 0 <= k < |Join(pieces, sep)| ==> p(Join(pieces, sep)[k])
    decreases |pieces|
  {
    if |pieces| > 1 {
      JoinAll(pieces[1..], sep, p);
      var head, tail := pieces[0] + [sep], Join(pieces[1..], sep);
      assert forall k :: 0 <= k < |head| ==> p(head[k]);
      assert Join(pieces, sep) == head + tail;
    }
  }

  /** `char::to_ascii_lowercase`: `A`..`Z` become `a`..`z`, every other character stays. */
  function LowerChar(c: char): (l: char)
    ensures 'A' <= c <= 'Z' ==> 'a' <= l <= 'z' && l as int - 'a' as int == c as int - 'A' as int
    ensures !('A' <= c <= 'Z') ==> l == c
  {
    if 'A' <= c <= 'Z' then (c as int - 'A' as int + 'a' as int) as char else c
  }

  /** `str::to_ascii_lowercase`. */
  function Lower(s: string): string
  {
    seq(|s|, i requires 0 <= i < |s| => LowerChar(s[i]))
  }

  /** Lower-casing does not move the first occurrence of a character that is not a letter. */
  lemma IndexOfLower(s: string, sep: char)
    requires !('A' <= sep <= 'Z') && !('a' <= sep <= 'z')
    ensures IndexOf(Lower(s), sep) == IndexOf(s, sep)
  {
    var l := Lower(s);
    assert forall i :: 0 <= i < |s| ==> (l[i] == sep <==> s[i] == sep);
  }

  /** Each piece lower-cased. */
  function LowerAll(pieces: seq<string>): (l: seq<string>)
    ensures |l| == |pieces| && forall i :: 0 <= i < |pieces| ==> l[i] == Lower(pieces[i])
  {
    if |pieces| == 0 then [] else [Lower(pieces[0])] + LowerAll(pieces[1..])
  }

  /** Lower-casing commutes with splitting on a character that is not a letter. */
  lemma {:induction false} SplitLower(s: string, sep: char)
    requires !('A' <= sep <= 'Z') && !('a' <= sep <= 'z')
    ensures Split(Lower(s), sep) == LowerAll(Split(s, sep))
    decreases |s|
  {
    var k := IndexOf(s, sep);
    IndexOfLower(s, sep);
    if k < |s| {
      var rest := s[k + 1..];
      SplitLower(rest, sep);
      LowerSlices(s, k);
      var pieces := Split(s, sep);
      assert pieces == [s[..k]] + Split(rest, sep);
      assert pieces[1..] == Split(rest, sep);
    }
  }

  /** Lower-casing commutes with cutting `s` before and after position `k`. */
  lemma LowerSlices(s: string, k: nat)
    requires k < |s|
    ensures Lower(s)[..k] == Lower(s[..k]) && Lower(s)[k + 1..] == Lower(s[k + 1..])
  {
  }
}
