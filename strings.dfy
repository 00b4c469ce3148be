/** The parts of Go's `strings` package that the storage backends use, on
    `string` (a sequence of characters). */
module Strings {

  predicate HasPrefix(s: string, p: string) {
    |p| <= |s| && s[..|p|] == p
  }

  predicate HasSuffix(s: string, p: string) {
    |p| <= |s| && s[|s| - |p|..] == p
  }

  /** strings.TrimPrefix (and the value part of strings.CutPrefix): drops one leading `p`. */
  function TrimPrefix(s: string, p: string): (r: string)
    ensures HasPrefix(s, p) ==> s == p + r
    ensures !HasPrefix(s, p) ==> r == s
  {
    if HasPrefix(s, p) then s[|p|..] else s
  }

  /** strings.TrimSuffix (and the value part of strings.CutSuffix): drops one trailing `p`. */
  function TrimSuffix(s: string, p: string): (r: string)
    ensures HasSuffix(s, p) ==> s == r + p
    ensures !HasSuffix(s, p) ==> r == s
  {
    if HasSuffix(s, p) then s[..|s| - |p|] else s
  }

  /** strings.TrimLeft with a one-character cutset: drops every leading `c`. */
  function TrimLeft(s: string, c: char): (r: string)
    ensures |r| <= |s| && r == s[|s| - |r|..]
    ensures forall i :: 0 <= i < |s| - |r| ==> s[i] == c
    ensures r != [] ==> r[0] != c
  {
    if s != [] && s[0] == c then TrimLeft(s[1..], c) else s
  }

  /** strings.TrimRight with a one-character cutset: drops every trailing `c`. */
  function TrimRight(s: string, c: char): (r: string)
    ensures |r| <= |s| && r == s[..|r|]
    ensures forall i :: |r| <= i < |s| ==> s[i] == c
    ensures r != [] ==> r[|r| - 1] != c
  {
    if s != [] && s[|s| - 1] == c then TrimRight(s[..|s| - 1], c) else s
  }

  /** strings.Trim with a one-character cutset: drops every leading and trailing `c`. */
  function Trim(s: string, c: char): (r: string)
    ensures r != [] ==> r[0] != c && r[|r| - 1] != c
    ensures |r| <= |s| && OccursAt(s, r, |s| - |TrimLeft(s, c)|)
  {
    var l := TrimLeft(s, c);
    var r := TrimRight(l, c);
    assert OccursAt(s, r, |s| - |l|) by {
      assert s[|s| - |l|..][..|r|] == s[|s| - |l|..|s| - |l| + |r|];
    }
    r
  }

  /** The index of the first `c` in `s`. */
  function IndexOf(s: string, c: char): (i: nat)
    requires c in s
    ensures i < |s| && s[i] == c && c !in s[..i]
  {
    if s[0] == c then 0 else 1 + IndexOf(s[1..], c)
  }

  /** strings.Join with a one-character separator. */
  function Join(parts: seq<string>, c: char): string {
    if |parts| == 0 then ""
    else if |parts| == 1 then parts[0]
    else parts[0] + [c] + Join(parts[1..], c)
  }

  /** strings.Split with a one-character separator: the pieces between the
      separators, so that joining them again gives back `s`. */
  function Split(s: string, c: char): (r: seq<string>)
    ensures |r| >= 1
    ensures forall i :: 0 <= i < |r| ==> c !in r[i]
  {
    if c !in s then [s]
    else
      var i := IndexOf(s, c);
      [s[..i]] + Split(s[i + 1..], c)
  }

  /** Joining the pieces of a split gives back the input. */
  lemma {:induction false} SplitJoin(s: string, c: char)
    ensures Join(Split(s, c), c) == s
  {
    if c in s {
      var i := IndexOf(s, c);
      SplitJoin(s[i + 1..], c);
      assert Split(s, c) == [s[..i]] + Split(s[i + 1..], c);
      assert s == s[..i] + [c] + s[i + 1..];
    }
  }

  lemma {:induction false} JoinSnoc(parts: seq<string>, c: char)
    requires |parts| >= 2
    ensures Join(parts, c) == Join(parts[..|parts| - 1], c) + [c] + parts[|parts| - 1]
  {
    if |parts| > 2 {
      JoinSnoc(parts[1..], c);
      assert parts[1..][..|parts[1..]| - 1] == parts[..|parts| - 1][1..];
    }
  }

  /** Splitting at the LAST separator: everything before the last piece, joined
      back, is the text up to the last `c`. */
  lemma SplitLast(s: string, c: char)
    requires c in s
    ensures var parts := Split(s, c);
      |parts| >= 2 &&
      s == Join(parts[..|parts| - 1], c) + [c] + parts[|parts| - 1]
  {
    var parts := Split(s, c);
    assert |parts| >= 2 by {
      var i := IndexOf(s, c);
      assert parts == [s[..i]] + Split(s[i + 1..], c);
    }
    assert s == Join(parts[..|parts| - 1], c) + [c] + parts[|parts| - 1] by {
      SplitJoin(s, c);
      JoinSnoc(parts, c);
    }
  }

  /** The first piece of a split is the text before the first separator. */
  lemma SplitFirst(s: string, c: char)
    ensures var first := Split(s, c)[0];
      HasPrefix(s, first) && (|first| == |s| || s[|first|] == c)
  {
    if c in s {
      var i := IndexOf(s, c);
      assert Split(s, c)[0] == s[..i];
    } else {
      assert Split(s, c) == [s];
    }
  }

  /** The last piece of a split is the text after the last separator. */
  lemma SplitLastPiece(s: string, c: char)
    ensures var parts := Split(s, c);
      var last := parts[|parts| - 1];
      HasSuffix(s, last) && (|last| == |s| || s[|s| - |last| - 1] == c)
  {
    var parts := Split(s, c);
    if c in s {
      SplitLast(s, c);
      var before := Join(parts[..|parts| - 1], c);
      assert s[|s| - |parts[|parts| - 1]|..] == parts[|parts| - 1];
    }
  }

  /** Everything before the last piece of a split, joined back, is the text
      before the last separator. */
  lemma SplitBeforeLast(s: string, c: char)
    requires c in s
    ensures var parts := Split(s, c);
      var before := Join(parts[..|parts| - 1], c);
      |before| < |s| && s[..|before|] == before && s[|before|] == c && c !in s[|before| + 1..]
  {
    var parts := Split(s, c);
    SplitLast(s, c);
    var before := Join(parts[..|parts| - 1], c);
    var last := parts[|parts| - 1];
    assert c !in last;
    assert s == before + [c] + last;
    assert s[..|before|] == before;
    assert s[|before| + 1..] == last;
  }

  /** The second piece of a split is the text between the first separator and
      the next one (or the end). */
  lemma SplitSecondPiece(s: string, c: char)
    ensures c !in s ==> Split(s, c) == [s]
    ensures c in s ==>
      var parts := Split(s, c);
      var rest := s[IndexOf(s, c) + 1..];
      |parts| >= 2 && HasPrefix(rest, parts[1]) && (|parts[1]| == |rest| || rest[|parts[1]|] == c)
  {
    if c in s {
      var i := IndexOf(s, c);
      assert Split(s, c) == [s[..i]] + Split(s[i + 1..], c);
      SplitFirst(s[i + 1..], c);
    }
  }

  /** The pieces of `base`, "/" and `rest` joined, found again. */
  lemma JoinParts(base: string, rest: string)
    ensures var u := base + "/" + rest;
      u[..|base|] == base && |base| < |u| && u[|base|] == '/' && u[|base| + 1..] == rest
  {
  }

  /** Regrouping a concatenation of four pieces. */
  lemma Regroup(a: string, b: string, c: string, d: string)
    ensures a + b + c + d == a + (b + c + d)
  {
  }

  lemma RegroupRight(a: string, b: string, c: string, d: string)
    ensures a + b + c + d == a + (b + (c + d))
  {
  }

  lemma Regroup5(a: string, b: string, c: string, d: string, e: string)
    ensures a + b + c + d + e == a + (b + c + d + e)
  {
  }

  /** strings.ReplaceAll(s, pat, ""): deletes the non-overlapping occurrences
      of `pat`, scanning from the left. */
  function RemoveAll(s: string, pat: string): (r: string)
    requires |pat| > 0
    ensures |r| <= |s|
    decreases |s|
  {
    if |s| < |pat| then s
    else if s[..|pat|] == pat then RemoveAll(s[|pat|..], pat)
    else [s[0]] + RemoveAll(s[1..], pat)
  }

  lemma RemoveAllShort(s: string, pat: string)
    requires |s| < |pat|
    ensures RemoveAll(s, pat) == s
  {
  }

  lemma RemoveAllMatch(s: string, pat: string)
    requires |pat| > 0
    ensures RemoveAll(pat + s, pat) == RemoveAll(s, pat)
  {
    assert (pat + s)[..|pat|] == pat && (pat + s)[|pat|..] == s;
  }

  lemma RemoveAllKeep(c: char, s: string, pat: string, k: nat)
    requires |pat| > 0 && k < |pat| <= |s| + 1 && ([c] + s)[k] != pat[k]
    ensures RemoveAll([c] + s, pat) == [c] + RemoveAll(s, pat)
  {
    assert ([c] + s)[..|pat|][k] == ([c] + s)[k];
    assert ([c] + s)[1..] == s;
  }

  /** One pass need not remove every occurrence: the two characters before
      an occurrence and the rest after it can join into a new one. */
  lemma RemoveAllMayLeave(front: string, back: string)
    requires |front| == 2 && |back| > 0
    requires front[1] != (front + back)[0] && (front + back)[0] != (front + back)[2]
    ensures RemoveAll(front + (front + back) + back, front + back) == front + back
  {
    var pat := front + back;
    var a, b := front[0], front[1];
    assert RemoveAll(pat + back, pat) == back by {
      RemoveAllShort(back, pat);
      RemoveAllMatch(back, pat);
    }
    assert RemoveAll([b] + (pat + back), pat) == [b] + back by {
      RemoveAllKeep(b, pat + back, pat, 0);
    }
    assert RemoveAll([a] + ([b] + (pat + back)), pat) == [a] + ([b] + back) by {
      RemoveAllKeep(a, [b] + (pat + back), pat, 2);
    }
    assert front + pat + back == [a] + ([b] + (pat + back)) by {
      assert front == [a] + [b];
      RegroupRight([a], [b], pat, back);
    }
    assert [a] + ([b] + back) == pat;
  }

  /** Whether `pat` occurs in `s` starting at index `i`. */
  predicate OccursAt(s: string, pat: string, i: int) {
    0 <= i <= |s| - |pat| && s[i..i + |pat|] == pat
  }

  /** Whether `pat` occurs in `s` at some position. */
  predicate Contains(s: string, pat: string) {
    exists i | 0 <= i <= |s| :: OccursAt(s, pat, i)
  }

  /** A string without occurrences of `pat` comes back unchanged. */
  lemma {:induction false} RemoveAllAbsent(s: string, pat: string)
    requires |pat| > 0 && !Contains(s, pat)
    ensures RemoveAll(s, pat) == s
    decreases |s|
  {
    if |s| >= |pat| {
      assert !OccursAt(s, pat, 0);
      assert s[..|pat|] != pat;
      assert !Contains(s[1..], pat) by {
        forall i | OccursAt(s[1..], pat, i) ensures false {
          assert s[1..][i..i + |pat|] == s[i + 1..i + 1 + |pat|];
          assert OccursAt(s, pat, i + 1);
        }
      }
      RemoveAllAbsent(s[1..], pat);
    }
  }
}
