/**
 * The JavaScript string operations the core relies on, on strings as
 * sequences of characters: `indexOf`, `includes`, `replace` with a string
 * pattern, `split` with a string separator, `substr` and an ASCII-only
 * `toLowerCase`.
 */
module JsString {

  /** `pat` occurs in `s` starting at index `j`. */
  predicate OccursAt(s: string, pat: string, j: int)
  {
    0 <= j && j + |pat| <= |s| && s[j..j + |pat|] == pat
  }

  /** `pat` occurs somewhere in `s`. */
  ghost predicate Occurs(s: string, pat: string)
  {
    exists j :: OccursAt(s, pat, j)
  }

  /** `s.indexOf(pat, from)`: the first index at or after `from` where `pat` occurs, or -1. */
  function IndexOfFrom(s: string, pat: string, from: nat): (r: int)
    ensures -1 <= r
    ensures r == -1 ==> forall j :: from <= j ==> !OccursAt(s, pat, j)
    ensures r >= 0 ==> from <= r && OccursAt(s, pat, r)
    ensures r >= 0 ==> forall j :: from <= j < r ==> !OccursAt(s, pat, j)
    decreases |s| - from
  {
    if from + |pat| > |s| then -1
    else if s[from..from + |pat|] == pat then from
    else IndexOfFrom(s, pat, from + 1)
  }

  /** `s.indexOf(pat)`. */
  function IndexOf(s: string, pat: string): (r: int)
    ensures r == -1 <==> !Occurs(s, pat)
    ensures r >= 0 ==> OccursAt(s, pat, r) && forall j :: 0 <= j < r ==> !OccursAt(s, pat, j)
  {
    IndexOfFrom(s, pat, 0)
  }

  /** `s.includes(pat)`. */
  function Includes(s: string, pat: string): (b: bool)
    ensures b <==> Occurs(s, pat)
  {
    IndexOf(s, pat) >= 0
  }

  /** `s.replace(pat, rep)` with a string pattern: only the first occurrence is replaced. */
  function ReplaceFirst(s: string, pat: string, rep: string): (r: string)
    ensures !Occurs(s, pat) ==> r == s
    ensures Occurs(s, pat) ==>
      exists k :: OccursAt(s, pat, k) && (forall j :: 0 <= j < k ==> !OccursAt(s, pat, j)) &&
                  r == s[..k] + rep + s[k + |pat|..]
  {
    var k := IndexOf(s, pat);
    if k < 0 then s else s[..k] + rep + s[k + |pat|..]
  }

  /**
   * `s.substr(start, length)` (ECMAScript Annex B): a negative start counts
   * from the end, a negative length is taken as zero, and the result is cut
   * at the end of the string.
   */
  function Substr(s: string, start: int, length: int): (r: string)
    ensures |r| <= |s|
    ensures length <= 0 ==> r == []
    ensures 0 <= start && 0 <= length && start + length <= |s| ==> r == s[start..start + length]
  {
    var from := if start < 0 then (if |s| + start < 0 then 0 else |s| + start) else start;
    var len := if length < 0 then 0 else length;
    if from >= |s| then [] else if from + len > |s| then s[from..] else s[from..from + len]
  }

  /** `s.substr(start)`: from `start` to the end of the string. */
  function SubstrFrom(s: string, start: int): (r: string)
    ensures 0 <= start <= |s| ==> r == s[start..]
    ensures start < 0 && |s| + start <= 0 ==> r == s
  {
    Substr(s, start, |s|)
  }

  /** `s.split(sep)` for a non-empty separator: the pieces between occurrences of `sep`. */
  function Split(s: string, sep: string): (parts: seq<string>)
    requires |sep| > 0
    ensures |parts| >= 1
    ensures |parts| == 1 <==> !Occurs(s, sep)
    decreases |s|
  {
    var k := IndexOf(s, sep);
    if k < 0 then [s] else [s[..k]] + Split(s[k + |sep|..], sep)
  }

  /** Splitting and joining with the same separator gives the string back. */
  lemma {:induction false} SplitJoin(s: string, sep: string)
    requires |sep| > 0
    ensures Join(Split(s, sep), sep) == s
    decreases |s|
  {
    var k := IndexOf(s, sep);
    if k >= 0 {
      var rest := s[k + |sep|..];
      SplitJoin(rest, sep);
      var parts := Split(s, sep);
      SplitUnfold(s, sep);
      assert parts[1..] == Split(rest, sep);
      assert Join(parts, sep) == s[..k] + sep + rest;
      Reassemble(s, k, sep);
    }
  }

  /** Where `sep` occurs, `split` cuts at its first occurrence and goes on after it. */
  lemma SplitUnfold(s: string, sep: string)
    requires |sep| > 0 && IndexOf(s, sep) >= 0
    ensures Split(s, sep) == [s[..IndexOf(s, sep)]] + Split(s[IndexOf(s, sep) + |sep|..], sep)
  {
  }

  /** Cutting `s` around an occurrence of `pat` at `k` and gluing the pieces back gives `s`. */
  lemma Reassemble(s: string, k: int, pat: string)
    requires OccursAt(s, pat, k)
    ensures s[..k] + pat + s[k + |pat|..] == s
  {
    assert s == s[..k] + s[k..k + |pat|] + s[k + |pat|..];
  }

  /** No piece of a split holds the separator. */
  lemma {:induction false} SplitPiecesLackSeparator(s: string, sep: string, i: nat)
    requires |sep| > 0 && i < |Split(s, sep)|
    ensures !Occurs(Split(s, sep)[i], sep)
    decreases |s|
  {
    var parts := Split(s, sep);
    if i == 0 {
      FirstPieceLacksSeparator(s, sep);
      assert !Occurs(parts[0], sep);
    } else {
      var k := IndexOf(s, sep);
      LaterPiece(s, sep, i);
      var piece := Split(s[k + |sep|..], sep)[i - 1];
      SplitPiecesLackSeparator(s[k + |sep|..], sep, i - 1);
      assert !Occurs(piece, sep);
      assert parts[i] == piece;
    }
  }

  /** The first piece of a split is the text before the first separator, which holds none. */
  lemma FirstPieceLacksSeparator(s: string, sep: string)
    requires |sep| > 0
    ensures !Occurs(Split(s, sep)[0], sep)
  {
    var k := IndexOf(s, sep);
    if k >= 0 {
      SplitUnfold(s, sep);
      NoOccurrenceBefore(s, sep, k);
    }
  }

  /** A later piece of a split is a piece of the split of the text after the first separator. */
  lemma LaterPiece(s: string, sep: string, i: nat)
    requires |sep| > 0 && 0 < i < |Split(s, sep)|
    ensures IndexOf(s, sep) >= 0
    ensures i - 1 < |Split(s[IndexOf(s, sep) + |sep|..], sep)|
    ensures Split(s, sep)[i] == Split(s[IndexOf(s, sep) + |sep|..], sep)[i - 1]
  {
    SplitUnfold(s, sep);
  }

  /** `parts.join(sep)`. */
  function Join(parts: seq<string>, sep: string): string
  {
    if |parts| == 0 then []
    else if |parts| == 1 then parts[0]
    else parts[0] + sep + Join(parts[1..], sep)
  }

  /** Joining three pieces puts the separator between the first and second and between the second and third. */
  lemma JoinOfThree(parts: seq<string>, sep: string)
    requires |parts| == 3
    ensures Join(parts, sep) == parts[0] + sep + parts[1] + sep + parts[2]
  {
    assert parts[1..][1..] == [parts[2]];
    assert Join(parts[1..], sep) == parts[1] + sep + parts[2];
  }

  /** If `pat` occurs first at `k` in `s`, the prefix `s[..k]` does not contain it. */
  lemma NoOccurrenceBefore(s: string, pat: string, k: int)
    requires |pat| > 0
    requires OccursAt(s, pat, k)
    requires forall j :: 0 <= j < k ==> !OccursAt(s, pat, j)
    ensures !Occurs(s[..k], pat)
  {
    forall j | OccursAt(s[..k], pat, j)
      ensures false
    {
      assert j < k;
      assert s[..k][j..j + |pat|] == s[j..j + |pat|];
      assert OccursAt(s, pat, j);
    }
  }

  /** A one-character pattern occurs exactly where that character stands. */
  lemma OccursAtChar(s: string, c: char, j: int)
    ensures OccursAt(s, [c], j) <==> 0 <= j < |s| && s[j] == c
  {
    if 0 <= j < |s| && s[j] == c {
      assert s[j..j + 1] == [c];
    }
  }

  /** `c in s` expressed as an occurrence of the one-character pattern. */
  lemma OccursChar(s: string, c: char)
    ensures Occurs(s, [c]) <==> c in s
  {
    if c in s {
      var j :| 0 <= j < |s| && s[j] == c;
      OccursAtChar(s, c, j);
    }
    if Occurs(s, [c]) {
      var j :| OccursAt(s, [c], j);
      OccursAtChar(s, c, j);
    }
  }

  /** The first `c` of `x + [c] + y` is at `|x|` when `x` has none. */
  lemma IndexOfFirstChar(x: string, c: char, y: string)
    requires c !in x
    ensures IndexOf(x + [c] + y, [c]) == |x|
  {
    var s := x + [c] + y;
    OccursAtChar(s, c, |x|);
    forall j | 0 <= j < |x|
      ensures !OccursAt(s, [c], j)
    {
      OccursAtChar(s, c, j);
      assert s[j] == x[j];
    }
  }

  /** A character that is absent is not found. */
  lemma IndexOfAbsentChar(x: string, c: char)
    requires c !in x
    ensures IndexOf(x, [c]) == -1
  {
    OccursChar(x, c);
  }

  /** Splitting at a first separator character peels off the text before it. */
  lemma SplitAtFirstChar(x: string, c: char, rest: string)
    requires c !in x
    ensures Split(x + [c] + rest, [c]) == [x] + Split(rest, [c])
  {
    var s := x + [c] + rest;
    IndexOfFirstChar(x, c, rest);
    assert s[..|x|] == x;
    assert s[|x| + 1..] == rest;
  }

  /**
   * In `x + [c] + y + [c] + z` with no `c` in `x`, the split has a second
   * piece and that piece is a prefix of `y`.
   */
  lemma SplitSecondPieceInPrefix(x: string, c: char, y: string, z: string)
    requires c !in x
    ensures |Split(x + [c] + y + [c] + z, [c])| >= 2
    ensures exists k :: 0 <= k <= |y| && Split(x + [c] + y + [c] + z, [c])[1] == y[..k]
  {
    var rest := y + [c] + z;
    assert x + [c] + y + [c] + z == x + [c] + rest;
    SplitAtFirstChar(x, c, rest);
    assert Split(x + [c] + rest, [c])[1] == Split(rest, [c])[0];
    SplitFirstPieceInPrefix(y, c, z);
  }

  /** The first piece of a split of `x + [c] + y` is a prefix of `x`: it ends at the first `c`. */
  lemma SplitFirstPieceInPrefix(x: string, c: char, y: string)
    ensures exists k :: 0 <= k <= |x| && Split(x + [c] + y, [c])[0] == x[..k]
  {
    var s := x + [c] + y;
    var k := IndexOf(s, [c]);
    OccursAtChar(s, c, |x|);
    assert 0 <= k <= |x|;
    SplitUnfold(s, [c]);
    assert s[..k] == x[..k];
  }

  /** Replacing the first occurrence of a pattern by nothing only removes characters. */
  lemma ReplaceFirstRemoves(s: string, pat: string)
    ensures |ReplaceFirst(s, pat, "")| <= |s|
    ensures forall c :: c in ReplaceFirst(s, pat, "") ==> c in s
  {
    if Occurs(s, pat) {
      var k :| OccursAt(s, pat, k) && ReplaceFirst(s, pat, "") == s[..k] + "" + s[k + |pat|..];
      assert forall c :: c in s[..k] + s[k + |pat|..] ==> c in s;
    }
  }

  /** Two separator characters between three pieces without it split into those pieces. */
  lemma SplitThreeAtChar(x: string, y: string, z: string, c: char)
    requires c !in x && c !in y && c !in z
    ensures Split(x + [c] + y + [c] + z, [c]) == [x, y, z]
  {
    assert x + [c] + y + [c] + z == x + [c] + (y + [c] + z);
    SplitAtFirstChar(x, c, y + [c] + z);
    SplitAtFirstChar(y, c, z);
    SplitWithoutChar(z, c);
  }

  /** A string without the separator character splits into itself. */
  lemma SplitWithoutChar(x: string, c: char)
    requires c !in x
    ensures Split(x, [c]) == [x]
  {
    IndexOfAbsentChar(x, c);
  }

  /** The character an occurrence puts at index `i`. */
  lemma CharOfOccurrence(s: string, pat: string, j: int, i: int)
    requires OccursAt(s, pat, j) && j <= i < j + |pat|
    ensures s[i] == pat[i - j]
  {
    assert s[j..j + |pat|][i - j] == s[i];
  }

  /** ASCII lower-casing of one character. */
  function LowerChar(c: char): (r: char)
    ensures 'A' <= c <= 'Z' ==> 'a' <= r <= 'z' && r as int - c as int == 32
    ensures !('A' <= c <= 'Z') ==> r == c
  {
    if 'A' <= c <= 'Z' then (c as int + 32) as char else c
  }

  /** `s.toLowerCase()`, restricted to ASCII letters. */
  function ToLower(s: string): (r: string)
    ensures |r| == |s|
    ensures forall i :: 0 <= i < |s| ==> r[i] == LowerChar(s[i])
  {
    seq(|s|, i requires 0 <= i < |s| => LowerChar(s[i]))
  }
}
