/**
 * The JavaScript string and array built-ins the modelled code is written with:
 * `String.prototype.slice`, `indexOf`, `split` on a one-character separator,
 * and `Array.prototype.join`. JavaScript strings are sequences of UTF-16
 * code units; here a string is a `seq<char>`, a sequence of Unicode scalar
 * values, so lengths and offsets agree with JavaScript only on text without
 * characters outside the Basic Multilingual Plane.
 */
module JsString {

  /** Where `slice` places the index `i` in a string of length `n`:
      a negative index counts back from the end, and the result is clamped to [0, n]. */
  function SliceIndex(i: int, n: nat): (r: nat)
    ensures r <= n
    ensures 0 <= i ==> r == (if i < n then i else n)
    ensures i < 0 ==> r == (if n + i < 0 then 0 else n + i)
  {
    if i < 0 then (if n + i < 0 then 0 else n + i)
    else if i < n then i else n
  }

  /** `x.slice(start, end)` */
  function Slice(x: string, start: int, end: int): (r: string)
    ensures |r| <= |x|
    ensures 0 <= start <= end <= |x| ==> r == x[start..end]
  {
    var a, b := SliceIndex(start, |x|), SliceIndex(end, |x|);
    if a < b then x[a..b] else ""
  }

  /** `x.slice(start)` */
  function SliceFrom(x: string, start: int): (r: string)
    ensures r == x[SliceIndex(start, |x|)..]
  {
    Slice(x, start, |x|)
  }

  /** `sub` occurs in `s` at position `k`. */
  predicate OccursAt(s: string, sub: string, k: int) {
    0 <= k && k + |sub| <= |s| && s[k..k + |sub|] == sub
  }

  /** `s.indexOf(sub)`: the first position where `sub` occurs, or -1 when it does not occur
      (IndexOfFirst). */
  function IndexOf(s: string, sub: string): (r: int)
    ensures -1 <= r <= |s|
    ensures r >= 0 ==> OccursAt(s, sub, r)
    decreases |s|
  {
    if |sub| > |s| then -1
    else if s[..|sub|] == sub then 0
    else
      var r := IndexOf(s[1..], sub);
      assert r >= 0 ==> OccursAt(s, sub, r + 1) by {
        if r >= 0 {
          OccursShift(s, sub, r);
        }
      }
      if r < 0 then -1 else r + 1
  }

  /** `indexOf` finds no occurrence before the one it returns, and returns -1 only when there is none. */
  lemma {:induction false} IndexOfFirst(s: string, sub: string)
    ensures IndexOf(s, sub) >= 0 ==> forall k :: 0 <= k < IndexOf(s, sub) ==> !OccursAt(s, sub, k)
    ensures IndexOf(s, sub) == -1 ==> forall k :: !OccursAt(s, sub, k)
    decreases |s|
  {
    if |sub| <= |s| && s[..|sub|] != sub {
      IndexOfFirst(s[1..], sub);
      forall k | 1 <= k ensures OccursAt(s, sub, k) <==> OccursAt(s[1..], sub, k - 1) {
        OccursShift(s, sub, k - 1);
      }
      assert s[0..|sub|] == s[..|sub|];
    }
  }

  /** Dropping the first character moves every occurrence one place to the left. */
  lemma OccursShift(s: string, sub: string, k: nat)
    requires |s| >= 1
    ensures OccursAt(s[1..], sub, k) <==> OccursAt(s, sub, k + 1)
  {
    if k + |sub| <= |s| - 1 {
      assert s[1..][k..k + |sub|] == s[k + 1..k + 1 + |sub|];
    }
  }

  /** `parts.join(sep)` */
  function ArrayJoin(parts: seq<string>, sep: string): string
  {
    if |parts| == 0 then ""
    else if |parts| == 1 then parts[0]
    else parts[0] + sep + ArrayJoin(parts[1..], sep)
  }

  /** The first position of the character `c` in `s`, or -1: what `s.indexOf(c)` gives
      for a one-character string (IndexOfIsCharIndex). */
  function CharIndex(s: string, c: char): (r: int)
    ensures -1 <= r < |s|
    ensures r == -1 <==> c !in s
    ensures r >= 0 ==> s[r] == c && c !in s[..r]
  {
    if s == [] then -1
    else if s[0] == c then 0
    else
      var r := CharIndex(s[1..], c);
      assert r >= 0 ==> s[..r + 1] == [s[0]] + s[1..][..r];
      assert r < 0 ==> s == [s[0]] + s[1..];
      if r < 0 then -1 else r + 1
  }

  /** For a one-character string, `indexOf` is the search for that character. */
  lemma IndexOfIsCharIndex(s: string, c: char)
    ensures IndexOf(s, [c]) == CharIndex(s, c)
  {
    IndexOfFirst(s, [c]);
    var r, q := IndexOf(s, [c]), CharIndex(s, c);
    assert r >= 0 ==> s[r..r + 1] == [s[r]] && s[r] in s;
    assert q >= 0 ==> s[q..q + 1] == [c] && OccursAt(s, [c], q);
    assert forall j :: 0 <= j < q ==> s[..q][j] == s[j];
  }

  /** The character search stops at the first position holding `c`. */
  lemma CharIndexAt(s: string, c: char, k: nat)
    requires k < |s| && s[k] == c && c !in s[..k]
    ensures CharIndex(s, c) == k
  {
    var r := CharIndex(s, c);
    assert s[k] in s;
    assert forall j :: 0 <= j < k ==> s[..k][j] == s[j];
    assert forall j :: 0 <= j < r ==> s[..r][j] == s[j];
  }

  /** `s.split(c)` for a separator of one character: the pieces between successive occurrences of `c`. */
  function StringSplit(s: string, c: char): (r: seq<string>)
    ensures |r| >= 1
    decreases |s|
  {
    var k := CharIndex(s, c);
    if k < 0 then [s] else [s[..k]] + StringSplit(s[k + 1..], c)
  }

  /** Splitting at a first separator at `k`: the piece before it, then the split of the rest. */
  lemma SplitAt(s: string, c: char, k: nat)
    requires k < |s| && s[k] == c && c !in s[..k]
    ensures StringSplit(s, c) == [s[..k]] + StringSplit(s[k + 1..], c)
  {
    CharIndexAt(s, c, k);
  }

  /** A string without the separator is a single piece. */
  lemma SplitNone(s: string, c: char)
    requires c !in s
    ensures StringSplit(s, c) == [s]
  {
  }

  /** Joining the pieces of a split with the separator gives back the string. */
  lemma {:induction false} JoinSplit(s: string, c: char)
    ensures ArrayJoin(StringSplit(s, c), [c]) == s
    decreases |s|
  {
    var k := CharIndex(s, c);
    if k >= 0 {
      var first, tail := s[..k], s[k + 1..];
      SplitAt(s, c, k);
      JoinSplit(tail, c);
      JoinCons(first, StringSplit(tail, c), [c]);
      assert s == first + [c] + tail;
    }
  }

  /** Joining a part in front of at least one more: the part, the separator, the join of the rest. */
  lemma JoinCons(p: string, rest: seq<string>, sep: string)
    requires |rest| >= 1
    ensures ArrayJoin([p] + rest, sep) == p + sep + ArrayJoin(rest, sep)
  {
    assert ([p] + rest)[0] == p;
    assert ([p] + rest)[1..] == rest;
  }

  /** Splitting a join whose parts do not contain the separator gives back the parts. */
  lemma {:induction false} SplitJoin(parts: seq<string>, c: char)
    requires |parts| >= 1
    requires forall i :: 0 <= i < |parts| ==> c !in parts[i]
    ensures StringSplit(ArrayJoin(parts, [c]), c) == parts
    decreases |parts|
  {
    if |parts| == 1 {
      SplitNone(parts[0], c);
    } else {
      var p, tail := parts[0], ArrayJoin(parts[1..], [c]);
      var s := p + [c] + tail;
      assert ArrayJoin(parts, [c]) == s;
      assert s[..|p|] == p && s[|p| + 1..] == tail;
      SplitAt(s, c, |p|);
      SplitJoin(parts[1..], c);
      assert parts == [p] + parts[1..];
    }
  }

  /** A separator splits the string into the pieces of its two sides. */
  lemma {:induction false} SplitAround(a: string, b: string, c: char)
    ensures StringSplit(a + [c] + b, c) == StringSplit(a, c) + StringSplit(b, c)
    decreases |a|
  {
    var k := CharIndex(a, c);
    if k < 0 {
      LastSplit(a, b, c);
    } else {
      var rest := a[k + 1..];
      PrefixSplit(a, b, c, k);
      SplitAround(rest, b, c);
      ConcatAssoc([a[..k]], StringSplit(rest, c), StringSplit(b, c));
    }
  }

  lemma ConcatAssoc<T>(x: seq<T>, y: seq<T>, z: seq<T>)
    ensures x + (y + z) == (x + y) + z
  {
  }

  /** When `a` has no separator, the added one is the first. */
  lemma LastSplit(a: string, b: string, c: char)
    requires c !in a
    ensures StringSplit(a + [c] + b, c) == StringSplit(a, c) + StringSplit(b, c)
  {
    var s := a + [c] + b;
    assert s[..|a|] == a;
    assert s[|a| + 1..] == b;
    SplitAt(s, c, |a|);
  }

  /** When `a` has a first separator at `k`, it is the first one of `a + [c] + b` as well. */
  lemma PrefixSplit(a: string, b: string, c: char, k: nat)
    requires k < |a| && a[k] == c && c !in a[..k]
    ensures StringSplit(a + [c] + b, c) == [a[..k]] + StringSplit(a[k + 1..] + [c] + b, c)
    ensures StringSplit(a, c) == [a[..k]] + StringSplit(a[k + 1..], c)
  {
    var s := a + [c] + b;
    assert s[..k] == a[..k];
    assert s[k + 1..] == a[k + 1..] + [c] + b;
    SplitAt(s, c, k);
    SplitAt(a, c, k);
  }

  /** A character in neither the parts nor the separator is not in their join. */
  lemma {:induction false} JoinAvoids(parts: seq<string>, sep: string, c: char)
    requires c !in sep
    requires forall i :: 0 <= i < |parts| ==> c !in parts[i]
    ensures c !in ArrayJoin(parts, sep)
    decreases |parts|
  {
    if |parts| > 1 {
      JoinAvoids(parts[1..], sep, c);
      assert parts[0] + sep + ArrayJoin(parts[1..], sep) == ArrayJoin(parts, sep);
    }
  }

  /** What a join puts before a part: the join of the parts before it and a separator, if there are any. */
  function Leading(before: seq<string>, sep: string): string {
    if before == [] then "" else ArrayJoin(before, sep) + sep
  }

  /** What a join puts after a part: a separator and the join of the parts after it, if there are any. */
  function Trailing(after: seq<string>, sep: string): string {
    if after == [] then "" else sep + ArrayJoin(after, sep)
  }

  lemma LeadingCons(p: string, rest: seq<string>, sep: string)
    ensures Leading([p] + rest, sep) == p + sep + Leading(rest, sep)
  {
    if rest == [] {
      assert [p] + rest == [p];
    } else {
      JoinCons(p, rest, sep);
      ConcatAssoc(p + sep, ArrayJoin(rest, sep), sep);
    }
  }

  lemma JoinFirst(p: string, rest: seq<string>, sep: string)
    ensures ArrayJoin([p] + rest, sep) == p + Trailing(rest, sep)
  {
    if rest == [] {
      assert [p] + rest == [p];
    } else {
      JoinCons(p, rest, sep);
    }
  }

  /** Where the part at index `k` sits in a join: between what the join puts before it
      and what it puts after it. */
  lemma {:induction false} JoinAround(parts: seq<string>, sep: string, k: nat)
    requires k < |parts|
    ensures ArrayJoin(parts, sep) == Leading(parts[..k], sep) + parts[k] + Trailing(parts[k + 1..], sep)
    decreases k
  {
    var p, m := parts[0], parts[k];
    var tail := parts[1..];
    assert parts == [p] + tail;
    if k == 0 {
      JoinFirst(p, tail, sep);
      assert parts[..0] == [];
    } else {
      JoinAround(tail, sep, k - 1);
      assert tail[..k - 1] == parts[1..k];
      assert tail[k - 1] == m;
      assert tail[k..] == parts[k + 1..];
      var l, t := Leading(parts[1..k], sep), Trailing(parts[k + 1..], sep);
      JoinCons(p, tail, sep);
      assert parts[..k] == [p] + parts[1..k];
      LeadingCons(p, parts[1..k], sep);
      var ps := p + sep;
      ConcatAssoc(ps, l + m, t);
      ConcatAssoc(ps, l, m);
    }
  }
}
