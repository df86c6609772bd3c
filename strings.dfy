/**
 * The two ways nodes put their children's texts together: `string.Concat`
 * (groups, concatenations, character sets) and `string.Join("|", ...)`
 * (alternations).
 */
module Strings {

  /** The texts one after the other, with nothing between them. */
  function Concat(ts: seq<string>): string {
    if |ts| == 0 then "" else ts[0] + Concat(ts[1..])
  }

  /** The texts separated by `|`. */
  function Join(ts: seq<string>): string {
    if |ts| == 0 then ""
    else if |ts| == 1 then ts[0]
    else ts[0] + "|" + Join(ts[1..])
  }

  /** The total length of the texts. */
  function TotalLength(ts: seq<string>): nat {
    if |ts| == 0 then 0 else |ts[0]| + TotalLength(ts[1..])
  }

  lemma {:induction false} ConcatLength(ts: seq<string>)
    ensures |Concat(ts)| == TotalLength(ts)
  {
    if |ts| > 0 {
      ConcatLength(ts[1..]);
    }
  }

  lemma {:induction false} ConcatAppend(a: seq<string>, b: seq<string>)
    ensures Concat(a + b) == Concat(a) + Concat(b)
  {
    if |a| == 0 {
      assert a + b == b;
    } else {
      assert (a + b)[1..] == a[1..] + b;
      ConcatAppend(a[1..], b);
    }
  }

  lemma ConcatOne(a: string)
    ensures Concat([a]) == a
  {
    assert [a][1..] == [];
  }

  lemma ConcatTwo(a: string, b: string)
    ensures Concat([a, b]) == a + b
  {
    assert [a, b][1..] == [b];
    ConcatOne(b);
  }

  /** Cutting `a + b + c` around `b`, and putting `d` in its place. */
  lemma Splice(a: string, b: string, c: string, d: string)
    ensures |a| + |b| <= |a + b + c|
    ensures (a + b + c)[..|a|] == a
    ensures (a + b + c)[|a|..|a| + |b|] == b
    ensures (a + b + c)[|a| + |b|..] == c
    ensures a + d + c == (a + b + c)[..|a|] + d + (a + b + c)[|a| + |b|..]
  {
    var t := a + b + c;
    assert t[..|a|] == a;
    assert t[|a|..|a| + |b|] == b;
    assert t[|a| + |b|..] == c;
  }

  /** Text `i` sits right after the texts before it. */
  lemma {:induction false} ConcatSplit(ts: seq<string>, i: nat)
    requires i < |ts|
    ensures Concat(ts) == Concat(ts[..i]) + ts[i] + Concat(ts[i + 1..])
  {
    var mid := [ts[i]] + ts[i + 1..];
    assert ts == ts[..i] + mid;
    ConcatAppend(ts[..i], mid);
    assert mid[1..] == ts[i + 1..];
    assert Concat(mid) == ts[i] + Concat(ts[i + 1..]);
  }

  /** Exchanging text `i` changes the concatenation only between its neighbours. */
  lemma {:induction false} ConcatUpdate(ts: seq<string>, i: nat, t: string)
    requires i < |ts|
    ensures Concat(ts[i := t]) == Concat(ts[..i]) + t + Concat(ts[i + 1..])
  {
    var us := ts[i := t];
    ConcatSplit(us, i);
    assert us[..i] == ts[..i];
    assert us[i + 1..] == ts[i + 1..];
  }

  lemma {:induction false} JoinLength(ts: seq<string>)
    requires |ts| > 0
    ensures |Join(ts)| == TotalLength(ts) + |ts| - 1
  {
    if |ts| > 1 {
      JoinLength(ts[1..]);
    }
  }

  /** Joining two non-empty runs puts one separator between them. */
  lemma {:induction false} JoinAppend(a: seq<string>, b: seq<string>)
    requires |a| > 0 && |b| > 0
    ensures Join(a + b) == Join(a) + "|" + Join(b)
  {
    if |a| == 1 {
      assert (a + b)[1..] == b;
    } else {
      assert (a + b)[1..] == a[1..] + b;
      JoinAppend(a[1..], b);
    }
  }

  /** The text of the part of an alternation before alternate `i`, separators included. */
  function JoinedBefore(ts: seq<string>, i: nat): string
    requires i <= |ts|
  {
    if i == 0 then "" else Join(ts[..i]) + "|"
  }

  /** The text of the part of an alternation after alternate `i`, separators included. */
  function JoinedAfter(ts: seq<string>, i: nat): string
    requires i < |ts|
  {
    if i + 1 == |ts| then "" else "|" + Join(ts[i + 1..])
  }

  /** Alternate `i` sits after the earlier alternates and one separator per earlier alternate. */
  lemma {:induction false} JoinSplit(ts: seq<string>, i: nat)
    requires i < |ts|
    ensures Join(ts) == JoinedBefore(ts, i) + ts[i] + JoinedAfter(ts, i)
    ensures |JoinedBefore(ts, i)| == TotalLength(ts[..i]) + i
  {
    var mid := [ts[i]] + ts[i + 1..];
    assert ts == ts[..i] + mid;
    assert mid[1..] == ts[i + 1..];
    if i > 0 {
      JoinAppend(ts[..i], mid);
      JoinLength(ts[..i]);
    }
    if i + 1 < |ts| {
      assert mid == [ts[i]] + ts[i + 1..];
      JoinAppend([ts[i]], ts[i + 1..]);
    }
  }

  /** Exchanging alternate `i` changes the joined text only between its separators. */
  lemma {:induction false} JoinUpdate(ts: seq<string>, i: nat, t: string)
    requires i < |ts|
    ensures Join(ts[i := t]) == JoinedBefore(ts, i) + t + JoinedAfter(ts, i)
  {
    var us := ts[i := t];
    JoinSplit(us, i);
    assert us[..i] == ts[..i];
    assert us[i + 1..] == ts[i + 1..];
  }

  lemma {:induction false} TotalLengthAppend(a: seq<string>, b: seq<string>)
    ensures TotalLength(a + b) == TotalLength(a) + TotalLength(b)
  {
    if |a| == 0 {
      assert a + b == b;
    } else {
      assert (a + b)[1..] == a[1..] + b;
      TotalLengthAppend(a[1..], b);
    }
  }

  /** The texts before `i + 1` are those before `i` and text `i`. */
  lemma {:induction false} TotalLengthStep(ts: seq<string>, i: nat)
    requires i < |ts|
    ensures TotalLength(ts[..i + 1]) == TotalLength(ts[..i]) + |ts[i]|
  {
    assert ts[..i + 1] == ts[..i] + [ts[i]];
    TotalLengthAppend(ts[..i], [ts[i]]);
  }

  /** A slice inside the middle part of `a + b + c` is a slice of `b`. */
  lemma SliceOfMiddle(a: string, b: string, c: string, x: nat, y: nat)
    requires x <= y <= |b|
    ensures |a| + y <= |a + b + c|
    ensures (a + b + c)[|a| + x..|a| + y] == b[x..y]
  {
    var t := a + b + c;
    forall k | 0 <= k < y - x ensures t[|a| + x..|a| + y][k] == b[x..y][k] {
      assert t[|a| + x + k] == b[x + k];
    }
  }

  /** A slice inside the front part of `a + b` is a slice of `a`. */
  lemma SliceOfFront(a: string, b: string, x: nat, y: nat)
    requires x <= y <= |a|
    ensures (a + b)[x..y] == a[x..y]
  {
    forall k | 0 <= k < y - x ensures (a + b)[x..y][k] == a[x..y][k] {
      assert (a + b)[x + k] == a[x + k];
    }
  }

  /** A slice of a slice is a slice of the whole. */
  lemma SliceOfSlice(t: string, q: nat, s: string, x: nat, y: nat)
    requires q + |s| <= |t| && t[q..q + |s|] == s
    requires x <= y <= |s|
    ensures t[q + x..q + y] == s[x..y]
  {
    forall k | 0 <= k < y - x ensures t[q + x..q + y][k] == s[x..y][k] {
      assert t[q + x + k] == t[q..q + |s|][x + k];
    }
  }

  /** The same, with the inner slice given by its absolute start `a` and its length. */
  lemma SliceInside(t: string, q: nat, s: string, a: nat, len: nat)
    requires q + |s| <= |t| && t[q..q + |s|] == s
    requires q <= a && a - q + len <= |s|
    ensures a + len <= |t| && t[a..a + len] == s[a - q..a - q + len]
  {
    SliceOfSlice(t, q, s, a - q, a - q + len);
  }

  /** A slice holding `a + b` splits into a slice holding `a` and one holding `b`. */
  lemma SliceSplit(t: string, q: nat, a: string, b: string)
    requires q + |a| + |b| <= |t| && t[q..q + |a| + |b|] == a + b
    ensures t[q..q + |a|] == a
    ensures t[q + |a|..q + |a| + |b|] == b
  {
    SliceOfSlice(t, q, a + b, 0, |a|);
    SliceOfSlice(t, q, a + b, |a|, |a| + |b|);
    assert (a + b)[..|a|] == a;
    assert (a + b)[|a|..] == b;
  }

  /** Text `s` is found at position `q` of text `t`. */
  predicate FoundAt(t: string, q: int, s: string) {
    0 <= q && q + |s| <= |t| && t[q..q + |s|] == s
  }

  /** A slice `g` of a text `s` found at `q` is found in `t` too, at `a`. */
  lemma FoundInsideFound(t: string, q: int, s: string, a: int, g: string)
    requires FoundAt(t, q, s) && q <= a && a - q + |g| <= |s| && s[a - q..a - q + |g|] == g
    ensures FoundAt(t, a, g)
  {
    SliceOfSlice(t, q, s, a - q, a - q + |g|);
  }

  /** `a` from a text `a + b` found at `q`. */
  lemma FoundHead(t: string, q: int, a: string, b: string)
    requires FoundAt(t, q, a + b)
    ensures FoundAt(t, q, a)
  {
    SliceOfSlice(t, q, a + b, 0, |a|);
    assert (a + b)[..|a|] == a;
  }

  /** `b` from a text `a + b` found at `q`: it starts at `x`. */
  lemma FoundTail(t: string, q: int, a: string, b: string, x: int)
    requires FoundAt(t, q, a + b) && x == q + |a|
    ensures FoundAt(t, x, b)
  {
    SliceOfSlice(t, q, a + b, |a|, |a| + |b|);
    assert (a + b)[|a|..] == b;
  }

  /** `b` from a text `a + b + c` found at `q`. */
  lemma FoundSecond(t: string, q: int, a: string, b: string, c: string)
    requires FoundAt(t, q, a + b + c)
    ensures FoundAt(t, q + |a|, b)
  {
    FoundHead(t, q, a + b, c);
    FoundTail(t, q, a, b, q + |a|);
  }

  /** `a` from a text `a + b` found at `q`, seen from its end `y`. */
  lemma FoundBefore(t: string, q: int, a: string, b: string, y: int)
    requires FoundAt(t, q, a + b) && y == q + |a|
    ensures |a| <= y && FoundAt(t, y - |a|, a)
  {
    FoundHead(t, q, a, b);
  }

  /** `b` from a text `a + b + c` found at `q`, seen from its end `y`. */
  lemma FoundMiddleBefore(t: string, q: int, a: string, b: string, c: string, y: int)
    requires FoundAt(t, q, a + b + c) && y == q + |a| + |b|
    ensures |b| <= y && FoundAt(t, y - |b|, b)
  {
    FoundHead(t, q, a + b, c);
    FoundTail(t, q, a, b, q + |a|);
  }

  /** `a` from a text `a + b + c` found at `q`, seen from the end `y` of `b`. */
  lemma FoundHeadBefore(t: string, q: int, a: string, b: string, c: string, y: int)
    requires FoundAt(t, q, a + b + c) && y == q + |a| + |b|
    ensures |a| + |b| <= y && FoundAt(t, y - |b| - |a|, a)
  {
    FoundHead(t, q, a + b, c);
    FoundHead(t, q, a, b);
  }

  /** What follows the front part `a` of `a + b` is `b`. */
  lemma RestOf(s: string, a: string, b: string)
    requires s == a + b
    ensures s[|a|..] == b
  {
  }

  /** A slice holding `a + b + c` splits into three slices. */
  lemma SliceSplitThree(t: string, q: nat, a: string, b: string, c: string)
    requires q + |a| + |b| + |c| <= |t| && t[q..q + |a| + |b| + |c|] == a + b + c
    ensures t[q..q + |a|] == a
    ensures t[q + |a|..q + |a| + |b|] == b
    ensures t[q + |a| + |b|..q + |a| + |b| + |c|] == c
  {
    assert a + b + c == a + (b + c);
    SliceSplit(t, q, a, b + c);
    SliceSplit(t, q + |a|, b, c);
  }

  /** A sequence is its three parts cut at `i` and `j`. */
  lemma CutThree<T>(s: seq<T>, i: nat, j: nat)
    requires i <= j <= |s|
    ensures s == s[..i] + s[i..j] + s[j..]
  {
  }

  /** The back part of `x + y`. */
  lemma BackOf<T>(x: seq<T>, y: seq<T>)
    ensures (x + y)[|x|..|x| + |y|] == y
  {
    assert (x + y)[|x|..] == y;
  }

  /** A slice of the front part `a` of `a + b` is that slice of the whole. */
  lemma FrontSliceKept(a: string, b: string, x: int, len: int, g: string)
    requires 0 <= x && 0 <= len && x + len <= |a| && a[x..x + len] == g
    ensures x + len <= |a + b| && (a + b)[x..x + len] == g
  {
    SliceOfFront(a, b, x, x + len);
  }

  /** The middle part of `x + y + z`. */
  lemma MiddleOf<T>(x: seq<T>, y: seq<T>, z: seq<T>)
    ensures (x + y + z)[|x|..|x| + |y|] == y
  {
    forall k | 0 <= k < |y| ensures (x + y + z)[|x|..|x| + |y|][k] == y[k] {
      assert (x + y + z)[|x| + k] == y[k];
    }
  }

  lemma Associate(a: string, b: string, c: string)
    ensures a + b + c == a + (b + c)
  {
  }

  lemma Regroup(a: string, b: string, c: string)
    ensures a + b + c == "" + a + (b + c)
  {
  }

  /** Text `b` between `a` and `c`, all enclosed by `pre` and `post`. */
  lemma Enclose(pre: string, a: string, b: string, c: string, post: string)
    ensures pre + (a + b + c) + post == (pre + a) + b + (c + post)
  {
  }

  /** A text found inside the middle part of `a + b + c` is found in the whole, shifted by `|a|`. */
  lemma FoundInMiddle(t: string, a: string, b: string, c: string, x: nat, s: string)
    requires t == a + b + c
    requires x + |s| <= |b| && b[x..x + |s|] == s
    ensures |a| + x + |s| <= |t| && t[|a| + x..|a| + x + |s|] == s
  {
    SliceOfMiddle(a, b, c, x, x + |s|);
  }

  /** Dropping text `i` leaves the texts before it and the texts after it. */
  lemma ConcatDrop(ts: seq<string>, i: nat)
    requires i < |ts|
    ensures Concat(ts[..i] + ts[i + 1..]) == Concat(ts[..i]) + Concat(ts[i + 1..])
  {
    ConcatAppend(ts[..i], ts[i + 1..]);
  }

  /** Putting `p` on the front of text `i + 1` in place of text `i`. */
  lemma ConcatMerge(ts: seq<string>, i: nat, p: string)
    requires i + 1 < |ts|
    ensures Concat(ts[..i] + [p + ts[i + 1]] + ts[i + 2..]) == Concat(ts[..i]) + p + Concat(ts[i + 1..])
  {
    var t := p + ts[i + 1];
    ConcatAppend(ts[..i] + [t], ts[i + 2..]);
    ConcatAppend(ts[..i], [t]);
    ConcatOne(t);
    assert ts[i + 1..][1..] == ts[i + 2..];
  }

  /** Putting `x` in place of texts `i` and `i + 1`. */
  lemma ConcatReplaceTwo(ts: seq<string>, i: nat, x: string)
    requires i + 1 < |ts|
    ensures Concat(ts[..i] + [x] + ts[i + 2..]) == Concat(ts[..i]) + x + Concat(ts[i + 2..])
  {
    ConcatAppend(ts[..i] + [x], ts[i + 2..]);
    ConcatAppend(ts[..i], [x]);
    ConcatOne(x);
  }

  /** Putting `p` in place of the last text. */
  lemma ConcatLast(ts: seq<string>, i: nat, p: string)
    requires i + 1 == |ts|
    ensures Concat(ts[..i] + [p]) == Concat(ts[..i]) + p + Concat(ts[i + 1..])
  {
    ConcatAppend(ts[..i], [p]);
    ConcatOne(p);
    assert ts[i + 1..] == [];
  }

  /** Exchanging a piece inside the middle part `b` of `a + b + c` exchanges it inside the whole. */
  lemma SpliceInside(a: string, b: string, c: string, x: nat, len: nat, s: string)
    requires x + len <= |b|
    ensures |a| + x + len <= |a + b + c|
    ensures a + (b[..x] + s + b[x + len..]) + c == (a + b + c)[..|a| + x] + s + (a + b + c)[|a| + x + len..]
  {
    var t := a + b + c;
    assert t[..|a| + x] == a + b[..x];
    assert t[|a| + x + len..] == b[x + len..] + c;
  }

  /** `result` is `whole` with the `len` characters at `q` replaced by `s`. */
  predicate Spliced(whole: string, q: int, len: int, s: string, result: string) {
    0 <= q && 0 <= len && q + len <= |whole| && result == whole[..q] + s + whole[q + len..]
  }

  /** A splice inside the middle part of `a + b + c` is a splice of the whole, shifted by `|a|`. */
  lemma SpliceStep(whole: string, rebuilt: string, a: string, b: string, c: string, b': string,
                   x: int, len: int, s: string)
    requires whole == a + b + c && rebuilt == a + b' + c
    requires Spliced(b, x, len, s, b')
    ensures Spliced(whole, |a| + x, len, s, rebuilt)
  {
    SpliceInside(a, b, c, x, len, s);
  }

  /** `SpliceStep` with the splice's position in the whole given by name. */
  lemma SpliceShift(whole: string, rebuilt: string, a: string, b: string, c: string, b': string,
                    x: int, len: int, s: string, q: int)
    requires whole == a + b + c && rebuilt == a + b' + c
    requires Spliced(b, x, len, s, b') && q == |a| + x
    ensures Spliced(whole, q, len, s, rebuilt)
  {
    SpliceStep(whole, rebuilt, a, b, c, b', x, len, s);
  }

  /** A prefix written before a text of five pieces. */
  lemma Prepend5(p: string, a: string, b: string, c: string, d: string, e: string)
    ensures p + (a + b + c + d + e) == p + a + b + c + d + e
  {
  }

  /** A prefix written before a text of three pieces. */
  lemma InsertTwo(pre: string, a: string, b: string, post: string)
    ensures pre + (a + b) + post == pre + a + b + post
  {
  }

  lemma Prepend3(p: string, a: string, b: string, c: string)
    ensures p + (a + b + c) == p + a + b + c
  {
  }

  /** Four pieces written between a beginning and an end. */
  lemma InsertFour(pre: string, a: string, b: string, c: string, d: string, post: string)
    ensures pre + (a + b + c + d) + post == pre + a + b + c + d + post
  {
  }

  /** Two pieces written, as one, between an opening and a closing after a prefix. */
  lemma WrapTwo(p: string, opening: string, c: string, a: string, b: string, closing: string)
    requires c == a + b
    ensures p + (opening + c + closing) == p + opening + a + b + closing
  {
  }
}
