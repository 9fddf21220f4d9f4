/**
 Cutting a list into batches (utils/commom.go, `SubArray`).
 */
module Batches {
  import opened Arith

  /** Consecutive pieces of n elements, the last one possibly shorter; a list that fits is its own only piece. */
  function Segments<T>(n: nat, s: seq<T>): (segs: seq<seq<T>>)
    requires n > 0 || s == []
    ensures |segs| > 0
    decreases |s|
  {
    if |s| <= n then [s] else [s[..n]] + Segments(n, s[n..])
  }

  function Flatten<T>(segs: seq<seq<T>>): seq<T> {
    if segs == [] then [] else segs[0] + Flatten(segs[1..])
  }

  /** `SubArray`, with its division by zero when a non-empty list is to be cut into pieces of zero. */
  method SubArray<T>(subLen: nat, a: seq<T>) returns (r: Option<seq<seq<T>>>)
    ensures r.None? <==> subLen == 0 && a != []
    ensures r.Some? ==> r.value == Segments(subLen, a)
  {
    var maxLen := |a|;
    if maxLen <= subLen { return Some([a]); }
    if subLen == 0 { return None; }
    var batch := maxLen / subLen;
    if maxLen % subLen > 0 {
      batch := batch + 1;
    }
    CeilCount(maxLen, subLen, batch);
    hide Segments;
    var segments: seq<seq<T>> := [];
    ghost var at := 0;
    assert a[at..] == a;
    for i := 1 to batch + 1
      invariant at == (i - 1) * subLen
      invariant i <= batch ==> 0 <= at <= maxLen && segments + Segments(subLen, a[at..]) == Segments(subLen, a)
      invariant i == batch + 1 ==> segments == Segments(subLen, a)
    {
      var start, end := (i - 1) * subLen, i * subLen;
      NextPiece(maxLen, subLen, batch, i, start, end);
      segments := AddPiece(subLen, a, segments, start, end, i == batch);
      at := end;
    }
    return Some(segments);
  }

  /** One round of the loop: the piece a[start..end], or all that is left if it is the last. */
  method AddPiece<T>(subLen: nat, a: seq<T>, segments: seq<seq<T>>, start: nat, end: nat, last: bool) returns (r: seq<seq<T>>)
    requires subLen > 0 && start <= |a| && end == start + subLen
    requires last <==> |a| <= end
    ensures last ==> r == segments + Segments(subLen, a[start..])
    ensures !last ==> r + Segments(subLen, a[end..]) == segments + Segments(subLen, a[start..])
  {
    hide Segments;
    FirstPiece(subLen, a[start..], segments);
    if !last {
      Slices(a, start, end);
      r := segments + [a[start..end]];
    } else {
      assert a[start..|a|] == a[start..];
      r := segments + [a[start..|a|]];
    }
  }

  lemma Slices<T>(a: seq<T>, start: nat, end: nat)
    requires start <= end <= |a|
    ensures a[start..][..end - start] == a[start..end] && a[start..][end - start..] == a[end..]
  {
  }

  lemma FirstPiece<T>(n: nat, s: seq<T>, before: seq<seq<T>>)
    requires n > 0
    ensures |s| <= n ==> before + Segments(n, s) == before + [s]
    ensures |s| > n ==> before + Segments(n, s) == before + [s[..n]] + Segments(n, s[n..])
  {
  }

  lemma CeilCount(maxLen: nat, subLen: nat, batch: nat)
    requires 0 < subLen < maxLen && batch == maxLen / subLen + if maxLen % subLen > 0 then 1 else 0
    ensures batch >= 1 && (batch - 1) * subLen < maxLen <= batch * subLen
  {
    var q := maxLen / subLen;
    assert maxLen == q * subLen + maxLen % subLen;
    assert (q + 1) * subLen == q * subLen + subLen && (q - 1) * subLen == q * subLen - subLen;
    FloorLeast(maxLen, subLen, 1);
  }

  /** Piece i starts inside the list, and is the last exactly when it reaches the end. */
  lemma NextPiece(maxLen: nat, subLen: nat, batch: nat, i: nat, start: int, end: int)
    requires subLen > 0 && 1 <= i <= batch && (batch - 1) * subLen < maxLen <= batch * subLen
    requires start == (i - 1) * subLen && end == i * subLen
    ensures 0 <= start < maxLen && end == start + subLen
    ensures i == batch <==> maxLen <= end
  {
    MulMono(0, i - 1, subLen);
    MulMono(i - 1, batch - 1, subLen);
    if i < batch { MulMono(i, batch - 1, subLen); }
    assert i * subLen == (i - 1) * subLen + subLen;
  }

  /** Nothing is lost, repeated or reordered, and no piece is empty or too long. */
  lemma {:induction false} SegmentsCover<T>(n: nat, s: seq<T>)
    requires n > 0 && s != []
    ensures Flatten(Segments(n, s)) == s
    ensures forall i :: 0 <= i < |Segments(n, s)| ==> 0 < |Segments(n, s)[i]| <= n
    decreases |s|
  {
    var segs := Segments(n, s);
    if |s| <= n {
      assert Flatten(segs[1..]) == [];
    } else {
      SegmentsCover(n, s[n..]);
      assert segs[1..] == Segments(n, s[n..]);
      assert s == s[..n] + s[n..];
    }
  }

  /** The pieces from the i-th on are the pieces of what the first i leave over. */
  lemma {:induction false} SegmentsFrom<T>(n: nat, s: seq<T>, i: nat)
    requires n > 0 && i < |Segments(n, s)|
    ensures i * n <= |s|
    ensures Segments(n, s)[i..] == Segments(n, s[i * n..])
    decreases i
  {
    if i == 0 {
      assert s[0..] == s;
    } else {
      SegmentsFrom(n, s[n..], i - 1);
      assert i * n == (i - 1) * n + n;
      assert s[n..][(i - 1) * n..] == s[i * n..];
      assert Segments(n, s)[i..] == Segments(n, s[n..])[i - 1..];
    }
  }

  /** As many pieces as full ones fit, and one more for a rest. */
  lemma {:induction false} SegmentCount<T>(n: nat, s: seq<T>)
    requires n > 0 && s != []
    ensures |Segments(n, s)| == (|s| + n - 1) / n
    decreases |s|
  {
    if |s| <= n {
      FloorLeast(|s| + n - 1, n, 1);
      FloorLeast(|s| + n - 1, n, 2);
    } else {
      SegmentCount(n, s[n..]);
      OneMore(|s| - 1, n);
    }
  }

  lemma OneMore(x: nat, n: nat)
    requires n > 0
    ensures (x + n) / n == x / n + 1
  {
    var q := x / n;
    FloorLeast(x, n, q);
    FloorLeast(x, n, q + 1);
    FloorLeast(x + n, n, q + 1);
    FloorLeast(x + n, n, q + 2);
    assert (q + 1) * n == q * n + n && (q + 2) * n == (q + 1) * n + n;
  }

  lemma {:induction false} FlattenAppend<T>(segs: seq<seq<T>>, x: seq<T>)
    ensures Flatten(segs + [x]) == Flatten(segs) + x
  {
    if segs == [] {
      assert Flatten(([x])[1..]) == [];
      assert segs + [x] == [x];
    } else {
      FlattenAppend(segs[1..], x);
      assert (segs + [x])[1..] == segs[1..] + [x];
    }
  }
}
