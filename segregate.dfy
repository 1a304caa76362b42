/** The two-pass, in-place routine that moves every zero of an integer array
    to the front while the non-zero elements keep their left-to-right order.
    No second array is used: the only extra state is a few index cursors. */
module SegregateArrayZeros {
  import opened ZeroSpec

  /** First pass: the number of zeros and the index of the last zero, or -1
      when there is none. Reads the array and changes nothing. */
  method ScanZeros(a: array<int>) returns (count: nat, lastZero: int)
    ensures count == CountZeros(a[..])
    ensures -1 <= lastZero < a.Length
    ensures lastZero >= 0 ==> a[lastZero] == 0
    ensures forall j :: lastZero < j < a.Length ==> a[j] != 0
    ensures lastZero == -1 <==> count == 0
  {
    count, lastZero := 0, -1;
    for i := 0 to a.Length
      invariant count == CountZeros(a[..i])
      invariant -1 <= lastZero < i
      invariant lastZero >= 0 ==> a[lastZero] == 0
      invariant forall j :: lastZero < j < i ==> a[j] != 0
      invariant lastZero == -1 <==> count == 0
    {
      assert a[..i + 1] == a[..i] + [a[i]];
      CountZerosConcat(a[..i], [a[i]]);
      if a[i] == 0 {
        count := count + 1;
        lastZero := i;
      }
    }
    assert a[..a.Length] == a[..];
  }

  /** The inputs the routine returns from before its second pass (no zeros,
      only zeros, or a single zero at index 0) are already segregated. */
  lemma EarlyExitsAreFixedPoints(s: seq<int>, lastZero: int)
    requires -1 <= lastZero < |s|
    requires lastZero >= 0 ==> s[lastZero] == 0
    requires forall j :: lastZero < j < |s| ==> s[j] != 0
    requires CountZeros(s) == 0 || CountZeros(s) == |s| || lastZero == 0
    ensures Segregated(s) == s
  {
    if CountZeros(s) == 0 {
      CountZerosMultiplicity(s);
      assert forall k :: 0 <= k < |s| ==> s[k] != 0 by {
        forall k | 0 <= k < |s| ensures s[k] != 0 {
          assert s[k] in multiset(s);
        }
      }
    } else if CountZeros(s) == |s| {
      AllZerosIff(s);
    }
    SegregatedFixedPoint(s);
  }

  /** Second pass helper fact: the last zero of `s` has at least
      CountZeros(s) - 1 cells before it. */
  lemma LastZeroBound(s: seq<int>, lastZero: int)
    requires 0 <= lastZero < |s|
    requires forall j :: lastZero < j < |s| ==> s[j] != 0
    ensures CountZeros(s) <= lastZero + 1
  {
    var tail := s[lastZero + 1..];
    assert s == s[..lastZero + 1] + tail;
    CountZerosConcat(s[..lastZero + 1], tail);
    NonZerosOfNoZeros(tail);
  }

  /** The invariant of the backward pass over the input `s` and the current
      contents `t`: cells up to the read cursor `current` are untouched, the
      cells in (current, fill] hold 0, and the cells after the fill point are
      the non-zeros of s[current + 1..] in order. */
  ghost predicate FillInvariant(s: seq<int>, t: seq<int>, count: int, current: int, fill: int)
  {
    && |t| == |s|
    && -1 <= current < fill < |t|
    && count - 1 <= fill
    && (forall k :: 0 <= k <= current ==> t[k] == s[k])
    && (forall k :: current < k <= fill ==> t[k] == 0)
    && t[fill + 1..] == NonZeros(s[current + 1..])
  }

  /** Before the backward pass: the read cursor just left of the last zero,
      the fill point on it. */
  lemma FillInvariantInit(s: seq<int>, count: int, lastZero: int)
    requires 0 <= lastZero < |s| && s[lastZero] == 0
    requires forall j :: lastZero < j < |s| ==> s[j] != 0
    requires count == CountZeros(s)
    ensures FillInvariant(s, s, count, lastZero - 1, lastZero)
  {
    LastZeroBound(s, lastZero);
    assert s[lastZero..][1..] == s[lastZero + 1..];
    NonZerosOfNoZeros(s[lastZero + 1..]);
  }

  /** A non-zero at the read cursor moves to the fill point, which holds 0,
      and its old cell becomes 0: nothing is lost. */
  lemma FillInvariantMove(s: seq<int>, t: seq<int>, u: seq<int>, count: int, current: int, fill: int)
    requires FillInvariant(s, t, count, current, fill)
    requires current >= 0 && fill > count - 1 && t[current] != 0
    requires u == t[fill := t[current]][current := 0]
    ensures FillInvariant(s, u, count, current - 1, fill - 1)
  {
  }

  /** A zero at the read cursor stays where it is. */
  lemma FillInvariantSkip(s: seq<int>, t: seq<int>, count: int, current: int, fill: int)
    requires FillInvariant(s, t, count, current, fill)
    requires current >= 0 && t[current] == 0
    ensures FillInvariant(s, t, count, current - 1, fill)
  {
  }

  /** When the backward pass stops (its read cursor ran off the front, or the
      fill point reached count - 1), the cells after the fill point hold all
      the non-zeros of `s` and the unread prefix holds none. */
  lemma LoopExitCounts(s: seq<int>, t: seq<int>, count: int, current: int, fill: int)
    requires count == CountZeros(s) && |t| == |s|
    requires -1 <= current < fill < |t| && count - 1 <= fill
    requires t[fill + 1..] == NonZeros(s[current + 1..])
    requires current < 0 || fill <= count - 1
    ensures fill + 1 == count
    ensures t[count..] == NonZeros(s)
    ensures forall k :: 0 <= k <= current ==> s[k] == 0
  {
    var unread, done := s[..current + 1], s[current + 1..];
    assert NonZeros(s) == NonZeros(unread) + t[fill + 1..] by {
      assert s == unread + done;
      NonZerosConcat(unread, done);
    }
    // The placed non-zeros already number all of them, so the unread
    // prefix holds only zeros.
    assert |NonZeros(s)| == |s| - count;
    assert |t[fill + 1..]| == |s| - fill - 1;
    assert NonZeros(unread) == [];
    AllZerosIff(unread);
    forall k | 0 <= k <= current ensures s[k] == 0 {
      assert s[k] == unread[k];
    }
  }

  /** At that point the invariant pins the array down to Segregated(s):
      zeros in [0, count), the non-zeros of `s` after them. */
  lemma LoopExitIsSegregated(s: seq<int>, t: seq<int>, count: int, current: int, fill: int)
    requires count == CountZeros(s)
    requires FillInvariant(s, t, count, current, fill)
    requires current < 0 || fill <= count - 1
    ensures t == Segregated(s)
  {
    LoopExitCounts(s, t, count, current, fill);
    assert t[..count] == Zeros(count);
    assert t == t[..count] + t[count..];
  }

  /** The promises of the routine that follow from its result being
      Segregated(s), gathered for its exits. */
  lemma SegregatedProperties(s: seq<int>)
    ensures multiset(Segregated(s)) == multiset(s)
    ensures NonZeros(Segregated(s)) == NonZeros(s)
    ensures IsSegregated(s) ==> Segregated(s) == s
  {
    SegregatedPermutation(s);
    SegregatedKeepsNonZeros(s);
    SegregatedFixedPoint(s);
  }

  /** Second pass: walks a read cursor down from lastZero - 1 and uses
      `lastZero` as the fill point, moving each non-zero it meets to the fill
      point and zeroing its old cell, until the cursor runs off the front or
      the fill point reaches count - 1. Given the first pass's results and
      at least one zero it leaves the array segregated, so the exits for
      "only zeros" and "last zero at index 0" are shortcuts; the exit for
      "no zeros" is not, since there is no fill point then. */
  method ShiftNonZeros(a: array<int>, count: int, lastZero: int)
    requires count == CountZeros(a[..])
    requires 0 <= lastZero < a.Length && a[lastZero] == 0
    requires forall j :: lastZero < j < a.Length ==> a[j] != 0
    modifies a
    ensures a[..] == Segregated(old(a[..]))
  {
    ghost var s := a[..];
    var fill, current := lastZero, lastZero - 1;
    ghost var t := s;
    FillInvariantInit(s, count, lastZero);
    while current >= 0 && fill > count - 1
      invariant a[..] == t
      invariant FillInvariant(s, t, count, current, fill)
      decreases current + 1
    {
      if a[current] != 0 {
        ghost var u := t[fill := t[current]][current := 0];
        FillInvariantMove(s, t, u, count, current, fill);
        t := u;
        a[fill] := a[current];
        a[current] := 0;
        fill := fill - 1;
      } else {
        FillInvariantSkip(s, t, count, current, fill);
      }
      current := current - 1;
    }
    LoopExitIsSegregated(s, t, count, current, fill);
  }

  /** Rearranges `a` in place: all zeros first, then the non-zeros in their
      original order. */
  method Segregate(a: array<int>)
    modifies a
    ensures a[..] == Segregated(old(a[..]))
    ensures multiset(a[..]) == multiset(old(a[..]))
    ensures NonZeros(a[..]) == NonZeros(old(a[..]))
    ensures IsSegregated(old(a[..])) ==> a[..] == old(a[..])
  {
    ghost var s := a[..];
    SegregatedProperties(s);
    var count, lastZero := ScanZeros(a);
    if count == 0 || count == a.Length {
      EarlyExitsAreFixedPoints(s, lastZero);
      return;
    }
    if lastZero == 0 {
      EarlyExitsAreFixedPoints(s, lastZero);
      return;
    }
    ShiftNonZeros(a, count, lastZero);
  }

  /** The routine run on the worked example of the class comment. */
  method SegregateWorkedExample() returns (r: seq<int>)
    ensures r == [0, 0, 0, 0, 1, 2, 3, 4]
  {
    var a := new int[] [0, 1, 2, 0, 3, 0, 0, 4];
    assert a[..] == [0, 1, 2, 0, 3, 0, 0, 4];
    Segregate(a);
    WorkedExample();
    r := a[..];
  }
}
