/** Specification of zero segregation on values: how many zeros a sequence
    holds, the subsequence of its non-zero elements, and the arrangement the
    in-place routine must produce (all zeros first, then the non-zeros in
    their original order). */
module ZeroSpec {

  /** Number of elements equal to zero. */
  function CountZeros(s: seq<int>): (r: nat)
    ensures r <= |s|
  {
    if s == [] then 0
    else (if s[0] == 0 then 1 else 0) + CountZeros(s[1..])
  }

  /** The non-zero elements of `s`, left to right (a filter). */
  function NonZeros(s: seq<int>): (r: seq<int>)
    ensures forall k :: 0 <= k < |r| ==> r[k] != 0
    ensures |r| + CountZeros(s) == |s|
  {
    if s == [] then []
    else if s[0] == 0 then NonZeros(s[1..])
    else [s[0]] + NonZeros(s[1..])
  }

  /** `n` zeros. */
  function Zeros(n: nat): seq<int>
  {
    seq(n, _ => 0)
  }

  /** Every zero precedes every non-zero. */
  predicate IsSegregated(s: seq<int>)
  {
    forall i, j :: 0 <= i < j < |s| && s[j] == 0 ==> s[i] == 0
  }

  /** The arrangement the routine produces: the zeros of `s`, then its
      non-zeros in their original order. */
  function Segregated(s: seq<int>): (r: seq<int>)
    ensures |r| == |s|
    ensures forall k :: 0 <= k < |r| ==> (r[k] == 0 <==> k < CountZeros(s))
  {
    Zeros(CountZeros(s)) + NonZeros(s)
  }

  /** CountZeros agrees with the multiplicity of 0 in the multiset. */
  lemma {:induction false} CountZerosMultiplicity(s: seq<int>)
    ensures CountZeros(s) == multiset(s)[0]
  {
    if s != [] {
      CountZerosMultiplicity(s[1..]);
      assert s == [s[0]] + s[1..];
    }
  }

  /** Counting distributes over concatenation. */
  lemma CountZerosConcat(s: seq<int>, t: seq<int>)
    ensures CountZeros(s + t) == CountZeros(s) + CountZeros(t)
  {
    CountZerosMultiplicity(s + t);
    CountZerosMultiplicity(s);
    CountZerosMultiplicity(t);
  }

  /** Filtering distributes over concatenation. */
  lemma {:induction false} NonZerosConcat(s: seq<int>, t: seq<int>)
    ensures NonZeros(s + t) == NonZeros(s) + NonZeros(t)
  {
    if s == [] {
      assert s + t == t;
    } else {
      assert (s + t)[1..] == s[1..] + t;
      NonZerosConcat(s[1..], t);
    }
  }

  /** A sequence without zeros is its own filter. */
  lemma {:induction false} NonZerosOfNoZeros(s: seq<int>)
    requires forall k :: 0 <= k < |s| ==> s[k] != 0
    ensures NonZeros(s) == s
  {
    if s != [] {
      NonZerosOfNoZeros(s[1..]);
    }
  }

  /** All elements are zero exactly when the count of zeros is the length. */
  lemma {:induction false} AllZerosIff(s: seq<int>)
    ensures CountZeros(s) == |s| <==> forall k :: 0 <= k < |s| ==> s[k] == 0
  {
    if s != [] {
      AllZerosIff(s[1..]);
      if CountZeros(s) == |s| {
        assert s[0] == 0;
        forall k | 1 <= k < |s| ensures s[k] == 0 {
          assert s[k] == s[1..][k - 1];
        }
      }
      if forall k :: 0 <= k < |s| ==> s[k] == 0 {
        assert forall k :: 0 <= k < |s[1..]| ==> s[1..][k] == s[k + 1];
      }
    }
  }

  /** A filter of zeros is empty. */
  lemma NonZerosOfZeros(n: nat)
    ensures NonZeros(Zeros(n)) == []
  {
    AllZerosIff(Zeros(n));
  }

  /** `n` zeros form the multiset holding 0 exactly `n` times. */
  lemma {:induction false} ZerosMultiset(n: nat)
    ensures multiset(Zeros(n)) == multiset{}[0 := n]
  {
    if n == 0 {
      assert Zeros(0) == [];
    } else {
      ZerosMultiset(n - 1);
      assert Zeros(n) == [0] + Zeros(n - 1);
    }
  }

  /** Filtering removes exactly the zeros from the multiset. */
  lemma {:induction false} NonZerosMultiset(s: seq<int>)
    ensures multiset(NonZeros(s)) == multiset(s)[0 := 0]
  {
    if s != [] {
      var t := s[1..];
      NonZerosMultiset(t);
      assert s == [s[0]] + t;
      assert multiset(s) == multiset{s[0]} + multiset(t);
      if s[0] != 0 {
        assert NonZeros(s) == [s[0]] + NonZeros(t);
      }
    }
  }

  /** Segregation is a permutation. */
  lemma SegregatedPermutation(s: seq<int>)
    ensures multiset(Segregated(s)) == multiset(s)
  {
    var c := CountZeros(s);
    CountZerosMultiplicity(s);
    ZerosMultiset(c);
    NonZerosMultiset(s);
    assert multiset(Segregated(s)) == multiset(Zeros(c)) + multiset(NonZeros(s));
  }

  /** Segregation keeps the non-zero subsequence unchanged. */
  lemma SegregatedKeepsNonZeros(s: seq<int>)
    ensures NonZeros(Segregated(s)) == NonZeros(s)
  {
    var nz := NonZeros(s);
    NonZerosConcat(Zeros(CountZeros(s)), nz);
    NonZerosOfZeros(CountZeros(s));
    NonZerosOfNoZeros(nz);
  }

  /** The already-segregated sequences are exactly the fixed points. */
  lemma {:induction false} SegregatedFixedPoint(s: seq<int>)
    ensures Segregated(s) == s <==> IsSegregated(s)
  {
    if IsSegregated(s) && s != [] {
      if s[0] == 0 {
        var t := s[1..];
        assert IsSegregated(t) by {
          forall i, j | 0 <= i < j < |t| && t[j] == 0 ensures t[i] == 0 {
            assert s[j + 1] == 0;
          }
        }
        SegregatedFixedPoint(t);
        assert Zeros(CountZeros(s)) == [0] + Zeros(CountZeros(t));
      } else {
        assert forall k :: 0 <= k < |s| ==> s[k] != 0;
        NonZerosOfNoZeros(s);
      }
    }
  }

  /** Segregated(s) is the only sequence of the same length whose zeros come
      first and whose non-zero subsequence is that of `s`. */
  lemma SegregatedCharacterization(s: seq<int>, t: seq<int>)
    ensures t == Segregated(s) <==>
      |t| == |s| && IsSegregated(t) && NonZeros(t) == NonZeros(s)
  {
    if t == Segregated(s) {
      SegregatedKeepsNonZeros(s);
    }
    if |t| == |s| && IsSegregated(t) && NonZeros(t) == NonZeros(s) {
      SegregatedFixedPoint(t);
      assert CountZeros(t) == CountZeros(s);
    }
  }

  /** Segregating twice is segregating once. */
  lemma SegregatedIdempotent(s: seq<int>)
    ensures Segregated(Segregated(s)) == Segregated(s)
  {
    SegregatedFixedPoint(Segregated(s));
  }

  /** On a segregated input with at least one zero the last zero sits at
      index CountZeros(s) - 1, so the backward pass has nothing to move. */
  lemma SegregatedLastZero(s: seq<int>)
    requires IsSegregated(s) && CountZeros(s) > 0
    ensures s[CountZeros(s) - 1] == 0
    ensures forall j :: CountZeros(s) <= j < |s| ==> s[j] != 0
  {
    SegregatedFixedPoint(s);
  }

  /** The worked example: four zeros, non-zeros 1, 2, 3, 4 in order. */
  lemma WorkedExample()
    ensures Segregated([0, 1, 2, 0, 3, 0, 0, 4]) == [0, 0, 0, 0, 1, 2, 3, 4]
  {
  }

  /** The boundary cases: empty, no zeros, all zeros, a lone leading zero. */
  lemma BoundaryCases()
    ensures Segregated([]) == []
    ensures Segregated([1, 2, 3]) == [1, 2, 3]
    ensures Segregated([0, 0, 0]) == [0, 0, 0]
    ensures Segregated([0, 1, 2]) == [0, 1, 2]
  {
  }
}
