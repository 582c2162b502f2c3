/** Rotations of a sequence and the test for them. */
module Rotation {
  import opened Collections

  ghost function Rotate<T>(s: seq<T>, k: nat): seq<T>
    requires k <= |s|
  {
    s[k..] + s[..k]
  }

  ghost predicate IsRotation<T>(s: seq<T>, t: seq<T>) {
    exists k: nat :: k <= |s| && t == Rotate(s, k)
  }

  lemma RotationSymmetric<T>(s: seq<T>, t: seq<T>)
    requires IsRotation(s, t)
    ensures IsRotation(t, s)
  {
    var k: nat :| k <= |s| && t == Rotate(s, k);
    assert s == Rotate(t, |s| - k);
  }

  lemma RotationTransitive<T>(s: seq<T>, t: seq<T>, u: seq<T>)
    requires IsRotation(s, t) && IsRotation(t, u)
    ensures IsRotation(s, u)
  {
    var j: nat :| j <= |s| && t == Rotate(s, j);
    var k: nat :| k <= |t| && u == Rotate(t, k);
    RotateTwice(s, j, k);
  }

  lemma RotateTwice<T>(s: seq<T>, j: nat, k: nat)
    requires j <= |s| && k <= |s|
    ensures Rotate(Rotate(s, j), k) == Rotate(s, if j + k <= |s| then j + k else j + k - |s|)
  {
    var t, m := Rotate(s, j), if j + k <= |s| then j + k else j + k - |s|;
    forall i | 0 <= i < |s| ensures Rotate(t, k)[i] == Rotate(s, m)[i] {
    }
  }

  /** None is the failed look at the head of an empty second sequence. */
  method IsRotated<T(==)>(seq1: seq<T>, seq2: seq<T>) returns (r: Option<bool>)
    ensures r.None? <==> seq1 == [] && seq2 == []
    ensures r.Some? ==> (r.value <==> IsRotation(seq1, seq2))
  {
    if |seq1| != |seq2| {
      return Some(false);
    }
    if seq2 == [] {
      return None;
    }
    var startIndexes: seq<nat> := [];
    var headItem := seq2[0];
    for index1 := 0 to |seq1|
      invariant forall k: nat :: k in startIndexes <==> k < index1 && seq1[k] == headItem
    {
      if seq1[index1] == headItem {
        startIndexes := startIndexes + [index1];
      }
    }
    var doubleSeq1 := seq1 + seq1;
    for n := 0 to |startIndexes|
      invariant forall k: nat :: k in startIndexes[..n] && k < |seq1| ==> Rotate(seq1, k) != seq2
    {
      var index1 := startIndexes[n];
      assert index1 in startIndexes;
      assert doubleSeq1[index1..index1 + |seq1|] == Rotate(seq1, index1);
      if doubleSeq1[index1..index1 + |seq1|] == seq2 {
        return Some(true);
      }
    }
    NotRotated(seq1, seq2, startIndexes);
    r := Some(false);
  }

  lemma NotRotated<T>(seq1: seq<T>, seq2: seq<T>, starts: seq<nat>)
    requires |seq1| == |seq2| && seq2 != []
    requires forall k: nat :: k in starts <==> k < |seq1| && seq1[k] == seq2[0]
    requires forall k: nat :: k in starts && k < |seq1| ==> Rotate(seq1, k) != seq2
    ensures !IsRotation(seq1, seq2)
  {
    assert Rotate(seq1, |seq1|) == Rotate(seq1, 0);
    forall k: nat | k < |seq1| ensures seq2 != Rotate(seq1, k) {
      assert Rotate(seq1, k)[0] == seq1[k];
      if seq1[k] == seq2[0] {
        assert k in starts;
      }
    }
  }
}
