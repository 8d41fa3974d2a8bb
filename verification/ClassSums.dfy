/**
Sums over sequences and over the classes of a labelling.
 */
module ClassSums {
  import opened ModuleInfo
  import opened Partitioner

  /** The weights of what is labelled below `t`. */
  ghost function Masked(lab: seq<nat>, w: seq<nat>, t: nat): (s: seq<nat>)
    requires |lab| == |w|
    ensures |s| == |w| && forall i :: 0 <= i < |w| ==> s[i] == if lab[i] < t then w[i] else 0
  {
    seq(|w|, i requires 0 <= i < |w| => if lab[i] < t then w[i] else 0)
  }

  lemma {:induction false} SumZero(s: seq<nat>)
    requires forall i :: 0 <= i < |s| ==> s[i] == 0
    ensures Sum(s) == 0
  {
    if |s| > 0 {
      SumZero(s[..|s| - 1]);
    }
  }

  lemma {:induction false} SumBump(s: seq<nat>, q: nat, c: nat)
    requires q < |s|
    ensures Sum(s[q := s[q] + c]) == Sum(s) + c
  {
    var n := |s| - 1;
    var s' := s[q := s[q] + c];
    if q < n {
      SumBump(s[..n], q, c);
      assert s'[..n] == s[..n][q := s[..n][q] + c];
    } else {
      assert s'[..n] == s[..n];
    }
  }

  /** The classes below `t` together weigh what is labelled below `t`. */
  lemma {:induction false} ClassesSum(lab: seq<nat>, w: seq<nat>, loads: seq<nat>)
    requires |lab| == |w| && forall q: nat :: q < |loads| ==> loads[q] == ClassWeight(lab, w, q)
    ensures Sum(loads) == Sum(Masked(lab, w, |loads|))
  {
    if |lab| == 0 {
      SumZero(loads);
    } else {
      var n, t := |lab| - 1, |loads|;
      var before := seq(t, q requires 0 <= q < t => ClassWeight(lab[..n], w[..n], q));
      ClassesSum(lab[..n], w[..n], before);
      assert Masked(lab, w, t)[..n] == Masked(lab[..n], w[..n], t);
      forall q: nat | q < t
        ensures loads[q] == before[q] + (if lab[n] == q then w[n] else 0)
      {
        ClassWeightLast(lab, w, q);
      }
      hide ClassWeight;
      if lab[n] < t {
        SumBump(before, lab[n], w[n]);
        assert loads == before[lab[n] := before[lab[n]] + w[n]];
      } else {
        assert loads == before;
      }
    }
  }

  lemma {:induction false} SumCompare(a: seq<nat>, b: seq<nat>)
    requires |a| == |b| && forall i :: 0 <= i < |a| ==> a[i] <= b[i]
    ensures Sum(a) <= Sum(b)
    ensures Sum(a) == Sum(b) <==> forall i :: 0 <= i < |a| ==> a[i] == b[i]
  {
    if |a| > 0 {
      var n := |a| - 1;
      SumCompare(a[..n], b[..n]);
      assert forall i :: 0 <= i < n ==> a[i] == a[..n][i] && b[i] == b[..n][i];
    }
  }

  lemma {:induction false} SubClass(lab: seq<nat>, lab': seq<nat>, w: seq<nat>, a: nat, b: nat)
    requires |lab| == |lab'| == |w| && forall i :: 0 <= i < |lab| && lab[i] == a ==> lab'[i] == b
    ensures ClassWeight(lab, w, a) <= ClassWeight(lab', w, b)
  {
    if |lab| > 0 {
      var n := |lab| - 1;
      SubClass(lab[..n], lab'[..n], w[..n], a, b);
    }
  }

  lemma {:induction false} SumAtMost(s: seq<nat>, b: nat)
    requires forall i :: 0 <= i < |s| ==> s[i] <= b
    ensures Sum(s) <= |s| * b
  {
    if |s| > 0 {
      SumAtMost(s[..|s| - 1], b);
      assert |s| * b == (|s| - 1) * b + b;
    }
  }

  lemma {:induction false} SumAtLeast(s: seq<nat>, b: nat, x: nat)
    requires forall i :: 0 <= i < |s| ==> x <= s[i] + b
    ensures |s| * x <= Sum(s) + |s| * b
  {
    if |s| > 0 {
      SumAtLeast(s[..|s| - 1], b, x);
      assert |s| * b == (|s| - 1) * b + b;
      assert |s| * x == (|s| - 1) * x + x;
    }
  }
}
