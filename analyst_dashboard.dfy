/** The analyst dashboard's risk distribution: the borrowers' risk scores
    counted into four bands, the bands with no borrower dropped. */
module AnalystDashboard {
  import opened Risk
  import opened Sequences

  /** One slice of the distribution chart. */
  datatype Bucket = Bucket(name: string, value: nat, fill: string)

  predicate InLowBucket(s: int) { s >= 80 }
  predicate InMediumBucket(s: int) { s >= 60 && s < 80 }
  predicate InHighBucket(s: int) { s >= 40 && s < 60 }
  predicate InVeryHighBucket(s: int) { s < 40 }

  /** `scores.filter(p).length`. */
  function CountWhere(scores: seq<int>, p: int -> bool): (n: nat)
    ensures n <= |scores|
  {
    if scores == [] then 0 else (if p(scores[0]) then 1 else 0) + CountWhere(scores[1..], p)
  }

  /** The four bands before the zero-count filter, from the lowest risk to
      the highest. */
  function Buckets(scores: seq<int>): (b: seq<Bucket>)
    ensures |b| == 4
  {
    [ Bucket("Low Risk", CountWhere(scores, InLowBucket), "#06d6a0"),
      Bucket("Medium Risk", CountWhere(scores, InMediumBucket), "#ffd166"),
      Bucket("High Risk", CountWhere(scores, InHighBucket), "#ef476f"),
      Bucket("Very High", CountWhere(scores, InVeryHighBucket), "#d62828") ]
  }

  /** `.filter(r => r.value > 0)` on the buckets. */
  function Nonzero(buckets: seq<Bucket>): (r: seq<Bucket>)
    ensures |r| <= |buckets|
    ensures forall i :: 0 <= i < |r| ==> r[i].value > 0
    ensures forall b :: b in r <==> b in buckets && b.value > 0
  {
    if buckets == [] then []
    else if buckets[0].value > 0 then [buckets[0]] + Nonzero(buckets[1..])
    else Nonzero(buckets[1..])
  }

  /** `riskDistribution`: at most four slices, each with at least one
      borrower, and every band with a borrower among them. */
  function RiskDistribution(scores: seq<int>): (r: seq<Bucket>)
    ensures |r| <= 4
    ensures forall i :: 0 <= i < |r| ==> r[i].value > 0
    ensures forall b :: b in Buckets(scores) && b.value > 0 ==> b in r
  {
    Nonzero(Buckets(scores))
  }

  /** The zero-count filter keeps the order of the bands it keeps. */
  lemma {:induction false} NonzeroIsSubsequence(buckets: seq<Bucket>)
    ensures Subsequence(Nonzero(buckets), buckets)
  {
    if buckets != [] {
      NonzeroIsSubsequence(buckets[1..]);
      var r := Nonzero(buckets);
      if buckets[0].value > 0 {
        assert r[0] == buckets[0] && r[1..] == Nonzero(buckets[1..]);
      }
    }
  }

  /** The slices appear in the Low -> Medium -> High -> Very High order. */
  lemma DistributionInOrder(scores: seq<int>)
    ensures Subsequence(RiskDistribution(scores), Buckets(scores))
  {
    NonzeroIsSubsequence(Buckets(scores));
  }

  /** The bands are disjoint and cover every score, so before the filter the
      counts add up to the number of scores. */
  lemma {:induction false} BucketsPartition(scores: seq<int>)
    ensures var b := Buckets(scores);
            b[0].value + b[1].value + b[2].value + b[3].value == |scores|
  {
    if scores != [] {
      BucketsPartition(scores[1..]);
    }
  }

  // ----- agreement with getRiskCategory -----

  /** The categories in the order of the buckets. */
  const Categories: seq<RiskCategory> := [LowRisk, MediumRisk, HighRisk, VeryHighRisk]

  /** The number of scores whose category is c. */
  function CountCategory(scores: seq<int>, c: RiskCategory): (n: nat)
    ensures n <= |scores|
  {
    if scores == [] then 0
    else (if GetRiskCategory(scores[0]) == c then 1 else 0) + CountCategory(scores[1..], c)
  }

  /** Each bucket counts exactly the scores `getRiskCategory` puts in its band. */
  lemma {:induction false} BucketsMatchCategories(scores: seq<int>)
    ensures forall k :: 0 <= k < 4 ==> Buckets(scores)[k].value == CountCategory(scores, Categories[k])
  {
    if scores != [] {
      BucketsMatchCategories(scores[1..]);
      var b, b' := Buckets(scores), Buckets(scores[1..]);
      assert b[0].value == (if InLowBucket(scores[0]) then 1 else 0) + b'[0].value;
      assert b[1].value == (if InMediumBucket(scores[0]) then 1 else 0) + b'[1].value;
      assert b[2].value == (if InHighBucket(scores[0]) then 1 else 0) + b'[2].value;
      assert b[3].value == (if InVeryHighBucket(scores[0]) then 1 else 0) + b'[3].value;
    }
  }

  /** The buckets wear the categories' colours and names, except that the
      last is named "Very High" where the category says "Very High Risk". */
  lemma BucketLabels(scores: seq<int>)
    ensures forall k :: 0 <= k < 4 ==> Buckets(scores)[k].fill == Categories[k].color
    ensures forall k :: 0 <= k < 3 ==> Buckets(scores)[k].name == Categories[k].name
    ensures Buckets(scores)[3].name != VeryHighRisk.name
    ensures Buckets(scores)[3].name == VeryHighRisk.name[..9]
  {
  }
}
