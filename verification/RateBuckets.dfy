/**
 * Arrival rates in one-second buckets reused modulo 600 seconds: what the bucket arrays hold
 * after any sequence of bumps, and when their bounded sum is an exact count.
 */
module RateBuckets {
  import opened Common

  const HORIZON: nat := 600

  /** The bucket a second falls in. */
  function Bucket(sec: int): (idx: nat)
    ensures idx < HORIZON
  {
    sec % HORIZON
  }

  /** The second tag of bucket `idx` after the bumps `secs` (-1 when never bumped). */
  function Tag(secs: seq<int>, idx: nat): int {
    if secs == [] then -1
    else if Bucket(secs[|secs| - 1]) == idx then secs[|secs| - 1]
    else Tag(secs[..|secs| - 1], idx)
  }

  /** The count of bucket `idx` after the bumps `secs`. */
  function Tally(secs: seq<int>, idx: nat): nat {
    if secs == [] then 0
    else
      var init, s := secs[..|secs| - 1], secs[|secs| - 1];
      if Bucket(s) != idx then Tally(init, idx)
      else if Tag(init, idx) != s then 1
      else Tally(init, idx) + 1
  }

  /** How many of `secs` lie in `[lo, hi]`. */
  function CountIn(secs: seq<int>, lo: int, hi: int): nat {
    if secs == [] then 0
    else CountIn(secs[..|secs| - 1], lo, hi) + (if lo <= secs[|secs| - 1] <= hi then 1 else 0)
  }

  /** What one bucket contributes to a window sum at second `s`. */
  function Share(secs: seq<int>, s: int): nat {
    if Tag(secs, Bucket(s)) == s then Tally(secs, Bucket(s)) else 0
  }

  /** The bounded bucket sum over `[lo, hi]`. */
  function BucketSum(secs: seq<int>, lo: int, hi: int): nat
    decreases hi - lo
  {
    if hi < lo then 0 else BucketSum(secs, lo, hi - 1) + Share(secs, hi)
  }

  ghost predicate Nondecreasing(secs: seq<int>) {
    forall i, j :: 0 <= i <= j < |secs| ==> secs[i] <= secs[j]
  }

  /** A second still owns its bucket: it was bumped, and no later second took the bucket over. */
  predicate Live(secs: seq<int>, s: int) {
    s in secs && forall t :: t in secs && Bucket(t) == Bucket(s) ==> t <= s
  }

  /**
   * In nondecreasing order the tag is the largest second of the bucket, so a live second still
   * has its full count, and an overtaken one has lost it entirely.
   */
  lemma {:induction false} ShareIsExactWhileLive(secs: seq<int>, s: int)
    requires Nondecreasing(secs)
    ensures Share(secs, s) == if Live(secs, s) then CountIn(secs, s, s) else 0
    ensures s !in secs ==> CountIn(secs, s, s) == 0
    ensures s in secs ==> CountIn(secs, s, s) > 0
  {
    if secs != [] {
      var init, last := secs[..|secs| - 1], secs[|secs| - 1];
      assert secs == init + [last];
      ShareIsExactWhileLive(init, s);
      TagOwner(init, Bucket(s));
      if Bucket(last) == Bucket(s) && last != s {
        assert last in secs;
        if s in secs {
          assert s <= last;
        }
        assert !Live(secs, s);
      } else if last == s {
        assert forall t :: t in secs ==> t <= s;
        assert Live(secs, s);
        assert s in init ==> Live(init, s);
      } else {
        assert Live(secs, s) <==> Live(init, s);
      }
    }
  }

  /** A tag is a second that was bumped, unless the bucket is still empty. */
  lemma {:induction false} TagOwner(secs: seq<int>, idx: nat)
    ensures Tally(secs, idx) > 0 ==> Tag(secs, idx) in secs && Bucket(Tag(secs, idx)) == idx
    ensures Tally(secs, idx) == 0 ==> Tag(secs, idx) == -1
  {
    if secs != [] {
      TagOwner(secs[..|secs| - 1], idx);
    }
  }

  /** Windows add up second by second. */
  lemma {:induction false} CountInSplit(secs: seq<int>, lo: int, hi: int)
    requires lo <= hi
    ensures CountIn(secs, lo, hi) == CountIn(secs, lo, hi - 1) + CountIn(secs, hi, hi)
  {
    if secs != [] {
      CountInSplit(secs[..|secs| - 1], lo, hi);
    }
  }

  lemma {:induction false} CountInEmpty(secs: seq<int>, lo: int, hi: int)
    requires hi < lo
    ensures CountIn(secs, lo, hi) == 0
  {
    if secs != [] {
      CountInEmpty(secs[..|secs| - 1], lo, hi);
    }
  }

  /** The bucket sum never over-counts, and is exact just when every second of the window that
      was bumped still owns its bucket. */
  lemma {:induction false} BucketSumExact(secs: seq<int>, lo: int, hi: int)
    requires Nondecreasing(secs)
    ensures BucketSum(secs, lo, hi) <= CountIn(secs, lo, hi)
    ensures BucketSum(secs, lo, hi) == CountIn(secs, lo, hi) <==>
            forall s :: s in secs && lo <= s <= hi ==> Live(secs, s)
    decreases hi - lo
  {
    if hi < lo {
      CountInEmpty(secs, lo, hi);
    } else {
      BucketSumExact(secs, lo, hi - 1);
      CountInSplit(secs, lo, hi);
      ShareIsExactWhileLive(secs, hi);
    }
  }

  /** A window that reaches back less than a horizon from the newest second is counted exactly. */
  lemma RecentWindowIsExact(secs: seq<int>, lo: int, hi: int)
    requires Nondecreasing(secs)
    requires secs != [] ==> secs[|secs| - 1] - lo < HORIZON
    ensures BucketSum(secs, lo, hi) == CountIn(secs, lo, hi)
  {
    forall s | s in secs && lo <= s <= hi ensures Live(secs, s) {
      forall t | t in secs && Bucket(t) == Bucket(s) ensures t <= s {
        SameBucket(s, t);
      }
    }
    BucketSumExact(secs, lo, hi);
  }

  lemma SameBucket(s: int, t: int)
    requires Bucket(s) == Bucket(t) && t - s < HORIZON
    ensures t <= s
  {
  }

  /** The two bucket arrays after the bumps `secs`. */
  ghost predicate Holds(bSec: array<int>, bCnt: array<int>, secs: seq<int>)
    reads bSec, bCnt
  {
    && bSec.Length == bCnt.Length == HORIZON && bSec != bCnt
    && forall idx :: 0 <= idx < HORIZON ==> bSec[idx] == Tag(secs, idx) && bCnt[idx] == Tally(secs, idx)
  }

  method Bump(bSec: array<int>, bCnt: array<int>, sec: int, ghost secs: seq<int>)
    requires Holds(bSec, bCnt, secs)
    modifies bSec, bCnt
    ensures Holds(bSec, bCnt, secs + [sec])
  {
    var idx := (sec % HORIZON + HORIZON) % HORIZON;
    assert idx == Bucket(sec);
    if bSec[idx] != sec {
      bSec[idx] := sec;
      bCnt[idx] := 0;
    }
    bCnt[idx] := bCnt[idx] + 1;
    assert (secs + [sec])[..|secs|] == secs;
  }

  method WindowedCount(bSec: array<int>, bCnt: array<int>, nowSec: int, winSec: int, ghost secs: seq<int>)
    returns (sum: int)
    requires Holds(bSec, bCnt, secs)
    ensures sum == BucketSum(secs, nowSec - winSec + 1, nowSec)
  {
    sum := 0;
    var s := nowSec - winSec + 1;
    while s <= nowSec
      invariant s <= nowSec + 1 || s == nowSec - winSec + 1
      invariant sum == BucketSum(secs, nowSec - winSec + 1, s - 1)
      decreases nowSec - s
    {
      var idx := (s % HORIZON + HORIZON) % HORIZON;
      assert idx == Bucket(s);
      if bSec[idx] == s {
        sum := sum + bCnt[idx];
      }
      s := s + 1;
    }
  }
}
