/**
 * The time-bucketed queue: a bucket queue keyed by instants, whose default
 * resolver files an instant under the start of its time slot. An instant is
 * its epoch millisecond; the slot start is that number divided by the
 * resolution and multiplied back, with the JVM's Long division (rounded
 * toward zero). A zero resolution makes the division throw, which the
 * resolver reports as `None`.
 */
module TimeBuckets {
  import opened Results
  import opened JvmArith
  import opened BucketQueues

  /** The default resolver of the time-bucketed queue, on epoch milliseconds. */
  function BucketStart(resolutionMs: int, millis: int): (r: Option<int>)
    ensures r.None? <==> resolutionMs == 0
  {
    if resolutionMs == 0 then None else Some(Quot(millis, resolutionMs) * resolutionMs)
  }

  /** The resolver as the function value the bucket queue is built with. */
  function TimeResolver(resolutionMs: int): (f: int -> Option<int>)
    ensures forall millis :: f(millis) == BucketStart(resolutionMs, millis)
    ensures resolutionMs > 0 ==> forall millis :: millis >= 0 ==>
      && f(millis).Some?
      && f(millis).value % resolutionMs == 0
      && millis - resolutionMs < f(millis).value <= millis
  {
    NonNegativeSlots(resolutionMs);
    millis => BucketStart(resolutionMs, millis)
  }

  /** Every instant at or after the epoch has a slot start, a multiple of the resolution within one resolution below it. */
  lemma NonNegativeSlots(resolutionMs: int)
    ensures resolutionMs > 0 ==> forall millis :: millis >= 0 ==>
      && BucketStart(resolutionMs, millis).Some?
      && BucketStart(resolutionMs, millis).value % resolutionMs == 0
      && millis - resolutionMs < BucketStart(resolutionMs, millis).value <= millis
  {
    if resolutionMs > 0 {
      forall millis | millis >= 0
        ensures BucketStart(resolutionMs, millis).Some?
        ensures BucketStart(resolutionMs, millis).value % resolutionMs == 0
        ensures millis - resolutionMs < BucketStart(resolutionMs, millis).value <= millis
      {
        SlotOfNonNegative(resolutionMs, millis);
      }
    }
  }

  /**
   * For instants at or after the epoch and a positive resolution, the slot
   * start is the largest multiple of the resolution that is not later than
   * the instant.
   */
  lemma SlotOfNonNegative(resolutionMs: int, millis: int)
    requires resolutionMs > 0 && millis >= 0
    ensures BucketStart(resolutionMs, millis).Some?
    ensures var start := BucketStart(resolutionMs, millis).value;
      && start % resolutionMs == 0
      && 0 <= start <= millis < start + resolutionMs
  {
    NonNegativeAgrees(millis, resolutionMs);
    EuclidNat(millis, resolutionMs);
    var q := millis / resolutionMs;
    MultipleMod(q, resolutionMs);
  }

  lemma MultipleMod(q: int, d: int)
    requires q >= 0 && d > 0
    ensures (q * d) % d == 0 && q * d >= 0
  {
    var n := q * d;
    EuclidNat(n, d);
    var qq, rr := n / d, n % d;
    assert rr == (q - qq) * d by {
      assert n == qq * d + rr;
      Distribute(q, qq, d);
    }
    MultipleUnique(q - qq, d, rr);
  }

  lemma Distribute(x: int, y: int, d: int)
    ensures (x - y) * d == x * d - y * d
  {
  }

  /** A multiple of `d` smaller than `d` in magnitude is zero. */
  lemma MultipleUnique(k: int, d: int, r: int)
    requires d != 0 && r == k * d && Abs(r) < Abs(d)
    ensures k == 0 && r == 0
  {
    if k != 0 {
      AbsProductAtLeast(k, d);
      assert false;
    }
  }

  /**
   * For any instant and non-zero resolution, the slot start lies between the
   * epoch and the instant (truncation toward zero), less than one resolution
   * away from the instant.
   */
  lemma SlotTruncates(resolutionMs: int, millis: int)
    requires resolutionMs != 0
    ensures var start := BucketStart(resolutionMs, millis).value;
      && Abs(millis - start) < Abs(resolutionMs)
      && (millis >= 0 ==> 0 <= start <= millis)
      && (millis <= 0 ==> millis <= start <= 0)
  {
    QuotRem(millis, resolutionMs);
  }

  /** An instant before the epoch is rounded up, toward the epoch, not down. */
  lemma NegativeInstantRoundsUp()
    ensures BucketStart(100, -50) == Some(0)
    ensures BucketStart(100, -150) == Some(-100)
  {
  }

  /** Dividing an exact multiple gives back the multiplier. */
  lemma {:induction false} QuotOfMultiple(q: int, d: int)
    requires d != 0
    ensures Quot(q * d, d) == q
  {
    var a := q * d;
    QuotRem(a, d);
    var qq, rr := Quot(a, d), Rem(a, d);
    assert rr == (q - qq) * d by {
      assert qq * d + rr == a;
      Distribute(q, qq, d);
    }
    MultipleUnique(q - qq, d, rr);
  }

  lemma AbsProductAtLeast(k: int, d: int)
    requires k != 0 && d != 0
    ensures Abs(k * d) >= Abs(d)
  {
    if k > 0 && d > 0 {
      assert k * d >= d;
    } else if k > 0 {
      assert k * d <= d;
    } else if d > 0 {
      assert k * d <= -d;
    } else {
      assert k * d >= -d;
    }
  }

  /** Resolving a slot start again leaves it where it is. */
  lemma SlotIdempotent(resolutionMs: int, millis: int)
    requires resolutionMs != 0
    ensures var start := BucketStart(resolutionMs, millis).value;
      BucketStart(resolutionMs, start) == Some(start)
  {
    QuotOfMultiple(Quot(millis, resolutionMs), resolutionMs);
  }

  /** For instants at or after the epoch, a later instant never falls in an earlier slot. */
  lemma SlotMonotone(resolutionMs: int, a: int, b: int)
    requires resolutionMs > 0 && 0 <= a <= b
    ensures BucketStart(resolutionMs, a).value <= BucketStart(resolutionMs, b).value
  {
    NonNegativeAgrees(a, resolutionMs);
    NonNegativeAgrees(b, resolutionMs);
    EuclidNat(a, resolutionMs);
    EuclidNat(b, resolutionMs);
    var qa, qb := a / resolutionMs, b / resolutionMs;
    if qa > qb {
      MulMonotone(qb + 1, qa, resolutionMs);
      Distribute(qb + 1, 1, resolutionMs);
      assert false;
    }
    assert qa * resolutionMs <= qb * resolutionMs by {
      MulMonotone(qa, qb, resolutionMs);
    }
  }

  lemma MulMonotone(x: int, y: int, d: int)
    requires x <= y && d > 0
    ensures x * d <= y * d
  {
  }

  /** Two instants at or after the epoch share a slot exactly when they have the same quotient by the resolution. */
  lemma SameSlot(resolutionMs: int, a: int, b: int)
    requires resolutionMs > 0 && a >= 0 && b >= 0
    ensures BucketStart(resolutionMs, a) == BucketStart(resolutionMs, b)
        <==> a / resolutionMs == b / resolutionMs
  {
    NonNegativeAgrees(a, resolutionMs);
    NonNegativeAgrees(b, resolutionMs);
    if a / resolutionMs * resolutionMs == b / resolutionMs * resolutionMs {
      QuotOfMultiple(a / resolutionMs, resolutionMs);
      QuotOfMultiple(b / resolutionMs, resolutionMs);
    }
  }

  /** A new, empty time-bucketed queue with the default resolver. */
  method NewTimeBucketQueue<V>(resolutionMs: int) returns (q: BucketQueue<V>)
    ensures fresh(q) && q.Valid()
    ensures q.bucketResolver == TimeResolver(resolutionMs)
    ensures q.Elements() == [] && q.knownBuckets == []
  {
    q := new BucketQueue(TimeResolver(resolutionMs));
  }

  /**
   * Adds `instants` one by one to a queue whose resolver files every one of
   * them under `slot`: the slot becomes known, grows by one element per
   * instant, and no other bucket changes.
   */
  method AddToSlot<V>(q: BucketQueue<V>, slot: int, instants: seq<int>, element: V)
    requires q.Valid()
    requires forall t :: t in instants ==> q.bucketResolver(t) == Some(slot)
    modifies q
    ensures q.Valid()
    ensures q.knownBuckets == if instants == [] then old(q.knownBuckets) else Insert(old(q.knownBuckets), slot)
    ensures instants != [] && (old(q.knownBuckets) == [] || Last(old(q.knownBuckets)) < slot) ==>
      q.knownBuckets == old(q.knownBuckets) + [slot]
    ensures q.sizeInternal == old(q.sizeInternal) + |instants|
    ensures |Bucket(q.bucketsInternal, slot)| == |Bucket(old(q.bucketsInternal), slot)| + |instants|
    ensures forall k :: k != slot ==> Bucket(q.bucketsInternal, k) == Bucket(old(q.bucketsInternal), k)
  {
    var i := 0;
    while i < |instants|
      invariant 0 <= i <= |instants|
      invariant q.Valid()
      invariant q.knownBuckets == if i == 0 then old(q.knownBuckets) else Insert(old(q.knownBuckets), slot)
      invariant q.sizeInternal == old(q.sizeInternal) + i
      invariant |Bucket(q.bucketsInternal, slot)| == |Bucket(old(q.bucketsInternal), slot)| + i
      invariant forall k :: k != slot ==> Bucket(q.bucketsInternal, k) == Bucket(old(q.bucketsInternal), k)
    {
      assert instants[i] in instants;
      AddInstant(q, slot, instants[i], element);
      i := i + 1;
    }
    if instants != [] && (old(q.knownBuckets) == [] || Last(old(q.knownBuckets)) < slot) {
      InsertAtEnd(old(q.knownBuckets), slot);
    }
  }

  /** One `add` of an instant the resolver files under `slot`, seen bucket by bucket. */
  method AddInstant<V>(q: BucketQueue<V>, slot: int, instant: int, element: V)
    requires q.Valid() && q.bucketResolver(instant) == Some(slot)
    modifies q
    ensures q.Valid()
    ensures q.knownBuckets == Insert(old(q.knownBuckets), slot)
    ensures q.sizeInternal == old(q.sizeInternal) + 1
    ensures Bucket(q.bucketsInternal, slot) == Bucket(old(q.bucketsInternal), slot) + [element]
    ensures forall k :: k != slot ==> Bucket(q.bucketsInternal, k) == Bucket(old(q.bucketsInternal), k)
  {
    var _ := q.Add(instant, element);
  }

  /** Adds to a slot above every known one: it becomes the last known bucket, holding the new elements. */
  method AddToNewSlot<V>(q: BucketQueue<V>, slot: int, instants: seq<int>, element: V)
    requires q.Valid() && instants != []
    requires q.knownBuckets == [] || Last(q.knownBuckets) < slot
    requires forall t :: t in instants ==> q.bucketResolver(t) == Some(slot)
    modifies q
    ensures q.Valid()
    ensures q.knownBuckets == old(q.knownBuckets) + [slot]
    ensures q.sizeInternal == old(q.sizeInternal) + |instants|
    ensures |Bucket(q.bucketsInternal, slot)| == |instants|
  {
    assert slot !in q.knownBuckets by {
      if q.knownBuckets != [] {
        forall i | 0 <= i < |q.knownBuckets| ensures q.knownBuckets[i] != slot {
          assert q.knownBuckets[i] <= Last(q.knownBuckets);
        }
      }
    }
    AddToSlot(q, slot, instants, element);
  }

  /** The resolver at 100 ms files each group of three instants under one slot. */
  lemma HundredMillisecondSlots()
    ensures forall t :: t in [0, 50, 99] ==> TimeResolver(100)(t) == Some(0)
    ensures forall t :: t in [100, 150, 199] ==> TimeResolver(100)(t) == Some(100)
    ensures forall t :: t in [200, 250, 299] ==> TimeResolver(100)(t) == Some(200)
  {
  }

  /** The adding half of the walk-through: three instants in each of the first three slots. */
  method FillThreeSlots()
    returns (q: BucketQueue<string>, bucketsAfterFirst: seq<int>, sizeAfterFirst: int,
             bucketsAfterSecond: seq<int>, sizeAfterSecond: int)
    ensures fresh(q) && q.Valid()
    ensures bucketsAfterFirst == [0] && sizeAfterFirst == 3
    ensures bucketsAfterSecond == [0, 100] && sizeAfterSecond == 6
    ensures q.knownBuckets == [0, 100, 200] && q.sizeInternal == 9
    ensures |Bucket(q.bucketsInternal, 200)| == 3
  {
    q := NewTimeBucketQueue<string>(100);
    bucketsAfterFirst, sizeAfterFirst := FillSlot(q, 0, [0, 50, 99]);
    bucketsAfterSecond, sizeAfterSecond := FillSlot(q, 100, [100, 150, 199]);
    var _, _ := FillSlot(q, 200, [200, 250, 299]);
  }

  /** One group of three adds of the walk-through, into a slot above every known one, and what the queue then reports. */
  method FillSlot(q: BucketQueue<string>, slot: int, instants: seq<int>) returns (buckets: seq<int>, size: int)
    requires q.Valid() && q.bucketResolver == TimeResolver(100)
    requires slot in {0, 100, 200} && instants == [slot, slot + 50, slot + 99]
    requires q.knownBuckets == [] || Last(q.knownBuckets) < slot
    modifies q
    ensures q.Valid()
    ensures q.knownBuckets == old(q.knownBuckets) + [slot] && q.sizeInternal == old(q.sizeInternal) + 3
    ensures |Bucket(q.bucketsInternal, slot)| == 3
    ensures buckets == q.knownBuckets && size == q.sizeInternal
  {
    HundredMillisecondSlots();
    AddToNewSlot(q, slot, instants, "a");
    buckets := q.Buckets();
    size := q.Size();
  }

  /** The first pop of the walk-through, at 150 ms: the slots 0 and 100 leave with their six elements. */
  method PopMiddleSlot(q: BucketQueue<string>) returns (popped: nat, buckets: seq<int>, size: int)
    requires q.Valid() && q.knownBuckets == [0, 100, 200] && q.sizeInternal == 9
    requires |Bucket(q.bucketsInternal, 200)| == 3
    modifies q
    ensures q.Valid() && q.knownBuckets == [200] && q.sizeInternal == 3
    ensures popped == 6 && buckets == [200] && size == 3
  {
    assert HeadCount([0, 100, 200], 150) == 2;
    ghost var m := q.bucketsInternal;
    var r := q.Pop(150);
    assert q.knownBuckets == [200] && q.bucketsInternal[200] == m[200];
    assert q.Elements() == m[200] + Concat(q.bucketsInternal, []);
    popped := |r|;
    buckets := q.Buckets();
    size := q.Size();
  }

  /**
   * The documented walk-through at a 100 ms resolution: nine instants in
   * three slots, then a pop in the middle slot and a pop far in the future.
   */
  method HundredMillisecondWalkthrough()
    returns (bucketsAfterFirst: seq<int>, sizeAfterFirst: int,
             bucketsAfterSecond: seq<int>, sizeAfterSecond: int,
             bucketsAfterAdds: seq<int>, sizeAfterAdds: int,
             firstPop: nat, bucketsAfterFirstPop: seq<int>, sizeAfterFirstPop: int,
             secondPop: nat, bucketsAtEnd: seq<int>, sizeAtEnd: int, numBucketsAtEnd: nat)
    ensures bucketsAfterFirst == [0] && sizeAfterFirst == 3
    ensures bucketsAfterSecond == [0, 100] && sizeAfterSecond == 6
    ensures bucketsAfterAdds == [0, 100, 200] && sizeAfterAdds == 9
    ensures firstPop == 6 && bucketsAfterFirstPop == [200] && sizeAfterFirstPop == 3
    ensures secondPop == 3 && bucketsAtEnd == [] && sizeAtEnd == 0 && numBucketsAtEnd == 0
  {
    var q;
    q, bucketsAfterFirst, sizeAfterFirst, bucketsAfterSecond, sizeAfterSecond := FillThreeSlots();
    bucketsAfterAdds := q.Buckets();
    sizeAfterAdds := q.Size();
    firstPop, bucketsAfterFirstPop, sizeAfterFirstPop := PopMiddleSlot(q);
    assert HeadCount([200], 1000000) == 1;
    var popped := q.Pop(1000000);
    secondPop := |popped|;
    bucketsAtEnd := q.Buckets();
    sizeAtEnd := q.Size();
    numBucketsAtEnd := q.NumBuckets();
  }
}
