/**
 * The key-bucketed accumulator. Every element is filed under the bucket key
 * its insertion key resolves to; the queue keeps a map from bucket key to the
 * bucket's elements (a list, in insertion order), the ascending set of known
 * bucket keys (a TreeSet) and a running element count. `Pop(k)` takes out every
 * bucket whose key is at most `k`, lowest key first.
 *
 * Keys are integers (epoch milliseconds in the time-bucketed use); the
 * TreeSet is an ascending sequence without repetitions.
 */
module BucketQueues {
  import opened Results

  /** Strictly ascending: the iteration order of a TreeSet. */
  predicate Ascending(s: seq<int>) {
    forall i, j :: 0 <= i < j < |s| ==> s[i] < s[j]
  }

  /** TreeSet.add: the key is placed in order, and only if it is not already there. */
  function Insert(s: seq<int>, k: int): (r: seq<int>)
    requires Ascending(s)
    ensures Ascending(r)
    ensures forall x :: x in r <==> x in s || x == k
    ensures k in s ==> r == s
    ensures k !in s ==> |r| == |s| + 1
  {
    if s == [] then [k]
    else if k < s[0] then
      assert k !in s by {
        forall i | 0 <= i < |s| ensures s[i] != k { assert s[0] <= s[i]; }
      }
      [k] + s
    else if k == s[0] then s
    else
      var t := Insert(s[1..], k);
      AboveHead(s, t, k);
      assert s == [s[0]] + s[1..];
      [s[0]] + t
  }

  function Last(s: seq<int>): int
    requires s != []
  {
    s[|s| - 1]
  }

  /** A key above every known key goes at the end. */
  lemma {:induction false} InsertAtEnd(s: seq<int>, k: int)
    requires Ascending(s)
    requires s == [] || Last(s) < k
    ensures Insert(s, k) == s + [k]
  {
    if s != [] {
      assert s[0] <= s[|s| - 1];
      if |s| > 1 {
        InsertAtEnd(s[1..], k);
      }
      assert s[1..] + [k] == (s + [k])[1..];
    }
  }

  /** Every key of `t`, drawn from the tail of `s` or equal to `k`, lies above the head of `s`. */
  lemma AboveHead(s: seq<int>, t: seq<int>, k: int)
    requires Ascending(s) && s != [] && s[0] < k
    requires forall x :: x in t ==> x in s[1..] || x == k
    ensures forall j :: 0 <= j < |t| ==> s[0] < t[j]
  {
    forall j | 0 <= j < |t|
      ensures s[0] < t[j]
    {
      assert t[j] in t;
      if t[j] != k {
        var i :| 0 <= i < |s[1..]| && s[1..][i] == t[j];
        assert s[i + 1] == t[j];
      }
    }
  }

  /** The number of keys of `headSet(bound, true)`: the leading keys that are at most `bound`. */
  function HeadCount(s: seq<int>, bound: int): (n: nat)
    requires Ascending(s)
    ensures n <= |s|
    ensures forall i :: 0 <= i < n ==> s[i] <= bound
    ensures forall i :: n <= i < |s| ==> bound < s[i]
  {
    if s == [] || bound < s[0] then 0 else 1 + HeadCount(s[1..], bound)
  }

  /** The keys listed in `s`, as a set. */
  function KeySet(s: seq<int>): set<int> {
    set k | k in s
  }

  /** The contents of bucket `b`, empty when there is no such bucket. */
  function Bucket<V>(m: map<int, seq<V>>, b: int): seq<V> {
    if b in m then m[b] else []
  }

  /** Every key in `keys` names a bucket of `m`. */
  predicate Covers<V>(m: map<int, seq<V>>, keys: seq<int>) {
    forall i :: 0 <= i < |keys| ==> keys[i] in m
  }

  /** The elements of the buckets named by `keys`, concatenated in the order of `keys`. */
  function Concat<V>(m: map<int, seq<V>>, keys: seq<int>): seq<V>
    requires Covers(m, keys)
  {
    if keys == [] then [] else m[keys[0]] + Concat(m, keys[1..])
  }

  /** Concat only looks at the buckets it names. */
  lemma {:induction false} ConcatFrame<V>(m1: map<int, seq<V>>, m2: map<int, seq<V>>, keys: seq<int>)
    requires forall i :: 0 <= i < |keys| ==> keys[i] in m1 && keys[i] in m2 && m1[keys[i]] == m2[keys[i]]
    ensures Concat(m1, keys) == Concat(m2, keys)
  {
    if keys != [] {
      ConcatFrame(m1, m2, keys[1..]);
    }
  }

  /** Updating a bucket that `keys` does not name leaves their concatenation as it was. */
  lemma ConcatUpdateElsewhere<V>(m: map<int, seq<V>>, keys: seq<int>, b: int, v: seq<V>)
    requires Covers(m, keys) && b !in keys
    ensures Covers(m[b := v], keys)
    ensures Concat(m[b := v], keys) == Concat(m, keys)
  {
    forall i | 0 <= i < |keys|
      ensures keys[i] in m[b := v] && m[b := v][keys[i]] == m[keys[i]]
    {
      assert keys[i] in keys;
    }
    ConcatFrame(m, m[b := v], keys);
  }

  /** Below the first key of an ascending list means absent from it. */
  lemma BelowHeadAbsent(s: seq<int>, b: int)
    requires Ascending(s) && s != [] && b < s[0]
    ensures b !in s
  {
    forall i | 0 <= i < |s| ensures s[i] != b {
      assert s[0] <= s[i];
    }
  }

  /** Concat distributes over a split of the key list. */
  lemma {:induction false} ConcatSplit<V>(m: map<int, seq<V>>, keys: seq<int>, n: nat)
    requires Covers(m, keys)
    requires n <= |keys|
    ensures Concat(m, keys) == Concat(m, keys[..n]) + Concat(m, keys[n..])
  {
    if n == 0 {
      assert keys[..0] == [] && keys[0..] == keys;
    } else {
      ConcatSplit(m, keys[1..], n - 1);
      assert keys[..n][0] == keys[0] && keys[..n][1..] == keys[1..][..n - 1];
      assert keys[1..][n - 1..] == keys[n..];
    }
  }

  /** Appending one more bucket at the end of the key list. */
  lemma ConcatSnoc<V>(m: map<int, seq<V>>, keys: seq<int>, k: int)
    requires Covers(m, keys)
    requires k in m
    ensures Concat(m, keys + [k]) == Concat(m, keys) + m[k]
  {
    ConcatSplit(m, keys + [k], |keys|);
    assert (keys + [k])[..|keys|] == keys && (keys + [k])[|keys|..] == [k];
    assert Concat(m, [k]) == m[k] + Concat(m, []);
  }

  /**
   * What `add`/`addAll` do to the whole contents: appending `xs` to bucket `b`
   * and recording `b` among the known keys adds exactly the elements of `xs`,
   * wherever `b` sits in key order.
   */
  lemma {:induction false} ConcatAppend<V>(m: map<int, seq<V>>, s: seq<int>, b: int, xs: seq<V>)
    requires Ascending(s)
    requires Covers(m, s)
    requires b in m ==> b in s
    ensures Covers(m[b := Bucket(m, b) + xs], Insert(s, b))
    ensures multiset(Concat(m[b := Bucket(m, b) + xs], Insert(s, b))) == multiset(Concat(m, s)) + multiset(xs)
  {
    var m' := m[b := Bucket(m, b) + xs];
    if s == [] || b <= s[0] {
      ConcatAppendHead(m, s, b, xs);
    } else {
      var t := Insert(s[1..], b);
      TailOf(m, s, b);
      ConcatAppend(m, s[1..], b, xs);
      assert Insert(s, b) == [s[0]] + t;
      ConcatCons(m', s[0], t);
      assert Concat(m, s) == m[s[0]] + Concat(m, s[1..]);
    }
  }

  /** The tail of a covered ascending list is one too, and holds `b` if the list does and `b` is above its head. */
  lemma TailOf<V>(m: map<int, seq<V>>, s: seq<int>, b: int)
    requires Ascending(s) && Covers(m, s) && s != [] && s[0] < b
    requires b in m ==> b in s
    ensures Ascending(s[1..]) && Covers(m, s[1..])
    ensures b in m ==> b in s[1..]
  {
    forall i | 0 <= i < |s[1..]| ensures s[1..][i] in m {
      assert s[1..][i] == s[i + 1];
    }
    if b in m {
      var i :| 0 <= i < |s| && s[i] == b;
      assert s[1..][i - 1] == b;
    }
  }

  /** Concat of a key list with one more key in front. */
  lemma ConcatCons<V>(m: map<int, seq<V>>, k: int, t: seq<int>)
    requires k in m && Covers(m, t)
    ensures Covers(m, [k] + t)
    ensures Concat(m, [k] + t) == m[k] + Concat(m, t)
  {
    assert ([k] + t)[1..] == t;
  }

  /** The base cases of ConcatAppend: `b` goes in front of, or is, the first known key. */
  lemma ConcatAppendHead<V>(m: map<int, seq<V>>, s: seq<int>, b: int, xs: seq<V>)
    requires Ascending(s)
    requires Covers(m, s)
    requires b in m ==> b in s
    requires s == [] || b <= s[0]
    ensures Covers(m[b := Bucket(m, b) + xs], Insert(s, b))
    ensures multiset(Concat(m[b := Bucket(m, b) + xs], Insert(s, b))) == multiset(Concat(m, s)) + multiset(xs)
  {
    var m' := m[b := Bucket(m, b) + xs];
    if s == [] {
      assert Insert(s, b) == [b] && b !in m;
      assert Concat(m', [b]) == xs + Concat(m', []);
    } else if b < s[0] {
      ConcatAppendFront(m, s, b, xs);
    } else {
      ConcatAppendFirst(m, s, xs);
    }
  }

  /** A new key below every known key: its bucket comes first. */
  lemma ConcatAppendFront<V>(m: map<int, seq<V>>, s: seq<int>, b: int, xs: seq<V>)
    requires Ascending(s) && Covers(m, s)
    requires b in m ==> b in s
    requires s != [] && b < s[0]
    ensures Covers(m[b := Bucket(m, b) + xs], Insert(s, b))
    ensures Concat(m[b := Bucket(m, b) + xs], Insert(s, b)) == xs + Concat(m, s)
  {
    BelowHeadAbsent(s, b);
    var m' := m[b := xs];
    assert b !in m && Bucket(m, b) + xs == xs;
    assert Insert(s, b) == [b] + s;
    ConcatUpdateElsewhere(m, s, b, xs);
    assert ([b] + s)[1..] == s;
  }

  /** Growing the bucket of the first known key. */
  lemma ConcatAppendFirst<V>(m: map<int, seq<V>>, s: seq<int>, xs: seq<V>)
    requires Ascending(s) && Covers(m, s) && s != []
    ensures Covers(m[s[0] := Bucket(m, s[0]) + xs], Insert(s, s[0]))
    ensures Concat(m[s[0] := Bucket(m, s[0]) + xs], Insert(s, s[0])) == m[s[0]] + xs + Concat(m, s[1..])
  {
    var b := s[0];
    assert Insert(s, b) == s;
    assert s[1..] == [] || b < s[1..][0];
    assert Covers(m, s[1..]) by {
      forall i | 0 <= i < |s[1..]| ensures s[1..][i] in m {
        assert s[1..][i] == s[i + 1];
      }
    }
    if s[1..] != [] {
      assert Ascending(s[1..]);
      BelowHeadAbsent(s[1..], b);
    }
    ConcatUpdateElsewhere(m, s[1..], b, Bucket(m, b) + xs);
  }

  /** A strictly ascending list holds as many distinct keys as it has entries. */
  lemma {:induction false} AscendingDistinct(s: seq<int>)
    requires Ascending(s)
    ensures |KeySet(s)| == |s|
  {
    if s != [] {
      AscendingDistinct(s[1..]);
      assert KeySet(s) == {s[0]} + KeySet(s[1..]);
      assert s[0] !in KeySet(s[1..]);
    }
  }

  /** One step of `pop`'s removal loop: the next head key is still present, and removing it extends the popped prefix. */
  lemma PopStep<V>(m0: map<int, seq<V>>, keys: seq<int>, i: nat)
    requires Ascending(keys)
    requires Covers(m0, keys)
    requires i < |keys|
    ensures keys[i] in m0 - KeySet(keys[..i])
    ensures (m0 - KeySet(keys[..i])) - {keys[i]} == m0 - KeySet(keys[..i + 1])
    ensures Covers(m0, keys[..i]) && Covers(m0, keys[..i + 1])
    ensures Concat(m0, keys[..i + 1]) == Concat(m0, keys[..i]) + m0[keys[i]]
  {
    var key := keys[i];
    assert key !in keys[..i] by {
      forall j | 0 <= j < i
        ensures keys[..i][j] != key
      {
        assert keys[..i][j] == keys[j];
      }
    }
    assert keys[..i + 1] == keys[..i] + [key];
    assert KeySet(keys[..i + 1]) == KeySet(keys[..i]) + {key};
    ConcatSnoc(m0, keys[..i], key);
  }

  /** Where a known key falls relative to the head set of `bound`. */
  lemma HeadMembership(s: seq<int>, bound: int, k: int)
    requires Ascending(s)
    requires k in s
    ensures var n := HeadCount(s, bound);
      && (k in s[..n] <==> k <= bound)
      && (k in s[n..] <==> bound < k)
  {
    var n := HeadCount(s, bound);
    var i :| 0 <= i < |s| && s[i] == k;
    if i < n {
      assert s[..n][i] == k;
      assert k !in s[n..] by {
        forall j | 0 <= j < |s[n..]|
          ensures s[n..][j] != k
        {
          assert s[n..][j] == s[n + j];
        }
      }
    } else {
      assert s[n..][i - n] == k;
      assert k !in s[..n] by {
        forall j | 0 <= j < n
          ensures s[..n][j] != k
        {
          assert s[..n][j] == s[j];
        }
      }
    }
  }

  /** The buckets left after removing the head set of `bound` are those above `bound`. */
  lemma AboveBound<V>(m: map<int, seq<V>>, s: seq<int>, bound: int)
    requires Ascending(s)
    requires forall k :: k in m ==> k in s
    ensures var n := HeadCount(s, bound);
      m - KeySet(s[..n]) == (map k | k in m && bound < k :: m[k])
  {
    var n := HeadCount(s, bound);
    var rest := m - KeySet(s[..n]);
    var above := map k | k in m && bound < k :: m[k];
    forall k | k in m
      ensures k in rest <==> k in above
    {
      HeadMembership(s, bound, k);
    }
    assert rest.Keys == above.Keys;
  }

  /** Both halves of a split ascending key list are ascending and still name buckets. */
  lemma SliceKeys<V>(m: map<int, seq<V>>, s: seq<int>, n: nat)
    requires Ascending(s) && Covers(m, s) && n <= |s|
    ensures Ascending(s[..n]) && Ascending(s[n..])
    ensures Covers(m, s[..n]) && Covers(m, s[n..])
  {
    assert forall i :: 0 <= i < n ==> s[..n][i] == s[i];
    assert forall i :: 0 <= i < |s| - n ==> s[n..][i] == s[n + i];
  }

  /** After the head set of `bound` is removed, the remaining buckets are exactly those the key suffix names. */
  lemma RestKeys<V>(m: map<int, seq<V>>, s: seq<int>, bound: int)
    requires Ascending(s) && Covers(m, s)
    requires forall k :: k in m ==> k in s
    ensures var n := HeadCount(s, bound);
      var rest := m - KeySet(s[..n]);
      && Covers(rest, s[n..])
      && (forall k :: k in rest ==> k in s[n..])
  {
    RestInSuffix(m, s, bound);
    SuffixInRest(m, s, bound);
  }

  lemma RestInSuffix<V>(m: map<int, seq<V>>, s: seq<int>, bound: int)
    requires Ascending(s)
    requires forall k :: k in m ==> k in s
    ensures var n := HeadCount(s, bound);
      forall k :: k in m - KeySet(s[..n]) ==> k in s[n..]
  {
    var n := HeadCount(s, bound);
    forall k | k in m - KeySet(s[..n])
      ensures k in s[n..]
    {
      HeadMembership(s, bound, k);
    }
  }

  lemma SuffixInRest<V>(m: map<int, seq<V>>, s: seq<int>, bound: int)
    requires Ascending(s) && Covers(m, s)
    ensures var n := HeadCount(s, bound);
      Covers(m - KeySet(s[..n]), s[n..])
  {
    var n := HeadCount(s, bound);
    forall i | 0 <= i < |s[n..]|
      ensures s[n..][i] in m - KeySet(s[..n])
    {
      assert s[n..][i] == s[n + i];
      HeadMembership(s, bound, s[n + i]);
    }
  }

  /**
   * The pure core of `pop(bound)`: with `n` the size of the head set, the whole
   * contents is the popped part (the first `n` buckets in key order) followed
   * by the contents of the buckets that remain.
   */
  lemma PopSplit<V>(m: map<int, seq<V>>, s: seq<int>, bound: int)
    requires Ascending(s)
    requires Covers(m, s)
    requires forall k :: k in m ==> k in s
    ensures var n := HeadCount(s, bound);
      var rest := m - KeySet(s[..n]);
      && Covers(m, s[..n]) && Covers(rest, s[n..])
      && Concat(m, s) == Concat(m, s[..n]) + Concat(rest, s[n..])
  {
    var n := HeadCount(s, bound);
    var rest := m - KeySet(s[..n]);
    SliceKeys(m, s, n);
    RestKeys(m, s, bound);
    ConcatSplit(m, s, n);
    ConcatFrame(m, rest, s[n..]);
  }

  /**
   * The queue's invariant on its three fields: the known keys are exactly the
   * map's keys, in ascending order; no bucket is empty; the count is the
   * number of elements in all buckets.
   */
  ghost predicate Consistent<V>(m: map<int, seq<V>>, s: seq<int>, size: int) {
    && Ascending(s)
    && Covers(m, s)
    && (forall k :: k in m ==> k in s)
    && (forall k :: k in m ==> m[k] != [])
    && size == |Concat(m, s)|
  }

  /** The `compute` step of add/addAll keeps the invariant and adds exactly the new elements. */
  lemma AppendConsistent<V>(m: map<int, seq<V>>, s: seq<int>, size: int, b: int, xs: seq<V>)
    requires Consistent(m, s, size) && xs != []
    ensures Consistent(m[b := Bucket(m, b) + xs], Insert(s, b), size + |xs|)
    ensures multiset(Concat(m[b := Bucket(m, b) + xs], Insert(s, b))) == multiset(Concat(m, s)) + multiset(xs)
  {
    var m' := m[b := Bucket(m, b) + xs];
    var s' := Insert(s, b);
    ConcatAppend(m, s, b, xs);
    assert |multiset(Concat(m', s'))| == |Concat(m', s')|;
    assert |multiset(Concat(m, s))| == |Concat(m, s)|;
    assert forall k :: k in m' ==> k in s' by {
      forall k | k in m' ensures k in s' {
        if k != b { assert k in m && k in s; }
      }
    }
  }

  class BucketQueue<V> {
    /** Maps an insertion key to its bucket key; None when the resolver throws. */
    const bucketResolver: int -> Option<int>
    var bucketsInternal: map<int, seq<V>>
    var knownBuckets: seq<int>
    var sizeInternal: int

    /** The fields keep the queue's invariant. */
    ghost predicate Valid()
      reads this
    {
      Consistent(bucketsInternal, knownBuckets, sizeInternal)
    }

    /** Every element held, bucket by bucket in ascending key order. */
    ghost function Elements(): seq<V>
      reads this
      requires Valid()
    {
      Concat(bucketsInternal, knownBuckets)
    }

    constructor (bucketResolver: int -> Option<int>)
      ensures Valid()
      ensures this.bucketResolver == bucketResolver
      ensures bucketsInternal == map[] && knownBuckets == [] && sizeInternal == 0
    {
      this.bucketResolver := bucketResolver;
      bucketsInternal := map[];
      knownBuckets := [];
      sizeInternal := 0;
    }

    /** The `compute` step shared by `add` and `addAll`: grow bucket `bucket` by `elements`. */
    method AppendToBucket(bucket: int, elements: seq<V>) returns (r: seq<V>)
      requires Valid()
      requires elements != []
      modifies this
      ensures Valid()
      ensures r == Bucket(old(bucketsInternal), bucket) + elements
      ensures bucketsInternal == old(bucketsInternal)[bucket := r]
      ensures knownBuckets == Insert(old(knownBuckets), bucket)
      ensures sizeInternal == old(sizeInternal) + |elements|
      ensures multiset(Elements()) == multiset(old(Elements())) + multiset(elements)
    {
      var prior := Bucket(bucketsInternal, bucket);
      var oldSize := |prior|;
      var newCollection := prior + elements;
      AppendConsistent(bucketsInternal, knownBuckets, sizeInternal, bucket, elements);
      bucketsInternal := bucketsInternal[bucket := newCollection];
      knownBuckets := Insert(knownBuckets, bucket);
      sizeInternal := sizeInternal + |newCollection| - oldSize;
      r := newCollection;
    }

    /** add(key, element): returns the bucket's contents, now ending in `element`. */
    method Add(key: int, element: V) returns (r: Option<seq<V>>)
      requires Valid()
      modifies this
      ensures Valid()
      ensures bucketResolver(key).None? ==> r.None? && unchanged(this)
      ensures bucketResolver(key).Some? ==>
        var b := bucketResolver(key).value;
        && r == Some(Bucket(old(bucketsInternal), b) + [element])
        && bucketsInternal == old(bucketsInternal)[b := r.value]
        && knownBuckets == Insert(old(knownBuckets), b)
        && sizeInternal == old(sizeInternal) + 1
        && multiset(Elements()) == multiset(old(Elements())) + multiset{element}
    {
      var resolved := bucketResolver(key);
      if resolved.None? {
        return None;
      }
      var contents := AppendToBucket(resolved.value, [element]);
      r := Some(contents);
    }

    /**
     * addAll(key, elements): like `add` for several elements at once; an empty
     * batch is handed back as it is and changes nothing. The key is resolved
     * first, so a throwing resolver fails even an empty batch.
     */
    method AddAll(key: int, elements: seq<V>) returns (r: Option<seq<V>>)
      requires Valid()
      modifies this
      ensures Valid()
      ensures bucketResolver(key).None? ==> r.None? && unchanged(this)
      ensures bucketResolver(key).Some? && elements == [] ==> r == Some(elements) && unchanged(this)
      ensures bucketResolver(key).Some? && elements != [] ==>
        var b := bucketResolver(key).value;
        && r == Some(Bucket(old(bucketsInternal), b) + elements)
        && bucketsInternal == old(bucketsInternal)[b := r.value]
        && knownBuckets == Insert(old(knownBuckets), b)
        && sizeInternal == old(sizeInternal) + |elements|
        && multiset(Elements()) == multiset(old(Elements())) + multiset(elements)
    {
      var resolved := bucketResolver(key);
      if resolved.None? {
        return None;
      }
      if elements == [] {
        return Some(elements);
      }
      var contents := AppendToBucket(resolved.value, elements);
      r := Some(contents);
    }

    /**
     * pop(inclusiveKey): removes every bucket whose key is at most
     * `inclusiveKey` (compared as given, not resolved) and returns their
     * elements, lowest key first. The buckets above the key stay as they were.
     */
    method Pop(inclusiveKey: int) returns (r: seq<V>)
      requires Valid()
      modifies this
      ensures Valid()
      ensures var n := HeadCount(old(knownBuckets), inclusiveKey);
        && r == Concat(old(bucketsInternal), old(knownBuckets)[..n])
        && knownBuckets == old(knownBuckets)[n..]
      ensures old(Elements()) == r + Elements()
      ensures bucketsInternal == (map k | k in old(bucketsInternal) && inclusiveKey < k :: old(bucketsInternal)[k])
      ensures sizeInternal == old(sizeInternal) - |r|
      ensures HeadCount(old(knownBuckets), inclusiveKey) == 0 ==>
        r == [] && bucketsInternal == old(bucketsInternal) && knownBuckets == old(knownBuckets)
    {
      var n := HeadCount(knownBuckets, inclusiveKey);
      var keys := knownBuckets[..n];
      ghost var m0, s0 := bucketsInternal, knownBuckets;
      SliceKeys(m0, s0, n);
      var elements: seq<V> := [];
      var i := 0;
      while i < |keys|
        invariant 0 <= i <= |keys|
        invariant knownBuckets == s0
        invariant Covers(m0, keys[..i])
        invariant bucketsInternal == m0 - KeySet(keys[..i])
        invariant elements == Concat(m0, keys[..i])
        invariant sizeInternal == old(sizeInternal) - |elements|
      {
        PopStep(m0, keys, i);
        var key := keys[i];
        var bucket := bucketsInternal[key];
        bucketsInternal := bucketsInternal - {key};
        sizeInternal := sizeInternal - |bucket|;
        elements := elements + bucket;
        i := i + 1;
      }
      assert keys[..i] == keys;
      RestKeys(m0, s0, inclusiveKey);
      AboveBound(m0, s0, inclusiveKey);
      PopSplit(m0, s0, inclusiveKey);
      knownBuckets := knownBuckets[n..];
      r := elements;
      if n == 0 {
        assert keys == [];
        assert r == [];
        assert sizeInternal == old(sizeInternal);
        assert KeySet(keys) == {};
        assert bucketsInternal == m0;
        assert knownBuckets == s0;
      }
    }

    /** size: the number of elements held. */
    function Size(): (r: int)
      reads this
      requires Valid()
      ensures r == |Elements()|
    {
      sizeInternal
    }

    /** numBuckets: the size of the bucket map, which is the number of known keys. */
    function NumBuckets(): (r: nat)
      reads this
      requires Valid()
      ensures r == |knownBuckets|
      ensures r <= |Elements()|
    {
      AscendingDistinct(knownBuckets);
      assert bucketsInternal.Keys == KeySet(knownBuckets) by {
        forall k
          ensures k in bucketsInternal <==> k in KeySet(knownBuckets)
        {
          if k in knownBuckets {
            var i :| 0 <= i < |knownBuckets| && knownBuckets[i] == k;
          }
        }
      }
      NonEmptyBuckets(bucketsInternal, knownBuckets);
      |bucketsInternal|
    }

    /** buckets: the known keys in ascending order, which are the keys of the bucket map. */
    function Buckets(): (r: seq<int>)
      reads this
      requires Valid()
      ensures Ascending(r)
      ensures forall k :: k in r <==> k in bucketsInternal
    {
      knownBuckets
    }
  }

  /** Each non-empty bucket contributes at least one element. */
  lemma {:induction false} NonEmptyBuckets<V>(m: map<int, seq<V>>, keys: seq<int>)
    requires forall i :: 0 <= i < |keys| ==> keys[i] in m && m[keys[i]] != []
    ensures |keys| <= |Concat(m, keys)|
  {
    if keys != [] {
      NonEmptyBuckets(m, keys[1..]);
    }
  }
}
