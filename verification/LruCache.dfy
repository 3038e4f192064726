/**
 The detector cache: an ordered dictionary where a hit moves to the end and a miss appends
 and then evicts from the front. Over whole access histories it is shown to hold the most
 recently used distinct keys, in order.
 */
module LruCache {
  import opened Basics

  // ---- One access, on values ---------------------------------------------------------

  datatype Key = Key(tenant: string, metric: string)

  /** A detector is opaque here: an object is named by a number. */
  datatype Slot = Slot(key: Key, detector: nat)

  /** Slots in dictionary order: least recently used first. */
  type Slots = seq<Slot>

  function Keys(es: Slots): (ks: seq<Key>)
    ensures |ks| == |es|
    ensures forall i :: 0 <= i < |es| ==> ks[i] == es[i].key
  {
    seq(|es|, i requires 0 <= i < |es| => es[i].key)
  }

  function Find(es: Slots, k: Key): Option<nat> {
    if es == [] then None
    else if es[0].key == k then Some(es[0].detector)
    else Find(es[1..], k)
  }

  function Delete(es: Slots, k: Key): Slots {
    if es == [] then []
    else if es[0].key == k then es[1..]
    else [es[0]] + Delete(es[1..], k)
  }

  /** The cache after looking `k` up; `made` is the object the factory would make now. */
  function Access(es: Slots, cap: nat, k: Key, made: nat): Slots {
    match Find(es, k)
    case Some(v) => Delete(es, k) + [Slot(k, v)]
    case None => Last(es + [Slot(k, made)], cap)
  }

  function Returned(es: Slots, k: Key, made: nat): nat {
    match Find(es, k)
    case Some(v) => v
    case None => made
  }

  // ---- The object -----------------------------------------------------------------------

  class Cache {
    const maxDetectors: nat
    var slots: Slots

    constructor (maxDetectors: nat)
      ensures this.maxDetectors == maxDetectors && slots == []
    {
      this.maxDetectors := maxDetectors;
      slots := [];
    }

    method MoveToEnd(k: Key) returns (v: nat)
      requires Find(slots, k).Some?
      modifies this
      ensures Find(old(slots), k) == Some(v)
      ensures slots == Delete(old(slots), k) + [Slot(k, v)]
    {
      v := Find(slots, k).value;
      slots := Delete(slots, k) + [Slot(k, v)];
    }

    method GetOrCreate(k: Key, made: nat) returns (detector: nat)
      modifies this
      ensures slots == Access(old(slots), maxDetectors, k, made)
      ensures detector == Returned(old(slots), k, made)
    {
      if Find(slots, k).Some? {
        detector := MoveToEnd(k);
        return;
      }
      detector := made;
      slots := slots + [Slot(k, made)];
      ghost var full := slots;
      ghost var popped := 0;
      while |slots| > maxDetectors
        invariant popped <= |full| && slots == full[popped..]
        invariant popped == 0 || |slots| >= maxDetectors
      {
        slots := slots[1..];
        popped := popped + 1;
      }
      assert slots == Last(full, maxDetectors);
    }
  }

  // ---- Histories -----------------------------------------------------------------------------

  /** The cache after the accesses `h`; the object made at access `i` is named `i`. */
  function After(h: seq<Key>, cap: nat): Slots {
    if h == [] then []
    else
      var n := |h| - 1;
      Access(After(h[..n], cap), cap, h[n], n)
  }

  function Without(ks: seq<Key>, k: Key): seq<Key> {
    if ks == [] then []
    else if ks[0] == k then Without(ks[1..], k)
    else [ks[0]] + Without(ks[1..], k)
  }

  /** The distinct keys of a history by most recent access, oldest first. */
  function Recent(h: seq<Key>): seq<Key> {
    if h == [] then []
    else
      var n := |h| - 1;
      Without(Recent(h[..n]), h[n]) + [h[n]]
  }

  ghost predicate Distinct(ks: seq<Key>) {
    ks != [] ==> ks[0] !in ks[1..] && Distinct(ks[1..])
  }

  lemma {:induction false} DistinctSnoc(ks: seq<Key>, k: Key)
    requires Distinct(ks) && k !in ks
    ensures Distinct(ks + [k])
  {
    if ks != [] {
      DistinctSnoc(ks[1..], k);
      assert (ks + [k])[1..] == ks[1..] + [k];
    }
  }

  lemma {:induction false} WithoutSpec(ks: seq<Key>, k: Key)
    ensures forall x :: x in Without(ks, k) <==> x in ks && x != k
    ensures Distinct(ks) ==> Distinct(Without(ks, k))
    ensures k !in ks ==> Without(ks, k) == ks
  {
    if ks != [] {
      WithoutSpec(ks[1..], k);
      assert ks == [ks[0]] + ks[1..];
      if ks[0] != k {
        assert Without(ks, k)[1..] == Without(ks[1..], k);
      }
    }
  }

  lemma {:induction false} RecentSpec(h: seq<Key>)
    ensures Distinct(Recent(h))
    ensures forall x :: x in Recent(h) <==> x in h
  {
    if h != [] {
      var before, k := h[..|h| - 1], h[|h| - 1];
      var older := Without(Recent(before), k);
      RecentSpec(before);
      WithoutSpec(Recent(before), k);
      DistinctSnoc(older, k);
      assert Recent(h) == older + [k];
      forall x ensures x in Recent(h) <==> x in h {
        assert x in h <==> x in before || x == k by {
          assert h == before + [k];
        }
      }
    }
  }

  // ---- The cache holds the most recent distinct keys --------------------------------------------

  lemma {:induction false} FindIff(es: Slots, k: Key)
    ensures Find(es, k).Some? <==> k in Keys(es)
  {
    if es != [] {
      FindIff(es[1..], k);
      assert Keys(es) == [es[0].key] + Keys(es[1..]);
    }
  }

  lemma {:induction false} DeleteKeys(es: Slots, k: Key)
    requires Distinct(Keys(es))
    ensures Keys(Delete(es, k)) == Without(Keys(es), k)
  {
    if es != [] {
      var tail := es[1..];
      assert Keys(es) == [es[0].key] + Keys(tail);
      assert Keys(es)[1..] == Keys(tail);
      if es[0].key == k {
        assert k !in Keys(tail);
        WithoutSpec(Keys(tail), k);
      } else {
        DeleteKeys(tail, k);
        assert Keys([es[0]] + Delete(tail, k)) == [es[0].key] + Keys(Delete(tail, k));
      }
    }
  }

  lemma {:induction false} WithoutConcat(a: seq<Key>, b: seq<Key>, k: Key)
    ensures Without(a + b, k) == Without(a, k) + Without(b, k)
  {
    if a == [] {
      assert a + b == b;
    } else {
      WithoutConcat(a[1..], b, k);
      assert (a + b)[1..] == a[1..] + b;
    }
  }

  lemma {:induction false} DistinctParts(a: seq<Key>, b: seq<Key>)
    requires Distinct(a + b)
    ensures Distinct(b)
    ensures forall x :: x in b ==> x !in a
  {
    if a == [] {
      assert a + b == b;
    } else {
      assert (a + b)[1..] == a[1..] + b;
      DistinctParts(a[1..], b);
      assert a == [a[0]] + a[1..];
    }
  }

  lemma LastOfConcat(a: seq<Key>, b: seq<Key>)
    ensures Last(a + b, |b|) == b
  {
  }

  lemma WithoutInTwo(a: seq<Key>, b: seq<Key>, k: Key)
    requires Distinct(a + b)
    ensures Without(a + b, k) == if k in b then a + Without(b, k) else Without(a, k) + b
    ensures k in b ==> |Without(b, k)| == |b| - 1
  {
    DistinctParts(a, b);
    WithoutConcat(a, b, k);
    WithoutSpec(a, k);
    WithoutSpec(b, k);
    WithoutLength(b, k);
  }

  lemma WithoutSuffix(ks: seq<Key>, k: Key, n: nat)
    requires Distinct(ks)
    ensures k in Last(ks, n) ==> Without(Last(ks, n), k) == Last(Without(ks, k), |Last(ks, n)| - 1)
    ensures k !in Last(ks, n) ==> Last(Without(ks, k), n) == Last(ks, n)
  {
    var last := Last(ks, n);
    var first := ks[..|ks| - |last|];
    assert ks == first + last;
    WithoutInTwo(first, last, k);
    if k in last {
      LastOfConcat(first, Without(last, k));
    } else if n <= |ks| {
      LastOfConcat(Without(first, k), last);
    } else {
      assert last == ks && first == [] && Without(first, k) == [];
    }
  }

  lemma {:induction false} WithoutLength(ks: seq<Key>, k: Key)
    requires Distinct(ks)
    ensures |Without(ks, k)| == |ks| - (if k in ks then 1 else 0)
  {
    if ks != [] {
      WithoutLength(ks[1..], k);
      assert ks == [ks[0]] + ks[1..];
    }
  }

  /** Moving a key of the last `cap` to the end, in the window and in the whole order. */
  lemma HitOrder(recent: seq<Key>, cap: nat, k: Key)
    requires Distinct(recent) && k in Last(recent, cap)
    ensures Without(Last(recent, cap), k) + [k] == Last(Without(recent, k) + [k], cap)
  {
    var last, rest := Last(recent, cap), Without(recent, k);
    WithoutSuffix(recent, k, cap);
    LastAppend(rest, k, |last| - 1);
    if |recent| < cap {
      WithoutLength(recent, k);
      assert last == recent;
    }
  }

  lemma HitKeepsRecency(es: Slots, cap: nat, k: Key, recent: seq<Key>)
    requires Distinct(recent) && Distinct(Keys(es)) && Keys(es) == Last(recent, cap) && k in Keys(es)
    ensures Find(es, k).Some?
    ensures Keys(Delete(es, k) + [Slot(k, Find(es, k).value)]) == Last(Without(recent, k) + [k], cap)
  {
    FindIff(es, k);
    HitOrder(recent, cap, k);
    DeleteKeys(es, k);
    KeysSnoc(Delete(es, k), Slot(k, Find(es, k).value));
  }

  lemma KeysSnoc(es: Slots, slot: Slot)
    ensures Keys(es + [slot]) == Keys(es) + [slot.key]
  {
  }

  /** One more element and room for it. */
  lemma LastAppend(ks: seq<Key>, k: Key, n: nat)
    ensures Last(ks, n) + [k] == Last(ks + [k], n + 1)
    ensures n >= |ks| ==> Last(ks + [k], n + 1) == ks + [k]
  {
  }

  lemma MissKeepsRecency(es: Slots, cap: nat, k: Key, made: nat, recent: seq<Key>)
    requires Distinct(recent) && Keys(es) == Last(recent, cap) && k !in Keys(es)
    ensures Keys(Last(es + [Slot(k, made)], cap)) == Last(Without(recent, k) + [k], cap)
  {
    WithoutSuffix(recent, k, cap);
    assert Keys(es + [Slot(k, made)]) == Last(recent, cap) + [k];
    KeysOfLast(es + [Slot(k, made)], cap);
    LastSnoc(Without(recent, k), k, cap);
  }

  /** One access keeps "the last `cap` of the recency order". */
  lemma AccessKeepsRecency(es: Slots, cap: nat, k: Key, made: nat, recent: seq<Key>)
    requires Distinct(recent) && Distinct(Keys(es)) && Keys(es) == Last(recent, cap)
    ensures Keys(Access(es, cap, k, made)) == Last(Without(recent, k) + [k], cap)
  {
    FindIff(es, k);
    if k in Keys(es) {
      HitKeepsRecency(es, cap, k, recent);
    } else {
      MissKeepsRecency(es, cap, k, made, recent);
    }
  }

  lemma {:induction false} LastDistinct(ks: seq<Key>, n: nat)
    requires Distinct(ks)
    ensures Distinct(Last(ks, n))
  {
    if n < |ks| {
      LastDistinct(ks[1..], n);
      assert Last(ks, n) == Last(ks[1..], n);
    }
  }

  lemma KeysOfLast(es: Slots, cap: nat)
    ensures Keys(Last(es, cap)) == Last(Keys(es), cap)
  {
  }

  lemma LastSnoc(ks: seq<Key>, k: Key, cap: nat)
    ensures Last(Last(ks, cap) + [k], cap) == Last(ks + [k], cap)
  {
  }

  /** After any accesses the cache holds, in order, the last `cap` keys of the recency order. */
  lemma {:induction false} CacheHoldsMostRecent(h: seq<Key>, cap: nat)
    ensures Keys(After(h, cap)) == Last(Recent(h), cap)
  {
    if h != [] {
      var n := |h| - 1;
      CacheHoldsMostRecent(h[..n], cap);
      RecentSpec(h[..n]);
      LastDistinct(Recent(h[..n]), cap);
      AccessKeepsRecency(After(h[..n], cap), cap, h[n], n, Recent(h[..n]));
    }
  }

  lemma LastOfLast(ks: seq<Key>, small: nat, large: nat)
    requires small <= large
    ensures Last(Last(ks, large), small) == Last(ks, small)
  {
  }

  /** A larger cache always holds what a smaller one does, as its most recent part. */
  lemma LargerCacheContainsSmaller(h: seq<Key>, small: nat, large: nat)
    requires small <= large
    ensures Keys(After(h, small)) == Last(Keys(After(h, large)), small)
  {
    CacheHoldsMostRecent(h, small);
    CacheHoldsMostRecent(h, large);
    LastOfLast(Recent(h), small, large);
  }

  // ---- Residency by counting distinct keys -----------------------------------------------------------

  function LastIndex(h: seq<Key>, k: Key): (i: nat)
    requires k in h
    ensures i < |h| && h[i] == k && k !in h[i + 1..]
  {
    var n := |h| - 1;
    if h[n] == k then n
    else
      assert h == h[..n] + [h[n]];
      var i := LastIndex(h[..n], k);
      assert h[i + 1..] == h[..n][i + 1..] + [h[n]];
      i
  }

  /** What follows the first `k`. */
  function TailAfter(ks: seq<Key>, k: Key): seq<Key> {
    if ks == [] then []
    else if ks[0] == k then ks[1..]
    else TailAfter(ks[1..], k)
  }

  function Members(ks: seq<Key>): (m: set<Key>)
    ensures forall k :: k in m <==> k in ks
  {
    set k <- ks :: k
  }

  lemma MembersSnoc(a: seq<Key>, x: Key)
    ensures Members(a + [x]) == Members(a) + {x}
  {
  }

  lemma MembersRenewed(a: seq<Key>, x: Key)
    ensures Members(Without(a, x) + [x]) == Members(a) + {x}
  {
    WithoutSpec(a, x);
    MembersSnoc(Without(a, x), x);
  }

  lemma {:induction false} TailAfterWithout(ks: seq<Key>, k: Key, x: Key)
    requires Distinct(ks) && k in ks && x != k
    ensures TailAfter(Without(ks, x) + [x], k) == Without(TailAfter(ks, k), x) + [x]
  {
    var tail := ks[1..];
    assert ks == [ks[0]] + tail;
    if ks[0] == k {
      assert (Without(ks, x) + [x])[1..] == Without(tail, x) + [x];
    } else {
      TailAfterWithout(tail, k, x);
      if ks[0] != x {
        assert (Without(ks, x) + [x])[1..] == Without(tail, x) + [x];
      }
    }
  }

  lemma {:induction false} TailAfterLast(ks: seq<Key>, k: Key)
    requires k !in ks
    ensures TailAfter(ks + [k], k) == []
  {
    if ks != [] {
      assert (ks + [k])[1..] == ks[1..] + [k];
      TailAfterLast(ks[1..], k);
    }
  }

  /** The accesses after the last one to `k`. */
  function Since(h: seq<Key>, k: Key): seq<Key>
    requires k in h
  {
    h[LastIndex(h, k) + 1..]
  }

  lemma SinceSnoc(h: seq<Key>, x: Key, k: Key)
    requires x == k || k in h
    ensures k in h + [x]
    ensures Since(h + [x], k) == if x == k then [] else Since(h, k) + [x]
  {
    var all := h + [x];
    assert all[|h|] == x && all[..|h|] == h;
  }

  lemma NewerSnoc(h: seq<Key>, x: Key, k: Key)
    requires x == k || k in h
    ensures Members(TailAfter(Recent(h + [x]), k))
         == if x == k then {} else Members(TailAfter(Recent(h), k)) + {x}
  {
    var recent := Recent(h);
    assert Recent(h + [x]) == Without(recent, x) + [x] by {
      assert (h + [x])[..|h|] == h;
    }
    RecentSpec(h);
    if x == k {
      WithoutSpec(recent, x);
      TailAfterLast(Without(recent, k), k);
    } else {
      TailAfterWithout(recent, k, x);
      MembersRenewed(TailAfter(recent, k), x);
    }
  }

  /** The keys more recent than `k` are those accessed since its last access. */
  lemma {:induction false} MoreRecentKeys(h: seq<Key>, k: Key)
    requires k in h
    ensures Members(TailAfter(Recent(h), k)) == Members(Since(h, k))
  {
    var n := |h| - 1;
    assert h == h[..n] + [h[n]];
    SinceSnoc(h[..n], h[n], k);
    NewerSnoc(h[..n], h[n], k);
    if h[n] != k {
      MoreRecentKeys(h[..n], k);
      MembersSnoc(Since(h[..n], k), h[n]);
    }
  }

  lemma {:induction false} DistinctSize(ks: seq<Key>)
    requires Distinct(ks)
    ensures |Members(ks)| == |ks|
  {
    if ks != [] {
      DistinctSize(ks[1..]);
      assert ks == [ks[0]] + ks[1..];
      assert Members(ks) == {ks[0]} + Members(ks[1..]);
    }
  }

  lemma {:induction false} InLastIff(ks: seq<Key>, k: Key, n: nat)
    requires Distinct(ks) && k in ks
    ensures k in Last(ks, n) <==> |TailAfter(ks, k)| < n
    ensures Distinct(TailAfter(ks, k)) && |TailAfter(ks, k)| < |ks|
  {
    var tail := ks[1..];
    assert ks == [ks[0]] + tail;
    if ks[0] == k {
      assert n < |ks| ==> Last(ks, n) == tail[|tail| - n..];
      assert k !in tail;
    } else {
      InLastIff(tail, k, n);
      assert n < |ks| ==> Last(ks, n) == Last(tail, n);
    }
  }

  /** A key is resident exactly when it was accessed and fewer than `cap` distinct keys have been accessed since. */
  lemma ResidentIff(h: seq<Key>, k: Key, cap: nat)
    ensures k in Keys(After(h, cap)) <==> k in h && |Members(Since(h, k))| < cap
  {
    CacheHoldsMostRecent(h, cap);
    RecentSpec(h);
    if k in h {
      InLastIff(Recent(h), k, cap);
      DistinctSize(TailAfter(Recent(h), k));
      MoreRecentKeys(h, k);
    } else {
      assert forall x :: x in Last(Recent(h), cap) ==> x in Recent(h);
    }
  }

  // ---- Objects ------------------------------------------------------------------------------------------

  ghost predicate Resident(h: seq<Key>, cap: nat, k: Key) {
    k in Keys(After(h, cap))
  }

  /** Access `i` made the object of `k` that is in the cache now: `k` was out just before and has stayed in since. */
  ghost predicate ResidencyStart(h: seq<Key>, cap: nat, k: Key, i: nat) {
    && i < |h| && h[i] == k
    && !Resident(h[..i], cap, k)
    && forall j :: i < j <= |h| ==> Resident(h[..j], cap, k)
  }

  lemma {:induction false} DeleteFinds(es: Slots, k: Key, x: Key)
    requires k != x
    ensures Find(Delete(es, x), k) == Find(es, k)
  {
    if es != [] && es[0].key != x {
      DeleteFinds(es[1..], k, x);
      assert Delete(es, x)[1..] == Delete(es[1..], x);
    }
  }

  lemma {:induction false} FindConcat(a: Slots, b: Slots, k: Key)
    ensures Find(a + b, k) == if k in Keys(a) then Find(a, k) else Find(b, k)
  {
    if a == [] {
      assert a + b == b;
    } else {
      FindConcat(a[1..], b, k);
      assert (a + b)[1..] == a[1..] + b;
      assert Keys(a) == [a[0].key] + Keys(a[1..]);
    }
  }

  lemma FindInLast(es: Slots, n: nat, k: Key)
    requires Distinct(Keys(es)) && k in Keys(Last(es, n))
    ensures Find(Last(es, n), k) == Find(es, k)
  {
    if n < |es| {
      var a, b := es[..|es| - n], es[|es| - n..];
      assert es == a + b;
      assert Keys(es) == Keys(a) + Keys(b);
      DistinctParts(Keys(a), Keys(b));
      FindConcat(a, b, k);
    }
  }

  /** An access changes no other resident key's object. */
  lemma AccessKeepsOthers(es: Slots, cap: nat, x: Key, made: nat, k: Key)
    requires Distinct(Keys(es)) && k != x && k in Keys(Access(es, cap, x, made))
    ensures Find(Access(es, cap, x, made), k) == Find(es, k)
  {
    FindIff(es, x);
    match Find(es, x)
    case Some(v) =>
      DeleteFinds(es, k, x);
      FindConcat(Delete(es, x), [Slot(x, v)], k);
      FindIff(Delete(es, x), k);
      FindIff(Delete(es, x) + [Slot(x, v)], k);
    case None =>
      var full := es + [Slot(x, made)];
      assert Keys(full) == Keys(es) + [x];
      DistinctSnoc(Keys(es), x);
      FindInLast(full, cap, k);
      FindConcat(es, [Slot(x, made)], k);
      FindIff(es, k);
      FindIff(full, k);
      KeysOfLast(full, cap);
      assert k in Keys(full);
  }

  lemma CacheDistinct(h: seq<Key>, cap: nat)
    ensures Distinct(Keys(After(h, cap)))
  {
    CacheHoldsMostRecent(h, cap);
    RecentSpec(h);
    LastDistinct(Recent(h), cap);
  }

  /** The object held for the key just accessed. */
  lemma AccessedObject(es: Slots, cap: nat, k: Key, made: nat)
    requires Distinct(Keys(es))
    ensures k in Keys(Access(es, cap, k, made)) ==> Find(Access(es, cap, k, made), k) == Some(Returned(es, k, made))
    ensures Find(es, k).Some? ==> k in Keys(Access(es, cap, k, made))
  {
    FindIff(es, k);
    match Find(es, k)
    case Some(v) =>
      DeleteKeys(es, k);
      WithoutSpec(Keys(es), k);
      FindConcat(Delete(es, k), [Slot(k, v)], k);
      assert Keys(Delete(es, k) + [Slot(k, v)]) == Keys(Delete(es, k)) + [k];
    case None =>
      var full := es + [Slot(k, made)];
      assert Keys(full) == Keys(es) + [k];
      if k in Keys(Access(es, cap, k, made)) {
        DistinctSnoc(Keys(es), k);
        FindInLast(full, cap, k);
        FindConcat(es, [Slot(k, made)], k);
      }
  }

  lemma ResidencyGoesOn(h: seq<Key>, cap: nat, k: Key, i: nat)
    requires h != [] && ResidencyStart(h[..|h| - 1], cap, k, i) && Resident(h, cap, k)
    ensures ResidencyStart(h, cap, k, i)
  {
    var before := h[..|h| - 1];
    assert h[..|h|] == h && before[..i] == h[..i];
    forall j | i < j <= |h|
      ensures Resident(h[..j], cap, k)
    {
      assert j < |h| ==> before[..j] == h[..j];
    }
  }

  /** The object held for a key is the one made at the start of its current residency. */
  lemma {:induction false} ObjectFromResidencyStart(h: seq<Key>, cap: nat, k: Key)
    requires Resident(h, cap, k)
    ensures Find(After(h, cap), k).Some? && ResidencyStart(h, cap, k, Find(After(h, cap), k).value)
  {
    FindIff(After(h, cap), k);
    var n := |h| - 1;
    var before, x := h[..n], h[n];
    var es := After(before, cap);
    CacheDistinct(before, cap);
    FindIff(es, k);
    if x == k {
      AccessedObject(es, cap, k, n);
    } else {
      AccessKeepsOthers(es, cap, x, n, k);
    }
    if Resident(before, cap, k) {
      ObjectFromResidencyStart(before, cap, k);
      ResidencyGoesOn(h, cap, k, Find(es, k).value);
    } else {
      assert h[..|h|] == h;
    }
  }

  /** A lookup returns the object of the current residency on a hit, and the one just made on a miss. */
  lemma LookupReturns(h: seq<Key>, cap: nat, k: Key)
    ensures var r := Returned(After(h, cap), k, |h|);
            if Resident(h, cap, k) then ResidencyStart(h, cap, k, r) else r == |h|
  {
    FindIff(After(h, cap), k);
    if Resident(h, cap, k) {
      ObjectFromResidencyStart(h, cap, k);
    }
  }
}
