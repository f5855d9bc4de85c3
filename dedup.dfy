/**
 * The message-id duplicate cache (callback.php:30-51): an insertion-ordered
 * PHP array from mid to first-seen time, kept in a JSON file and bounded to
 * the last MID_CACHE_LIMIT entries.
 */
module Dedup {
  import opened Wrappers

  const CacheLimit: nat := 200

  /** One cache entry: a message id and the time it was marked. */
  datatype Stamp = Stamp(mid: string, time: int)

  /** The cache file: absent, not decodable to an array, or a decoded array. */
  datatype Stored = Missing | Unreadable | Json(stamps: seq<Stamp>)

  function Keys(c: seq<Stamp>): set<string> {
    set s | s in c :: s.mid
  }

  /** The id of the `i`-th entry. */
  function MidAt(c: seq<Stamp>, i: nat): string
    requires i < |c|
  {
    c[i].mid
  }

  /** A PHP array never holds a key twice. (Stated over `MidAt`, so that the
      quantifier is used only for the positions a proof names.) */
  predicate Distinct(c: seq<Stamp>) {
    forall i, j :: 0 <= i < j < |c| ==> MidAt(c, i) != MidAt(c, j)
  }

  /** `load_mid_cache`: a missing or undecodable file reads as the empty cache. */
  function Entries(f: Stored): seq<Stamp> {
    if f.Json? then f.stamps else []
  }

  lemma SameMidsSameKeys(c: seq<Stamp>, r: seq<Stamp>)
    requires |r| == |c| && forall i :: 0 <= i < |c| ==> r[i].mid == c[i].mid
    ensures Keys(r) == Keys(c)
    ensures Distinct(c) ==> Distinct(r)
  {
    forall m | m in Keys(r) ensures m in Keys(c) {
      var s :| s in r && s.mid == m;
      var i :| 0 <= i < |r| && r[i] == s;
      assert c[i] in c;
    }
    forall m | m in Keys(c) ensures m in Keys(r) {
      var s :| s in c && s.mid == m;
      var i :| 0 <= i < |c| && c[i] == s;
      assert r[i] in r;
    }
    if Distinct(c) {
      forall i, j | 0 <= i < j < |r| ensures MidAt(r, i) != MidAt(r, j) {
        assert MidAt(c, i) != MidAt(c, j);
      }
    }
  }

  /** `$cache[$mid] = $now`: overwrite in place when the key is there, else append. */
  function Put(c: seq<Stamp>, mid: string, now: int): seq<Stamp> {
    if mid in Keys(c) then
      seq(|c|, i requires 0 <= i < |c| => if c[i].mid == mid then Stamp(mid, now) else c[i])
    else
      c + [Stamp(mid, now)]
  }

  /** A key that is already there keeps its position, with the new time; a new
      key is appended; either way the keys grow by exactly `mid` and stay distinct. */
  lemma PutFacts(c: seq<Stamp>, mid: string, now: int)
    ensures Keys(Put(c, mid, now)) == Keys(c) + {mid}
    ensures Distinct(c) ==> Distinct(Put(c, mid, now))
    ensures mid !in Keys(c) ==> Put(c, mid, now) == c + [Stamp(mid, now)]
    ensures mid in Keys(c) ==> |Put(c, mid, now)| == |c|
    ensures mid in Keys(c) ==> forall i :: 0 <= i < |c| && c[i].mid == mid ==> Put(c, mid, now)[i] == Stamp(mid, now)
    ensures mid in Keys(c) ==> forall i :: 0 <= i < |c| && c[i].mid != mid ==> Put(c, mid, now)[i] == c[i]
  {
    var r := Put(c, mid, now);
    if mid in Keys(c) {
      SameMidsSameKeys(c, r);
    } else {
      AppendKeys(c, Stamp(mid, now));
      if Distinct(c) {
        forall i, j | 0 <= i < j < |r| ensures MidAt(r, i) != MidAt(r, j) {
          if j < |c| {
            assert MidAt(c, i) != MidAt(c, j);
          } else {
            assert c[i] in c;
          }
        }
      }
    }
  }

  /** `array_slice($cache, -N, N, true)` when there are more than N entries:
      the last `n` entries, in insertion order, with their times unchanged. */
  function KeepLast(c: seq<Stamp>, n: nat): seq<Stamp> {
    if |c| > n then c[|c| - n..] else c
  }

  /** The cache content after `mark_mid_seen(mid)` at time `now`. */
  function Mark(c: seq<Stamp>, mid: string, now: int): seq<Stamp> {
    KeepLast(Put(c, mid, now), CacheLimit)
  }

  lemma SuffixKeys(c: seq<Stamp>, k: nat)
    requires k <= |c|
    ensures Keys(c[k..]) <= Keys(c)
    ensures Distinct(c) ==> Distinct(c[k..])
  {
    assert forall s :: s in c[k..] ==> s in c;
    if Distinct(c) {
      forall i, j | 0 <= i < j < |c| - k ensures MidAt(c[k..], i) != MidAt(c[k..], j) {
        assert MidAt(c, k + i) != MidAt(c, k + j);
      }
    }
  }

  /** A mark keeps the cache duplicate-free and bounded, and remembers the mid. */
  lemma MarkFacts(c: seq<Stamp>, mid: string, now: int)
    requires Distinct(c) && |c| <= CacheLimit
    ensures Distinct(Mark(c, mid, now)) && |Mark(c, mid, now)| <= CacheLimit
    ensures mid in Keys(Mark(c, mid, now))
    ensures Keys(Mark(c, mid, now)) <= Keys(c) + {mid}
  {
    var p := Put(c, mid, now);
    PutFacts(c, mid, now);
    SuffixKeys(p, |p| - |Mark(c, mid, now)|);
    if mid !in Keys(c) {
      assert Mark(c, mid, now)[|Mark(c, mid, now)| - 1] == Stamp(mid, now);
    }
  }

  /** The cache after marking each stamp's mid at its time, in order. */
  function MarkAll(c: seq<Stamp>, ms: seq<Stamp>): seq<Stamp>
    decreases |ms|
  {
    if ms == [] then c
    else
      var last := ms[|ms| - 1];
      Mark(MarkAll(c, ms[..|ms| - 1]), last.mid, last.time)
  }

  lemma KeepLastAppend(a: seq<Stamp>, b: seq<Stamp>, n: nat)
    ensures KeepLast(KeepLast(a, n) + b, n) == KeepLast(a + b, n)
  {
    if |a| > n {
      var k, ab := a[|a| - n..], a + b;
      assert k + b == ab[|a| - n..];
      if b == [] {
        assert ab == a && k + b == k;
      } else {
        assert (k + b)[|b|..] == ab[|ab| - n..];
      }
    }
  }

  /** Marking ids that are new and pairwise distinct leaves exactly the last
      CacheLimit of all entries, in insertion order, with their times. */
  lemma {:induction false} MarkAllFresh(c: seq<Stamp>, ms: seq<Stamp>)
    requires |c| <= CacheLimit && Distinct(c + ms)
    ensures MarkAll(c, ms) == KeepLast(c + ms, CacheLimit)
    decreases |ms|
  {
    if ms == [] {
      assert c + ms == c;
    } else {
      var p, x := ms[..|ms| - 1], ms[|ms| - 1];
      assert c + ms == (c + p) + [x];
      assert Distinct(c + p) by {
        forall i, j | 0 <= i < j < |c + p| ensures MidAt(c + p, i) != MidAt(c + p, j) {
          assert MidAt(c + ms, i) != MidAt(c + ms, j);
        }
      }
      MarkAllFresh(c, p);
      var k := KeepLast(c + p, CacheLimit);
      assert x.mid !in Keys(k) by {
        SuffixKeys(c + p, |c + p| - |k|);
        assert x == (c + ms)[|c + ms| - 1];
        assert forall i :: 0 <= i < |c + p| ==> (c + p)[i] == (c + ms)[i];
        forall i | 0 <= i < |c + p| ensures (c + p)[i].mid != x.mid {
          assert MidAt(c + ms, i) != MidAt(c + ms, |c + ms| - 1);
        }
      }
      assert Put(k, x.mid, x.time) == k + [x];
      KeepLastAppend(c + p, [x], CacheLimit);
    }
  }

  /** In a duplicate-free cache an entry's id survives in a suffix exactly when
      the entry itself is in that suffix. */
  lemma KeyInSuffix(all: seq<Stamp>, j: nat, start: nat)
    requires Distinct(all) && j < |all| && start <= |all|
    ensures all[j].mid in Keys(all[start..]) <==> start <= j
  {
    var suffix := all[start..];
    if start <= j {
      assert suffix[j - start] == all[j];
    } else {
      assert forall i :: 0 <= i < |suffix| ==> suffix[i] == all[start + i];
      forall i | 0 <= i < |suffix| ensures suffix[i].mid != all[j].mid {
        assert MidAt(all, j) != MidAt(all, start + i);
      }
    }
  }

  /** After `mark_mid_seen(m)`, `m` stays seen while fewer than CacheLimit new
      distinct ids are marked after it, and is evicted by the CacheLimit-th. */
  lemma Retention(c: seq<Stamp>, m: Stamp, later: seq<Stamp>)
    requires |c| <= CacheLimit && Distinct(c + ([m] + later))
    ensures m.mid in Keys(MarkAll(c, [m] + later)) <==> |later| < CacheLimit
  {
    var ms := [m] + later;
    var all := c + ms;
    var r := KeepLast(all, CacheLimit);
    assert MarkAll(c, ms) == r by {
      MarkAllFresh(c, ms);
    }
    assert m.mid in Keys(r) <==> |later| < CacheLimit by {
      assert all[|c|] == m;
      KeyInSuffix(all, |c|, |all| - |r|);
    }
  }

  /** A key of the cache is the id of one of its entries, and conversely. */
  lemma KeyAt(c: seq<Stamp>, mid: string)
    ensures mid in Keys(c) <==> exists i :: 0 <= i < |c| && MidAt(c, i) == mid
  {
    if mid in Keys(c) {
      var s :| s in c && s.mid == mid;
      var i :| 0 <= i < |c| && c[i] == s;
      assert MidAt(c, i) == mid;
    }
    if exists i :: 0 <= i < |c| && MidAt(c, i) == mid {
      var i :| 0 <= i < |c| && MidAt(c, i) == mid;
      assert c[i] in c;
    }
  }

  lemma AppendKeys(c: seq<Stamp>, s: Stamp)
    ensures Keys(c + [s]) == Keys(c) + {s.mid}
  {
    assert forall t :: t in c + [s] <==> t in c || t == s;
  }

  /** Keeping the last `n` entries of `c + [x]`, the last `k + 1` of them
      (for `k < n`) are the last `k` entries of `c` followed by `x`. */
  lemma RecentAfterAppend(c: seq<Stamp>, x: Stamp, n: nat, k: nat)
    requires k <= |c| && k < n
    ensures k + 1 <= |KeepLast(c + [x], n)|
    ensures var r := KeepLast(c + [x], n); r[|r| - (k + 1)..] == c[|c| - k..] + [x]
  {
    var p := c + [x];
    var r := KeepLast(p, n);
    var d := |p| - |r|;
    assert r == p[d..];
    var lhs, rhs := r[|r| - (k + 1)..], c[|c| - k..] + [x];
    assert |lhs| == |rhs| == k + 1;
    forall i | 0 <= i < k + 1
      ensures lhs[i] == rhs[i]
    {
      assert lhs[i] == p[|p| - (k + 1) + i];
      if i < k {
        assert rhs[i] == c[|c| - k + i];
      }
    }
  }

  /** Marking a new id keeps the ids of the last `k` entries (when fewer than
      CacheLimit) and adds the new one: the last `k + 1` entries afterwards hold
      exactly those. */
  lemma FreshMarkKeepsRecent(c: seq<Stamp>, k: nat, mid: string, now: int)
    requires Distinct(c) && k <= |c| && k < CacheLimit && mid !in Keys(c)
    ensures var r := Mark(c, mid, now);
      && Distinct(r) && k + 1 <= |r|
      && Keys(r[|r| - (k + 1)..]) == Keys(c[|c| - k..]) + {mid}
      && Keys(r) <= Keys(c) + {mid}
  {
    var x := Stamp(mid, now);
    var p := c + [x];
    assert Put(c, mid, now) == p && Distinct(p) && Keys(p) == Keys(c) + {mid} by {
      PutFacts(c, mid, now);
    }
    var r := KeepLast(p, CacheLimit);
    assert Distinct(r) && Keys(r) <= Keys(p) by {
      assert r == p[|p| - |r|..];
      SuffixKeys(p, |p| - |r|);
    }
    var recent := c[|c| - k..];
    RecentAfterAppend(c, x, CacheLimit, k);
    AppendKeys(recent, x);
  }

  /** A mid that was not in the cache is in it right after it is marked. */
  lemma FreshMarkRemembers(c: seq<Stamp>, mid: string, now: int)
    requires mid !in Keys(c)
    ensures mid in Keys(Mark(c, mid, now))
  {
    var r := Mark(c, mid, now);
    assert Put(c, mid, now) == c + [Stamp(mid, now)];
    assert r[|r| - 1] == Stamp(mid, now);
  }

  /** The file as a cache object: `load`, `save`, `seen` and `mark` over it. */
  class MidCache {
    var file: Stored

    ghost predicate Valid()
      reads this
    {
      Distinct(Entries(file))
    }

    constructor (f: Stored)
      requires Distinct(Entries(f))
      ensures Valid() && file == f
    {
      file := f;
    }

    /** `load_mid_cache()`. */
    function Load(): (c: seq<Stamp>)
      reads this
      ensures Valid() ==> Distinct(c)
      ensures !file.Json? ==> c == []
    {
      Entries(file)
    }

    /** `mid_seen_before($mid)`: the mid is a key of the loaded cache, that is,
        some stored entry carries it. */
    function SeenBefore(mid: string): (seen: bool)
      reads this
      ensures seen <==> exists i :: 0 <= i < |Load()| && MidAt(Load(), i) == mid
    {
      KeyAt(Load(), mid);
      mid in Keys(Load())
    }

    /** `save_mid_cache($cache)`: keep the last CacheLimit entries and write them. */
    method Save(cache: seq<Stamp>)
      requires Distinct(cache)
      modifies this
      ensures Valid()
      ensures file == Json(KeepLast(cache, CacheLimit))
    {
      var c := cache;
      if |c| > CacheLimit {
        c := c[|c| - CacheLimit..];
      }
      SuffixKeys(cache, |cache| - |c|);
      file := Json(c);
    }

    /** `mark_mid_seen($mid)`: load, stamp the mid with `now`, save. */
    method MarkSeen(mid: string, now: int)
      requires Valid()
      modifies this
      ensures Valid()
      ensures file == Json(Mark(old(Load()), mid, now))
    {
      var c := Load();
      PutFacts(c, mid, now);
      c := Put(c, mid, now);
      Save(c);
    }
  }
}
