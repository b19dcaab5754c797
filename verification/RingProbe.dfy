/** Probing a pool in ring order: `pool[(seed + probe) % pool.length]` for each probe in turn. */
module RingProbe {
  import opened Arithmetic
  import opened Collections

  function RingAt(pool: seq<string>, seed: nat, probe: nat): string
    requires pool != []
  {
    pool[(seed + probe) % |pool|]
  }

  /** The first member in ring order, from `probe` on, that is acceptable. */
  function RingFind(pool: seq<string>, seed: nat, probe: nat, ok: string -> bool): Option<string>
    decreases |pool| - probe
  {
    if probe >= |pool| then None
    else
      var cand := RingAt(pool, seed, probe);
      if ok(cand) then Some(cand) else RingFind(pool, seed, probe + 1, ok)
  }

  /** One turn of the ring visits every index. */
  lemma RingCovers(n: nat, seed: nat, j: nat) returns (probe: nat)
    requires j < n
    ensures probe < n && (seed + probe) % n == j
  {
    var start := seed % n;
    probe := if j >= start then j - start else j + n - start;
    var q := seed / n;
    assert seed == q * n + start;
    if j >= start {
      ModOf(n, q, j);
    } else {
      assert seed + probe == (q + 1) * n + j;
      ModOf(n, q + 1, j);
    }
  }

  /** Probe `q` is the first from `from` on to meet an acceptable member. */
  ghost predicate FirstAt(pool: seq<string>, seed: nat, from: nat, q: nat, ok: string -> bool)
    requires pool != []
  {
    ok(RingAt(pool, seed, q)) && forall r :: from <= r < q ==> !ok(RingAt(pool, seed, r))
  }

  lemma {:induction false} RingTail(pool: seq<string>, seed: nat, probe: nat, ok: string -> bool)
    ensures match RingFind(pool, seed, probe, ok)
            case Some(c) =>
              exists q :: probe <= q < |pool| && FirstAt(pool, seed, probe, q, ok) && RingAt(pool, seed, q) == c
            case None => forall q :: probe <= q < |pool| ==> !ok(RingAt(pool, seed, q))
    decreases |pool| - probe
  {
    if probe < |pool| && ok(RingAt(pool, seed, probe)) {
      assert FirstAt(pool, seed, probe, probe, ok);
    } else if probe < |pool| {
      RingTail(pool, seed, probe + 1, ok);
      var found := RingFind(pool, seed, probe + 1, ok);
      if found.Some? {
        var q :| probe + 1 <= q < |pool| && FirstAt(pool, seed, probe + 1, q, ok)
                 && RingAt(pool, seed, q) == found.value;
        assert FirstAt(pool, seed, probe, q, ok);
      }
    }
  }

  /** A search of the whole ring finds the first acceptable member, and fails exactly when there is none in the pool. */
  lemma RingFindIsComplete(pool: seq<string>, seed: nat, ok: string -> bool)
    ensures match RingFind(pool, seed, 0, ok)
            case Some(c) =>
              && c in pool && ok(c)
              && exists q :: 0 <= q < |pool| && FirstAt(pool, seed, 0, q, ok) && RingAt(pool, seed, q) == c
            case None => forall c :: c in pool ==> !ok(c)
  {
    RingTail(pool, seed, 0, ok);
    if RingFind(pool, seed, 0, ok).None? {
      forall c | c in pool ensures !ok(c) {
        var j :| 0 <= j < |pool| && pool[j] == c;
        var probe := RingCovers(|pool|, seed, j);
        assert RingAt(pool, seed, probe) == c;
      }
    }
  }

  // ----- The ring as a sequence

  /** The pool turned so that it starts at index `seed`, counted around. */
  function Ring(pool: seq<string>, seed: nat): (ring: seq<string>)
    ensures |ring| == |pool|
  {
    if pool == [] then []
    else
      var start := seed % |pool|;
      pool[start..] + pool[..start]
  }

  lemma ProbesFollowTheRing(pool: seq<string>, seed: nat, q: nat)
    requires q < |pool|
    ensures RingAt(pool, seed, q) == Ring(pool, seed)[q]
  {
    var n, start := |pool|, seed % |pool|;
    var turns := seed / n;
    assert seed == turns * n + start;
    if start + q < n {
      ModOf(n, turns, start + q);
    } else {
      assert seed + q == (turns + 1) * n + (start + q - n) by { Distribute(turns, n); }
      ModOf(n, turns + 1, start + q - n);
    }
  }

  /** The first acceptable member of a sequence: `person`, with everyone before unacceptable. */
  ghost predicate FirstIn(s: seq<string>, person: string, ok: string -> bool) {
    exists q :: 0 <= q < |s| && s[q] == person && ok(person) && forall r :: 0 <= r < q ==> !ok(s[r])
  }

  /** Who is found is the first acceptable member of the ring from `seed` on. */
  lemma RingFindIsFirst(pool: seq<string>, seed: nat, ok: string -> bool)
    ensures RingFind(pool, seed, 0, ok).Some? ==> FirstIn(Ring(pool, seed), RingFind(pool, seed, 0, ok).value, ok)
  {
    hide RingAt, Ring, RingFind;
    RingFindIsComplete(pool, seed, ok);
    if RingFind(pool, seed, 0, ok).Some? {
      var person := RingFind(pool, seed, 0, ok).value;
      var q :| 0 <= q < |pool| && FirstAt(pool, seed, 0, q, ok) && RingAt(pool, seed, q) == person;
      forall r | 0 <= r <= q ensures Ring(pool, seed)[r] == RingAt(pool, seed, r) {
        ProbesFollowTheRing(pool, seed, r);
      }
    }
  }
}
