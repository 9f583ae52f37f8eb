/** Round-robin choice of an IO thread. */
module ThreadPools {
  import opened Modular

  // ------------------------------------- going round and round, unrolled

  /** The thread at a position on the unrolled circle can be used. */
  ghost predicate Good(flags: seq<bool>, p: nat)
    requires flags != []
  {
    flags[p % |flags|]
  }

  /** The first usable position from p on, or limit. */
  ghost function Find(flags: seq<bool>, p: nat, limit: nat): (q: nat)
    requires flags != [] && p <= limit
    ensures p <= q <= limit && (q < limit ==> Good(flags, q))
    decreases limit - p
  {
    if p == limit || Good(flags, p) then p else Find(flags, p + 1, limit)
  }

  lemma {:induction false} FindFirst(flags: seq<bool>, p: nat, limit: nat)
    requires flags != [] && p <= limit
    ensures forall r :: p <= r < Find(flags, p, limit) ==> !Good(flags, r)
    decreases limit - p
  {
    if p < limit && !Good(flags, p) {
      FindFirst(flags, p + 1, limit);
    }
  }

  /** How many usable positions there are in a range, and how many of them belong to one thread. */
  ghost function Total(flags: seq<bool>, a: nat, b: nat): nat
    requires flags != []
    decreases b
  {
    if b <= a then 0 else Total(flags, a, b - 1) + if Good(flags, b - 1) then 1 else 0
  }

  ghost function Hits(flags: seq<bool>, a: nat, b: nat, j: nat): nat
    requires flags != []
    decreases b
  {
    if b <= a then 0 else Hits(flags, a, b - 1, j) + if Good(flags, b - 1) && (b - 1) % |flags| == j then 1 else 0
  }

  lemma {:induction false} Joins(flags: seq<bool>, a: nat, b: nat, c: nat, j: nat)
    requires flags != [] && a <= b <= c
    ensures Total(flags, a, c) == Total(flags, a, b) + Total(flags, b, c)
    ensures Hits(flags, a, c, j) == Hits(flags, a, b, j) + Hits(flags, b, c, j)
    decreases c
  {
    if b < c {
      Joins(flags, a, b, c - 1, j);
    }
  }

  /** No usable position, no hits. */
  lemma {:induction false} NoneNoHits(flags: seq<bool>, a: nat, b: nat, j: nat)
    requires flags != [] && Total(flags, a, b) == 0
    ensures Hits(flags, a, b, j) == 0 && (a < b ==> !Good(flags, b - 1))
    decreases b
  {
    if a < b {
      NoneNoHits(flags, a, b - 1, j);
    }
  }

  lemma {:induction false} EmptyStretch(flags: seq<bool>, a: nat, b: nat, j: nat)
    requires flags != [] && forall r :: a <= r < b ==> !Good(flags, r)
    ensures Total(flags, a, b) == 0 && Hits(flags, a, b, j) == 0
    decreases b
  {
    if a < b {
      EmptyStretch(flags, a, b - 1, j);
    }
  }

  lemma SameThread(flags: seq<bool>, p: nat)
    requires flags != []
    ensures (p + |flags|) % |flags| == p % |flags|
  {
    var n := |flags|;
    assert p + n == n * (p / n + 1) + p % n;
    Remainder(p / n + 1, p % n, n);
  }

  /** A round shifted by one sees the same. */
  lemma {:induction false} Shifted(flags: seq<bool>, a: nat, j: nat)
    requires flags != []
    ensures Total(flags, a, a + |flags|) == Total(flags, 0, |flags|)
    ensures Hits(flags, a, a + |flags|, j) == Hits(flags, 0, |flags|, j)
  {
    if a > 0 {
      var n := |flags|;
      Shifted(flags, a - 1, j);
      SameThread(flags, a - 1);
      Joins(flags, a - 1, a, a - 1 + n, j);
      Joins(flags, a, a - 1 + n, a + n, j);
      assert Total(flags, a - 1, a) == if Good(flags, a - 1) then 1 else 0;
      assert Total(flags, a - 1 + n, a + n) == if Good(flags, a - 1 + n) then 1 else 0;
      assert Hits(flags, a - 1, a, j) == if Good(flags, a - 1) && (a - 1) % n == j then 1 else 0;
      assert Hits(flags, a - 1 + n, a + n, j) == if Good(flags, a - 1 + n) && (a - 1 + n) % n == j then 1 else 0;
    }
  }

  lemma {:induction false} FirstRound(flags: seq<bool>, b: nat, j: nat)
    requires flags != [] && j < |flags| && b <= |flags|
    ensures Hits(flags, 0, b, j) == if flags[j] && j < b then 1 else 0
  {
    if b > 0 {
      FirstRound(flags, b - 1, j);
      Remainder(0, b - 1, |flags|);
      assert |flags| * 0 + (b - 1) == b - 1;
    }
  }

  /** k laps of n. */
  ghost function Laps(k: nat, n: nat): nat {
    if k == 0 then 0 else Laps(k - 1, n) + n
  }

  lemma {:induction false} LapsMultiply(k: nat, n: nat)
    ensures Laps(k, n) == k * n
  {
    if k > 0 {
      LapsMultiply(k - 1, n);
    }
  }

  lemma OneRound(flags: seq<bool>, a: nat, j: nat)
    requires flags != [] && j < |flags| && flags[j]
    ensures Hits(flags, a, a + |flags|, j) == 1 && Total(flags, a, a + |flags|) == Usable(flags)
  {
    Shifted(flags, a, j);
    FirstRound(flags, |flags|, j);
  }

  /** In k rounds every usable thread is met k times. */
  lemma {:induction false} Rounds(flags: seq<bool>, a: nat, k: nat, j: nat)
    requires flags != [] && j < |flags| && flags[j]
    ensures Hits(flags, a, a + Laps(k, |flags|), j) == k
    ensures Total(flags, a, a + Laps(k, |flags|)) == Laps(k, Usable(flags))
  {
    if k > 0 {
      var mid := a + Laps(k - 1, |flags|);
      Rounds(flags, a, k - 1, j);
      Joins(flags, a, mid, mid + |flags|, j);
      OneRound(flags, mid, j);
    }
  }

  ghost function Usable(flags: seq<bool>): nat
    requires flags != []
  {
    Total(flags, 0, |flags|)
  }

  // ------------------------------------------------------ consecutive calls

  /** Where the position stands after m calls, and the threads they returned. */
  ghost function After(flags: seq<bool>, p: nat, m: nat): nat
    requires flags != []
  {
    if m == 0 then p else Chosen(flags, After(flags, p, m - 1)) + 1
  }

  ghost function Chosen(flags: seq<bool>, p: nat): nat
    requires flags != []
  {
    Find(flags, p, p + |flags|)
  }

  ghost function Returned(flags: seq<bool>, p: nat, m: nat): (s: seq<nat>)
    requires flags != []
    ensures |s| == m
  {
    if m == 0 then [] else Returned(flags, p, m - 1) + [Chosen(flags, After(flags, p, m - 1)) % |flags|]
  }

  ghost function Times(s: seq<nat>, j: nat): nat {
    if s == [] then 0 else Times(s[..|s| - 1], j) + if s[|s| - 1] == j then 1 else 0
  }

  /** Some thread can be used: then a round from anywhere finds one. */
  lemma SomeInRound(flags: seq<bool>, p: nat, j: nat)
    requires flags != [] && j < |flags| && flags[j]
    ensures Chosen(flags, p) < p + |flags|
  {
    FindFirst(flags, p, p + |flags|);
    if Chosen(flags, p) == p + |flags| {
      EmptyStretch(flags, p, p + |flags|, j);
      OneRound(flags, p, j);
    }
  }

  lemma {:induction false} CallsAdvance(flags: seq<bool>, p: nat, m: nat, j: nat)
    requires flags != [] && j < |flags| && flags[j]
    ensures var q := After(flags, p, m); q >= p && (q > p ==> Good(flags, q - 1)) && Total(flags, p, q) == m
  {
    if m > 0 {
      CallsAdvance(flags, p, m - 1, j);
      OneCall(flags, p, After(flags, p, m - 1), j);
    }
  }

  /** The calls return the usable positions they pass, each once. */
  lemma {:induction false} CallsPass(flags: seq<bool>, p: nat, m: nat, j: nat)
    requires flags != [] && j < |flags| && flags[j]
    ensures Hits(flags, p, After(flags, p, m), j) == Times(Returned(flags, p, m), j)
  {
    if m > 0 {
      CallsPass(flags, p, m - 1, j);
      CallsAdvance(flags, p, m - 1, j);
      OneCall(flags, p, After(flags, p, m - 1), j);
      LastCall(flags, p, m, j);
    }
  }

  lemma LastCall(flags: seq<bool>, p: nat, m: nat, j: nat)
    requires flags != [] && m > 0
    ensures var c := Chosen(flags, After(flags, p, m - 1));
            && After(flags, p, m) == c + 1
            && Times(Returned(flags, p, m), j) == Times(Returned(flags, p, m - 1), j) + if c % |flags| == j then 1 else 0
  {
    TimesMore(Returned(flags, p, m - 1), Chosen(flags, After(flags, p, m - 1)) % |flags|, j);
  }

  lemma TimesMore(s: seq<nat>, i: nat, j: nat)
    ensures Times(s + [i], j) == Times(s, j) + if i == j then 1 else 0
  {
    assert (s + [i])[..|s + [i]| - 1] == s;
  }

  lemma OneCall(flags: seq<bool>, p: nat, q: nat, j: nat)
    requires flags != [] && j < |flags| && flags[j] && p <= q
    ensures var c := Chosen(flags, q);
            && c >= q && Good(flags, c) && Total(flags, p, c + 1) == Total(flags, p, q) + 1
            && Hits(flags, p, c + 1, j) == Hits(flags, p, q, j) + if c % |flags| == j then 1 else 0
  {
    var c := Chosen(flags, q);
    SomeInRound(flags, q, j);
    FindFirst(flags, q, q + |flags|);
    EmptyStretch(flags, q, c, j);
    Joins(flags, p, q, c, j);
    Joins(flags, p, c, c + 1, j);
    OneHit(flags, c, j);
  }

  lemma OneHit(flags: seq<bool>, c: nat, j: nat)
    requires flags != [] && Good(flags, c)
    ensures Total(flags, c, c + 1) == 1 && Hits(flags, c, c + 1, j) == if c % |flags| == j then 1 else 0
  {
    assert Total(flags, c, c) == 0 && Hits(flags, c, c, j) == 0;
  }

  /** Fairness: with v usable threads, any k * v consecutive calls return each of them exactly k times. */
  lemma RoundRobinIsFair(flags: seq<bool>, p: nat, k: nat, j: nat)
    requires flags != [] && j < |flags| && flags[j]
    ensures Times(Returned(flags, p, k * Usable(flags)), j) == k
  {
    LapsMultiply(k, Usable(flags));
    var m := k * Usable(flags);
    var q, end := After(flags, p, m), p + Laps(k, |flags|);
    CallsAdvance(flags, p, m, j);
    CallsPass(flags, p, m, j);
    Rounds(flags, p, k, j);
    SameTotal(flags, p, q, end, j);
  }

  /** Two stretches with as many usable positions, the first ending on one, hit each thread as often. */
  lemma SameTotal(flags: seq<bool>, p: nat, q: nat, end: nat, j: nat)
    requires flags != [] && p <= q && p <= end && (q > p ==> Good(flags, q - 1))
    requires Total(flags, p, q) == Total(flags, p, end)
    ensures Hits(flags, p, q, j) == Hits(flags, p, end, j)
  {
    if q <= end {
      Joins(flags, p, q, end, j);
      NoneNoHits(flags, q, end, j);
    } else {
      Joins(flags, p, end, q, j);
      NoneNoHits(flags, end, q, j);
    }
  }

  // ---------------------------------------------------------------- the pool

  class IOThread {
    var valid: bool
  }

  class ThreadPool {
    const pool: seq<IOThread?>
    var index: nat
    /** The position on the unrolled circle. */
    ghost var position: nat

    ghost predicate Valid()
      reads this
    {
      pool != [] && index == position % |pool|
    }

    ghost function Flags(): (f: seq<bool>)
      reads pool
      ensures |f| == |pool| && forall i :: 0 <= i < |f| ==> f[i] == (pool[i] != null && pool[i].valid)
    {
      seq(|pool|, i requires 0 <= i < |pool| reads pool => pool[i] != null && pool[i].valid)
    }

    constructor (pool: seq<IOThread?>)
      requires pool != []
      ensures Valid() && this.pool == pool && position == 0
    {
      this.pool, index, position := pool, 0, 0;
    }

    predicate CanUse(i: nat)
      requires i < |pool|
      reads pool
    {
      pool[i] != null && pool[i].valid
    }

    /** The search: from the index round to the index. */
    method Search() returns (found: bool, i: nat, ghost q: nat)
      requires Valid()
      ensures position <= q <= position + |pool| && i == q % |pool|
      ensures found <==> q < position + |pool|
      ensures found ==> Good(Flags(), q)
      ensures forall r :: position <= r < q ==> !Good(Flags(), r)
    {
      q, i := position, index;
      if CanUse(index) {
        return true, i, q;
      }
      NextRemainder1(q, |pool|);
      q, i := q + 1, (index + 1) % |pool|;
      BackAtStart(position, q, |pool|);
      while i != index
        invariant position < q <= position + |pool| && i == q % |pool|
        invariant i != index <==> q < position + |pool|
        invariant forall r :: position <= r < q ==> !Good(Flags(), r)
        decreases position + |pool| - q
      {
        if CanUse(i) {
          return true, i, q;
        }
        NextRemainder1(q, |pool|);
        q, i := q + 1, (i + 1) % |pool|;
        BackAtStart(position, q, |pool|);
      }
      return false, i, q;
    }

    /** The first usable thread at or cyclically after the index; the index moves just past it.  Null
        stands for the exit when no thread can be used. */
    method GetIOThread() returns (t: IOThread?)
      requires Valid()
      modifies this
      ensures Valid() && (t == null <==> true !in Flags())
      ensures t != null ==> position == Chosen(Flags(), old(position)) + 1 && t == pool[(position - 1) % |pool|] && t.valid
      ensures t == null ==> position == old(position)
    {
      var found, i;
      ghost var q;
      found, i, q := Search();
      FoundIsChosen(Flags(), position, q);
      if found {
        NextRemainder1(q, |pool|);
        index := (i + 1) % |pool|;
        position := q + 1;
        return pool[i];
      }
      return null;
    }
  }

  /** The end of a search that stops at the first usable position, or after a round. */
  lemma FoundIsChosen(flags: seq<bool>, p: nat, q: nat)
    requires flags != [] && p <= q <= p + |flags|
    requires (q < p + |flags| ==> Good(flags, q)) && forall r :: p <= r < q ==> !Good(flags, r)
    ensures Chosen(flags, p) == q
    ensures q < p + |flags| <==> true in flags
  {
    FindFirst(flags, p, p + |flags|);
    if true in flags {
      var j :| 0 <= j < |flags| && flags[j];
      SomeInRound(flags, p, j);
    }
  }

  lemma NextRemainder1(p: nat, n: nat)
    requires n > 0
    ensures (p + 1) % n == (p % n + 1) % n
  {
    if n > 1 {
      NextRemainder(p, n);
    }
  }

  /** Within a round the start is met again only at its end. */
  lemma BackAtStart(p: nat, q: nat, n: nat)
    requires n > 0 && p < q <= p + n
    ensures q % n == p % n <==> q == p + n
  {
    if n > 1 {
      SameRemainder(p, q, n);
    }
  }
}
