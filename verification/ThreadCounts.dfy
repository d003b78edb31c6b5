/** Counting the threads of a protocol that are at certain program points; thread t is at at[t]. */
module ThreadCounts {

  ghost function One(b: bool): int { if b then 1 else 0 }

  /** How many threads are at a point that satisfies p. */
  ghost function Count<P>(at: seq<P>, p: P -> bool): int {
    if at == [] then 0 else One(p(at[0])) + Count(at[1..], p)
  }

  lemma {:induction false} CountRange<P>(at: seq<P>, p: P -> bool)
    ensures 0 <= Count(at, p) <= |at|
  {
    if at != [] {
      CountRange(at[1..], p);
    }
  }

  /** Moving one thread changes a count by at most one. */
  lemma {:induction false} CountMove<P>(at: seq<P>, t: nat, x: P, p: P -> bool)
    requires t < |at|
    ensures Count(at[t := x], p) == Count(at, p) - One(p(at[t])) + One(p(x))
  {
    if t == 0 {
      assert at[t := x][1..] == at[1..];
    } else {
      assert at[t := x][1..] == at[1..][t - 1 := x];
      CountMove(at[1..], t - 1, x, p);
    }
  }

  lemma CountMoves<P>(at: seq<P>, t: nat, x: P)
    requires t < |at|
    ensures forall p: P -> bool {:trigger Count(at[t := x], p)} ::
              Count(at[t := x], p) == Count(at, p) - One(p(at[t])) + One(p(x))
  {
    forall p: P -> bool ensures Count(at[t := x], p) == Count(at, p) - One(p(at[t])) + One(p(x)) {
      CountMove(at, t, x, p);
    }
  }

  /** A thread at such a point counts, and two of them count twice. */
  lemma {:induction false} CountOne<P>(at: seq<P>, p: P -> bool, t: nat)
    requires t < |at| && p(at[t])
    ensures Count(at, p) >= 1
  {
    CountRange(at[1..], p);
    if t > 0 {
      CountOne(at[1..], p, t - 1);
    }
  }

  lemma {:induction false} CountTwo<P>(at: seq<P>, p: P -> bool, t: nat, u: nat)
    requires t < u < |at| && p(at[t]) && p(at[u])
    ensures Count(at, p) >= 2
  {
    if t == 0 {
      CountOne(at[1..], p, u - 1);
    } else {
      CountTwo(at[1..], p, t - 1, u - 1);
    }
  }

  /** At most one thread at such points means they are the same thread. */
  lemma CountUnique<P>(at: seq<P>, p: P -> bool, t: nat, u: nat)
    requires t < |at| && u < |at| && p(at[t]) && p(at[u]) && Count(at, p) <= 1
    ensures t == u
  {
    if t < u {
      CountTwo(at, p, t, u);
    } else if u < t {
      CountTwo(at, p, u, t);
    }
  }

  /** A positive count has a witness. */
  lemma {:induction false} CountWitness<P>(at: seq<P>, p: P -> bool) returns (t: nat)
    requires Count(at, p) > 0
    ensures t < |at| && p(at[t])
  {
    if p(at[0]) {
      t := 0;
    } else {
      var u := CountWitness(at[1..], p);
      t := u + 1;
    }
  }

  lemma {:induction false} CountNone<P>(at: seq<P>, p: P -> bool)
    requires forall t :: 0 <= t < |at| ==> !p(at[t])
    ensures Count(at, p) == 0
  {
    if at != [] {
      CountNone(at[1..], p);
    }
  }

  /** A stronger condition counts no more. */
  lemma {:induction false} CountLe<P>(at: seq<P>, p: P -> bool, q: P -> bool)
    requires forall t :: 0 <= t < |at| && p(at[t]) ==> q(at[t])
    ensures Count(at, p) <= Count(at, q)
  {
    if at != [] {
      CountLe(at[1..], p, q);
    }
  }

  /** What the threads carry, added up. */
  ghost function Sum<P>(at: seq<P>, g: P -> multiset<int>): multiset<int> {
    if at == [] then multiset{} else g(at[0]) + Sum(at[1..], g)
  }

  lemma {:induction false} SumMove<P>(at: seq<P>, t: nat, x: P, g: P -> multiset<int>)
    requires t < |at|
    ensures Sum(at[t := x], g) + g(at[t]) == Sum(at, g) + g(x)
  {
    var at' := at[t := x];
    if t == 0 {
      assert at'[1..] == at[1..];
      Swap(g(x), Sum(at[1..], g), g(at[0]));
    } else {
      assert at'[1..] == at[1..][t - 1 := x];
      SumMove(at[1..], t - 1, x, g);
      Regroup(g(at[0]), Sum(at'[1..], g), g(at[t]), Sum(at[1..], g), g(x));
    }
  }

  lemma Swap(a: multiset<int>, b: multiset<int>, c: multiset<int>)
    ensures a + b + c == c + b + a
  {
  }

  lemma Regroup(a: multiset<int>, b: multiset<int>, c: multiset<int>, d: multiset<int>, e: multiset<int>)
    requires b + c == d + e
    ensures a + b + c == a + d + e
  {
    assert a + b + c == a + (b + c);
    assert a + d + e == a + (d + e);
  }

  /** A sum that moves from one account to another. */
  lemma Transfer(i: multiset<int>, s: multiset<int>, g: multiset<int>, i': multiset<int>, s': multiset<int>,
                 c: multiset<int>, c': multiset<int>)
    requires s' + c == s + c' && i + g + c == i' + c'
    ensures i + s + g == i' + s'
  {
    forall x ensures (i + s + g)[x] == (i' + s')[x] {
      assert (s' + c)[x] == (s + c')[x] && (i + g + c)[x] == (i' + c')[x];
    }
  }

  lemma {:induction false} SumNone<P>(at: seq<P>, g: P -> multiset<int>)
    requires forall t :: 0 <= t < |at| ==> g(at[t]) == multiset{}
    ensures Sum(at, g) == multiset{}
  {
    if at != [] {
      SumNone(at[1..], g);
    }
  }
}
