/**
 * The part of LINQ-to-Entities the controller relies on, over a table given as
 * a map from primary key to row: a query is a list of `.Where` clauses that all
 * must hold, and `OrderBy`/`OrderByDescending` sorts its rows by Timestamp.
 * SQL leaves the order of rows with equal timestamps open, so the contracts
 * here say only what every such order satisfies.
 */
module Queryable {
  import opened Wrappers
  import opened Models

  /** One `.Where(o => ...)` clause. */
  datatype Condition =
    | CityIs(city: string)      // o.City == city
    | AtOrAfter(bound: int)     // o.Timestamp >= bound
    | Before(bound: int)        // o.Timestamp < bound
    | AtOrBefore(bound: int)    // o.Timestamp <= bound

  predicate Holds(c: Condition, o: Observation) {
    match c
    case CityIs(s) => o.city == Some(s)
    case AtOrAfter(b) => o.timestamp >= b
    case Before(b) => o.timestamp < b
    case AtOrBefore(b) => o.timestamp <= b
  }

  /** Chained `.Where` clauses: a row is kept when every clause holds; no clause keeps all rows. */
  predicate Matches(q: seq<Condition>, o: Observation) {
    forall c :: c in q ==> Holds(c, o)
  }

  /** Chaining two lists of clauses keeps the rows that pass both. */
  lemma MatchesConcat(a: seq<Condition>, b: seq<Condition>, o: Observation)
    ensures Matches(a + b, o) <==> Matches(a, o) && Matches(b, o)
  {
    assert forall c :: c in a + b <==> c in a || c in b;
  }

  /** A single clause keeps exactly the rows it holds of. */
  lemma MatchesSingle(c: Condition, o: Observation)
    ensures Matches([c], o) <==> Holds(c, o)
  {
    assert c in [c];
  }

  /** The keys of the rows that a query keeps. */
  function Matching(t: map<int, Observation>, q: seq<Condition>): set<int> {
    set k | k in t && Matches(q, t[k])
  }

  /** Every row is stored under its own Id, as a primary key guarantees. */
  predicate KeyedById(t: map<int, Observation>) {
    forall k :: k in t ==> t[k].id == k
  }

  /** No two elements share an Id. */
  predicate UniqueIds(xs: seq<Observation>) {
    forall i, j :: 0 <= i < j < |xs| ==> xs[i].id != xs[j].id
  }

  /** A set with no member is empty (set extensionality, stated for the solver). */
  lemma NoMemberMeansEmpty(s: set<int>)
    ensures (forall x :: x !in s) ==> s == {}
  {
    if forall x :: x !in s {
      assert forall x :: x in s <==> x in {};
    }
  }

  lemma {:induction false} HasLeast(s: set<int>)
    requires s != {}
    ensures exists m :: m in s && forall j :: j in s ==> m <= j
  {
    NoMemberMeansEmpty(s);
    var x :| x in s;
    if s != {x} {
      HasLeast(s - {x});
      var m :| m in s - {x} && forall j :: j in s - {x} ==> m <= j;
      var least := if x < m then x else m;
      forall j | j in s ensures least <= j {
        if j != x { assert j in s - {x}; }
      }
    }
  }

  /** The smallest key: the order a table scan visits rows in. */
  function MinKey(s: set<int>): (m: int)
    requires s != {}
    ensures m in s && forall j :: j in s ==> m <= j
  {
    HasLeast(s);
    var m :| m in s && forall j :: j in s ==> m <= j;
    m
  }

  /** Taking row `k` out of the table splits what a query keeps into row `k` and the rest. */
  lemma SplitOff(t: map<int, Observation>, q: seq<Condition>, k: int)
    requires k in t
    ensures |t - {k}| == |t| - 1
    ensures Matching(t, q) == Matching(t - {k}, q) + (if Matches(q, t[k]) then {k} else {})
    ensures k !in Matching(t - {k}, q)
  {
    assert forall j :: j in (t - {k}).Keys <==> j in t.Keys - {k};
    assert (t - {k}).Keys == t.Keys - {k};
    assert forall j :: j in Matching(t, q) <==> j in Matching(t - {k}, q) + (if Matches(q, t[k]) then {k} else {});
  }

  /** Putting `x` in front of a list that has no element with its Id keeps Ids unique. */
  lemma ConsUnique(x: Observation, xs: seq<Observation>)
    requires UniqueIds(xs) && forall y :: y in xs ==> y.id != x.id
    ensures UniqueIds([x] + xs)
  {
    forall i, j | 0 <= i < j < |[x] + xs| ensures ([x] + xs)[i].id != ([x] + xs)[j].id {
      if i == 0 { assert ([x] + xs)[j] == xs[j - 1]; assert xs[j - 1] in xs; }
      else { assert ([x] + xs)[i] == xs[i - 1] && ([x] + xs)[j] == xs[j - 1]; }
    }
  }

  /** The rows kept from `t - {k}` number one fewer than those kept from `t` exactly when row `k` is kept. */
  lemma CountStep(t: map<int, Observation>, q: seq<Condition>, k: int)
    requires k in t
    ensures |Matching(t, q)| == |Matching(t - {k}, q)| + (if Matches(q, t[k]) then 1 else 0)
  {
    SplitOff(t, q, k);
  }

  /** Everything kept from `t - {k}` was kept from `t`, under the same key. */
  lemma SoundStep(t: map<int, Observation>, q: seq<Condition>, k: int, rest: seq<Observation>)
    requires k in t
    requires forall o :: o in rest ==> o.id in t - {k} && (t - {k})[o.id] == o && Matches(q, o)
    ensures forall o :: o in rest ==> o.id in t && t[o.id] == o && o.id != k
  {
  }

  /** A kept row of `t` other than `k` is a kept row of `t - {k}`. */
  lemma CompleteStep(t: map<int, Observation>, q: seq<Condition>, k: int, rest: seq<Observation>)
    requires k in t
    requires forall j :: j in t - {k} && Matches(q, (t - {k})[j]) ==> (t - {k})[j] in rest
    ensures forall j :: j in t && j != k && Matches(q, t[j]) ==> t[j] in rest
  {
    forall j | j in t && j != k && Matches(q, t[j]) ensures t[j] in rest {
      assert j in t - {k} && (t - {k})[j] == t[j];
    }
  }

  /** A full scan filtered by `q`: every kept row, each once, and nothing else. */
  function Where(t: map<int, Observation>, q: seq<Condition>): (r: seq<Observation>)
    requires KeyedById(t)
    ensures |r| == |Matching(t, q)|
    ensures forall o :: o in r ==> o.id in t && t[o.id] == o && Matches(q, o)
    ensures forall k :: k in t && Matches(q, t[k]) ==> t[k] in r
    ensures UniqueIds(r)
    decreases |t|
  {
    if |t| == 0 then
      NoMemberMeansEmpty(t.Keys);
      []
    else
      var k := MinKey(t.Keys);
      SplitOff(t, q, k);
      var rest := Where(t - {k}, q);
      CountStep(t, q, k);
      SoundStep(t, q, k, rest);
      CompleteStep(t, q, k, rest);
      if Matches(q, t[k]) then
        ConsUnique(t[k], rest);
        [t[k]] + rest
      else
        rest
  }

  /** The directions of `OrderBy` and `OrderByDescending` on Timestamp. */
  datatype Direction = Ascending | Descending

  predicate InOrder(a: Observation, b: Observation, dir: Direction) {
    match dir
    case Ascending => a.timestamp <= b.timestamp
    case Descending => a.timestamp >= b.timestamp
  }

  predicate SortedBy(xs: seq<Observation>, dir: Direction) {
    forall i, j :: 0 <= i < j < |xs| ==> InOrder(xs[i], xs[j], dir)
  }

  /** An element that comes before every element of a sorted list can head it. */
  lemma SortedCons(x: Observation, xs: seq<Observation>, dir: Direction)
    requires SortedBy(xs, dir) && forall y :: y in xs ==> InOrder(x, y, dir)
    ensures SortedBy([x] + xs, dir)
  {
    forall i, j | 0 <= i < j < |[x] + xs| ensures InOrder(([x] + xs)[i], ([x] + xs)[j], dir) {
      if i == 0 { assert ([x] + xs)[j] == xs[j - 1]; assert xs[j - 1] in xs; }
      else { assert ([x] + xs)[i] == xs[i - 1] && ([x] + xs)[j] == xs[j - 1]; }
    }
  }

  /** `x` can head a sorted list when it comes before the list's first element. */
  lemma InsertAtFront(x: Observation, xs: seq<Observation>, dir: Direction)
    requires SortedBy(xs, dir) && (xs == [] || InOrder(x, xs[0], dir))
    ensures SortedBy([x] + xs, dir)
    ensures UniqueIds(xs) && (forall y :: y in xs ==> y.id != x.id) ==> UniqueIds([x] + xs)
  {
    forall y | y in xs ensures InOrder(x, y, dir) {
      var j :| 0 <= j < |xs| && xs[j] == y;
      if j > 0 { assert InOrder(xs[0], xs[j], dir); }
    }
    SortedCons(x, xs, dir);
    if UniqueIds(xs) && (forall y :: y in xs ==> y.id != x.id) { ConsUnique(x, xs); }
  }

  /** When `x` goes after `xs[0]`, `xs[0]` can head the result of inserting `x` into the tail. */
  lemma InsertAfterHead(x: Observation, xs: seq<Observation>, rest: seq<Observation>, dir: Direction)
    requires SortedBy(xs, dir) && xs != [] && !InOrder(x, xs[0], dir)
    requires SortedBy(rest, dir) && forall y :: y in rest <==> y == x || y in xs[1..]
    requires UniqueIds(xs) && (forall y :: y in xs ==> y.id != x.id) ==> UniqueIds(rest)
    ensures SortedBy([xs[0]] + rest, dir)
    ensures UniqueIds(xs) && (forall y :: y in xs ==> y.id != x.id) ==> UniqueIds([xs[0]] + rest)
  {
    forall y | y in rest ensures InOrder(xs[0], y, dir) {
      if y != x {
        var j :| 0 <= j < |xs[1..]| && xs[1..][j] == y;
        assert InOrder(xs[0], xs[j + 1], dir);
      }
    }
    SortedCons(xs[0], rest, dir);
    if UniqueIds(xs) && (forall y :: y in xs ==> y.id != x.id) {
      forall y | y in rest ensures y.id != xs[0].id {
        if y != x {
          var j :| 0 <= j < |xs[1..]| && xs[1..][j] == y;
          assert xs[0].id != xs[j + 1].id;
        }
      }
      ConsUnique(xs[0], rest);
    }
  }

  /** A non-empty list is its head followed by its tail, elements and multiplicities alike. */
  lemma HeadAndTail(xs: seq<Observation>)
    requires xs != []
    ensures multiset(xs) == multiset{xs[0]} + multiset(xs[1..])
    ensures forall y :: y in xs <==> y == xs[0] || y in xs[1..]
  {
    assert xs == [xs[0]] + xs[1..];
  }

  /** Puts `x` into its place in a sorted list. */
  function Insert(x: Observation, xs: seq<Observation>, dir: Direction): (r: seq<Observation>)
    requires SortedBy(xs, dir)
    ensures SortedBy(r, dir)
    ensures multiset(r) == multiset(xs) + multiset{x}
    ensures |r| == |xs| + 1
    ensures forall y :: y in r <==> y == x || y in xs
    ensures UniqueIds(xs) && (forall y :: y in xs ==> y.id != x.id) ==> UniqueIds(r)
  {
    if xs == [] || InOrder(x, xs[0], dir) then
      InsertAtFront(x, xs, dir);
      [x] + xs
    else
      HeadAndTail(xs);
      var rest := Insert(x, xs[1..], dir);
      InsertAfterHead(x, xs, rest, dir);
      [xs[0]] + rest
  }

  /** No element of the tail of a list with unique Ids shares the head's Id. */
  lemma HeadIdNotInTail(xs: seq<Observation>)
    requires xs != []
    ensures UniqueIds(xs) ==> forall y :: y in xs[1..] ==> y.id != xs[0].id
  {
    if UniqueIds(xs) {
      forall y | y in xs[1..] ensures y.id != xs[0].id {
        var j :| 0 <= j < |xs[1..]| && xs[1..][j] == y;
        assert xs[0].id != xs[j + 1].id;
      }
    }
  }

  /** Inserting the head into a permutation of the tail gives a permutation of the whole list. */
  lemma PermutationStep(xs: seq<Observation>, rest: seq<Observation>, r: seq<Observation>)
    requires xs != [] && multiset(rest) == multiset(xs[1..])
    requires multiset(r) == multiset(rest) + multiset{xs[0]}
    ensures multiset(r) == multiset(xs) && |r| == |xs|
    ensures forall y :: y in r <==> y in xs
  {
    HeadAndTail(xs);
    assert |r| == |multiset(r)| == |multiset(xs)| == |xs|;
    forall y ensures y in r <==> y in xs {
      assert y in r <==> y in multiset(r);
      assert y in xs <==> y in multiset(xs);
    }
  }

  /** Sorts a list by Timestamp in the given direction, keeping every element. */
  function OrderBy(xs: seq<Observation>, dir: Direction): (r: seq<Observation>)
    ensures SortedBy(r, dir)
    ensures multiset(r) == multiset(xs)
    ensures |r| == |xs|
    ensures forall y :: y in r <==> y in xs
    ensures UniqueIds(xs) ==> UniqueIds(r)
  {
    if xs == [] then []
    else
      HeadAndTail(xs);
      var rest := OrderBy(xs[1..], dir);
      HeadIdNotInTail(xs);
      var r := Insert(xs[0], rest, dir);
      PermutationStep(xs, rest, r);
      r
  }

  /** The head of a list sorted newest first is its newest element. */
  lemma HeadIsNewest(xs: seq<Observation>)
    requires SortedBy(xs, Descending) && xs != []
    ensures forall o :: o in xs ==> o.timestamp <= xs[0].timestamp
  {
    forall o | o in xs ensures o.timestamp <= xs[0].timestamp {
      var i :| 0 <= i < |xs| && xs[i] == o;
      if i > 0 { assert InOrder(xs[0], xs[i], Descending); }
    }
  }

  /** `q.OrderBy(...).ToListAsync()`: exactly the kept rows, each once, sorted. */
  function Query(t: map<int, Observation>, q: seq<Condition>, dir: Direction): (r: seq<Observation>)
    requires KeyedById(t)
    ensures SortedBy(r, dir)
    ensures |r| == |Matching(t, q)|
    ensures forall o :: o in r ==> o.id in t && t[o.id] == o && Matches(q, o)
    ensures forall k :: k in t && Matches(q, t[k]) ==> t[k] in r
    ensures UniqueIds(r)
  {
    var rows := Where(t, q);
    OrderBy(rows, dir)
  }
}
