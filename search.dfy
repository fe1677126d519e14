/**
 * What the backtracking search works with, stated on values: complete and
 * consistent assignments, the least-constraining-value rank and the
 * ordering by it, and the minimum-remaining-values choice.
 */
module Search {
  import opened Grid
  import opened Consistency

  /** The slots with a word so far and the word in each. */
  type Words = map<Variable, string>

  function Elements<T>(s: seq<T>): set<T> {
    set x | x in s
  }

  predicate NoDuplicates<T(==)>(s: seq<T>) {
    forall k, l :: 0 <= k < l < |s| ==> s[k] != s[l]
  }

  /** Appending adds one element to the set; the list stays free of repeats when the element is new. */
  lemma Append<T>(s: seq<T>, x: T)
    ensures Elements(s + [x]) == Elements(s) + {x}
    ensures NoDuplicates(s) && x !in Elements(s) ==> NoDuplicates(s + [x])
  {
    assert forall y :: y in s + [x] <==> y in s || y == x;
  }

  /** A list and the set built from it have the same size exactly when the list has no repeats. */
  lemma {:induction false} DistinctCardinality<T>(s: seq<T>)
    ensures |Elements(s)| <= |s|
    ensures |Elements(s)| == |s| <==> NoDuplicates(s)
  {
    if s != [] {
      DistinctCardinality(s[1..]);
      assert Elements(s) == {s[0]} + Elements(s[1..]);
      if s[0] in s[1..] {
        assert Elements(s) == Elements(s[1..]);
        var l :| 0 <= l < |s[1..]| && s[1..][l] == s[0];
        assert s[0] == s[l + 1];
      } else {
        assert |Elements(s)| == 1 + |Elements(s[1..])|;
        if NoDuplicates(s[1..]) {
          forall k, l | 0 <= k < l < |s| ensures s[k] != s[l] {
            if k > 0 { assert s[k] == s[1..][k - 1] && s[l] == s[1..][l - 1]; }
          }
        }
        if NoDuplicates(s) {
          forall k, l | 0 <= k < l < |s[1..]| ensures s[1..][k] != s[1..][l] {
            assert s[1..][k] == s[k + 1] && s[1..][l] == s[l + 1];
          }
        }
      }
    }
  }

  // ---- consistency of an assignment --------------------------------------

  /** Every assigned word has its slot's length. */
  ghost predicate LengthsMatch(a: Words) {
    forall v :: v in a ==> |a[v]| == v.length
  }

  /** Every two assigned slots that cross hold the same letter in the shared cell. */
  ghost predicate OverlapsAgree(c: Crossword, a: Words) {
    forall x, y :: x in a && y in a ==> c.Agree(x, a[x], y, a[y])
  }

  /** No word is used twice. */
  ghost predicate AllDistinct(a: Words) {
    forall x, y :: x in a && y in a && x != y ==> a[x] != a[y]
  }

  ghost predicate ConsistentAssignment(c: Crossword, a: Words) {
    LengthsMatch(a) && OverlapsAgree(c, a) && AllDistinct(a)
  }

  /**
   * The words of an assignment listed in any order that visits each slot
   * once have no repeats exactly when no word is used twice.
   */
  lemma {:induction false} DistinctValues(a: Words, order: seq<Variable>, values: seq<string>)
    requires NoDuplicates(order) && Elements(order) == a.Keys
    requires |values| == |order| && forall k :: 0 <= k < |order| ==> values[k] == a[order[k]]
    ensures NoDuplicates(values) <==> AllDistinct(a)
  {
    if NoDuplicates(values) {
      forall x, y | x in a && y in a && x != y ensures a[x] != a[y] {
        assert x in Elements(order) && y in Elements(order);
        var k :| 0 <= k < |order| && order[k] == x;
        var l :| 0 <= l < |order| && order[l] == y;
        if k < l { assert values[k] != values[l]; } else { assert values[l] != values[k]; }
      }
    }
    if AllDistinct(a) {
      forall k, l | 0 <= k < l < |values| ensures values[k] != values[l] {
        assert order[k] in Elements(order) && order[l] in Elements(order);
      }
    }
  }

  /**
   * `r` keeps every word of `a` and gives every other slot of `r` a word
   * from that slot's domain.
   */
  ghost predicate ExtendsWithin(d: Domains, r: Words, a: Words) {
    && (forall v :: v in a ==> v in r && r[v] == a[v])
    && (forall v :: v in r && v !in a ==> v in d && r[v] in d[v])
  }

  /** Extending `a` plus one word from the slot's domain extends `a`. */
  lemma ExtendsStep(d: Domains, r: Words, a: Words, v: Variable, w: string)
    requires v !in a && v in d && w in d[v]
    requires ExtendsWithin(d, r, a[v := w])
    ensures ExtendsWithin(d, r, a)
  {
    forall x | x in r && x !in a ensures x in d && r[x] in d[x] {
      if x == v {
        assert r[x] == a[v := w][v];
      }
    }
  }

  /** Taking back a word just given to a slot that had none restores the assignment. */
  lemma UndoAssign(a: Words, v: Variable, w: string)
    requires v !in a
    ensures a[v := w] - {v} == a
  {
  }

  /**
   * The search's completeness test compares sizes only; for an assignment
   * over the grid's slots that means every slot has a word.
   */
  lemma CompleteIffAllAssigned(c: Crossword, a: Words)
    requires a.Keys <= c.variables
    ensures |a| == |c.variables| <==> a.Keys == c.variables
    ensures |a| == |c.variables| <==> Unassigned(c, a) == {}
  {
    var rest := c.variables - a.Keys;
    assert c.variables == a.Keys + rest && a.Keys * rest == {};
    assert |a| == |a.Keys|;
    if a.Keys != c.variables {
      var v :| v in rest;
    }
  }

  // ---- least constraining value -------------------------------------------

  /**
   * The (slot, word) pairs that giving `w` to `v` rules out: a word `u`
   * left for an unassigned slot `n` among `ns` that disagrees with `w`
   * where `v` and `n` cross.
   */
  ghost function RuledOut(c: Crossword, d: Domains, v: Variable, w: string, a: Words, ns: set<Variable>)
    : set<(Variable, string)>
  {
    set n, u | n in ns && n !in a && n in d && u in d[n] && !c.Agree(v, w, n, u) :: (n, u)
  }

  /** How many candidate words of `v`'s unassigned neighbours the word `w` rules out. */
  ghost function ConflictCount(c: Crossword, d: Domains, v: Variable, w: string, a: Words): nat {
    |RuledOut(c, d, v, w, a, c.Neighbors(v))|
  }

  /** The words left for the slot `n` that disagree with `w` in `v`, paired with `n`. */
  ghost function RuledOutAt(c: Crossword, d: Domains, v: Variable, w: string, n: Variable): set<(Variable, string)>
    requires n in d
  {
    set u | u in d[n] && !c.Agree(v, w, n, u) :: (n, u)
  }

  /**
   * Counting the ruled-out pairs neighbour by neighbour adds up to the
   * whole count: moving `n` from the neighbours still to visit (`rest`) to
   * the visited ones adds the pairs of `n` when `n` is unassigned.
   */
  lemma RuledOutStep(c: Crossword, d: Domains, v: Variable, w: string, a: Words, all: set<Variable>, rest: set<Variable>, n: Variable)
    requires n in rest && rest <= all
    ensures n in d && n !in a ==>
      |RuledOut(c, d, v, w, a, all - (rest - {n}))| == |RuledOut(c, d, v, w, a, all - rest)| + |RuledOutAt(c, d, v, w, n)|
    ensures n !in d || n in a ==> |RuledOut(c, d, v, w, a, all - (rest - {n}))| == |RuledOut(c, d, v, w, a, all - rest)|
  {
    var ns := all - rest;
    assert all - (rest - {n}) == ns + {n};
    if n in d && n !in a {
      assert RuledOut(c, d, v, w, a, ns + {n}) == RuledOut(c, d, v, w, a, ns) + RuledOutAt(c, d, v, w, n);
      assert RuledOut(c, d, v, w, a, ns) * RuledOutAt(c, d, v, w, n) == {};
    } else {
      assert RuledOut(c, d, v, w, a, ns + {n}) == RuledOut(c, d, v, w, a, ns);
    }
  }

  /** The rank `sorted` looks up for a word (every word sorted has one). */
  function RankOf(rank: map<string, nat>, x: string): nat {
    if x in rank then rank[x] else 0
  }

  ghost predicate SortedBy(s: seq<string>, rank: map<string, nat>) {
    forall k, l :: 0 <= k < l < |s| ==> RankOf(rank, s[k]) <= RankOf(rank, s[l])
  }

  /** Inserts `w` before the first word of `s` whose rank is at least `w`'s. */
  function Insert(w: string, s: seq<string>, rank: map<string, nat>): (r: seq<string>)
    ensures multiset(r) == multiset(s) + multiset{w}
  {
    if s == [] then [w]
    else if RankOf(rank, w) <= RankOf(rank, s[0]) then [w] + s
    else
      assert s == [s[0]] + s[1..];
      [s[0]] + Insert(w, s[1..], rank)
  }

  /** Every word after the head of a sorted list ranks at least as high as the head. */
  lemma HeadIsLowest(s: seq<string>, rank: map<string, nat>, x: string)
    requires s != [] && SortedBy(s, rank) && x in multiset(s[1..])
    ensures RankOf(rank, s[0]) <= RankOf(rank, x)
  {
    assert x in s[1..];
    var l :| 0 <= l < |s[1..]| && s[1..][l] == x;
    assert s[l + 1] == x;
  }

  /** The tail of a sorted list is sorted. */
  lemma TailSorted(s: seq<string>, rank: map<string, nat>)
    requires s != [] && SortedBy(s, rank)
    ensures SortedBy(s[1..], rank)
  {
    forall k, l | 0 <= k < l < |s[1..]| ensures RankOf(rank, s[1..][k]) <= RankOf(rank, s[1..][l]) {
      assert s[1..][k] == s[k + 1] && s[1..][l] == s[l + 1];
    }
  }

  /** A word ranked no higher than any word of a sorted list can go in front of it. */
  lemma ConsSorted(x: string, t: seq<string>, rank: map<string, nat>)
    requires SortedBy(t, rank)
    requires forall l :: 0 <= l < |t| ==> RankOf(rank, x) <= RankOf(rank, t[l])
    ensures SortedBy([x] + t, rank)
  {
    forall k, l | 0 <= k < l < |[x] + t| ensures RankOf(rank, ([x] + t)[k]) <= RankOf(rank, ([x] + t)[l]) {
      assert ([x] + t)[l] == t[l - 1];
      if k > 0 {
        assert ([x] + t)[k] == t[k - 1];
      }
    }
  }

  /** Inserting into a sorted list keeps it sorted. */
  lemma {:induction false} InsertSorted(w: string, s: seq<string>, rank: map<string, nat>)
    requires SortedBy(s, rank)
    ensures SortedBy(Insert(w, s, rank), rank)
  {
    if s == [] {
      assert Insert(w, s, rank) == [w];
    } else if RankOf(rank, w) <= RankOf(rank, s[0]) {
      forall l | 0 <= l < |s| ensures RankOf(rank, w) <= RankOf(rank, s[l]) {
        if l > 0 {
          assert RankOf(rank, s[0]) <= RankOf(rank, s[l]);
        }
      }
      ConsSorted(w, s, rank);
    } else {
      var t := Insert(w, s[1..], rank);
      TailSorted(s, rank);
      InsertSorted(w, s[1..], rank);
      forall l | 0 <= l < |t| ensures RankOf(rank, s[0]) <= RankOf(rank, t[l]) {
        assert t[l] in multiset(t);
        if t[l] != w {
          HeadIsLowest(s, rank, t[l]);
        }
      }
      ConsSorted(s[0], t, rank);
    }
  }

  /** `sorted(s, key=rank)`: insertion sort, stable like Python's. */
  function SortByRank(s: seq<string>, rank: map<string, nat>): (r: seq<string>)
    ensures multiset(r) == multiset(s)
  {
    if s == [] then []
    else
      assert s == [s[0]] + s[1..];
      Insert(s[0], SortByRank(s[1..], rank), rank)
  }

  /** The result of the sort is in non-decreasing rank. */
  lemma {:induction false} SortByRankSorted(s: seq<string>, rank: map<string, nat>)
    ensures SortedBy(SortByRank(s, rank), rank)
  {
    if s != [] {
      SortByRankSorted(s[1..], rank);
      InsertSorted(s[0], SortByRank(s[1..], rank), rank);
    }
  }

  /** Sorting a list without repeats gives a list without repeats, with the same elements. */
  lemma SortKeepsElements(s: seq<string>, rank: map<string, nat>)
    requires NoDuplicates(s)
    ensures Elements(SortByRank(s, rank)) == Elements(s)
    ensures NoDuplicates(SortByRank(s, rank))
  {
    var r := SortByRank(s, rank);
    assert |r| == |multiset(r)| == |multiset(s)| == |s|;
    forall x ensures x in Elements(r) <==> x in Elements(s) {
      assert x in r <==> x in multiset(r);
      assert x in s <==> x in multiset(s);
    }
    DistinctCardinality(s);
    DistinctCardinality(r);
  }

  /**
   * Sorting the words of a rank table that holds each word's conflict
   * count lists every word once, fewest conflicts first.
   */
  lemma SortByConflicts(c: Crossword, d: Domains, v: Variable, a: Words, keys: seq<string>, rank: map<string, nat>)
    requires Elements(keys) == rank.Keys && NoDuplicates(keys)
    requires forall w :: w in rank ==> rank[w] == ConflictCount(c, d, v, w, a)
    ensures Elements(SortByRank(keys, rank)) == rank.Keys && NoDuplicates(SortByRank(keys, rank))
    ensures forall k, l :: 0 <= k < l < |SortByRank(keys, rank)| ==>
              ConflictCount(c, d, v, SortByRank(keys, rank)[k], a) <= ConflictCount(c, d, v, SortByRank(keys, rank)[l], a)
  {
    var r := SortByRank(keys, rank);
    SortKeepsElements(keys, rank);
    SortByRankSorted(keys, rank);
    forall k, l | 0 <= k < l < |r|
      ensures ConflictCount(c, d, v, r[k], a) <= ConflictCount(c, d, v, r[l], a)
    {
      assert r[k] in Elements(r) && r[l] in Elements(r);
      assert RankOf(rank, r[k]) <= RankOf(rank, r[l]);
    }
  }

  // ---- minimum remaining values --------------------------------------------

  /** The slots without a word. */
  function Unassigned(c: Crossword, a: Words): set<Variable> {
    c.variables - a.Keys
  }

  /** `v` is the only unassigned slot with the smallest domain. */
  ghost predicate UniqueMinimumDomain(c: Crossword, d: Domains, a: Words, v: Variable)
    requires c.variables <= d.Keys
  {
    v in Unassigned(c, a) && forall u :: u in Unassigned(c, a) && u != v ==> |d[v]| < |d[u]|
  }

  /** No unassigned slot crosses more slots than `v`. */
  ghost predicate HasMaximumDegree(c: Crossword, a: Words, v: Variable) {
    forall u :: u in Unassigned(c, a) ==> |c.Neighbors(u)| <= |c.Neighbors(v)|
  }

  /**
   * Filtering the unassigned slots down to those of the smallest domain
   * size leaves exactly one slot when, and only when, that slot's domain
   * is strictly the smallest.
   */
  lemma {:induction false} MinimumChoice(c: Crossword, d: Domains, a: Words, slots: seq<Variable>, m: nat, minVars: seq<Variable>)
    requires c.variables <= d.Keys && forall v :: v in slots ==> v in d
    requires Elements(slots) == Unassigned(c, a)
    requires exists k :: 0 <= k < |slots| && m == |d[slots[k]]|
    requires forall k :: 0 <= k < |slots| ==> m <= |d[slots[k]]|
    requires Elements(minVars) == set v | v in slots && |d[v]| == m
    requires NoDuplicates(minVars)
    ensures minVars != []
    ensures |minVars| == 1 ==> UniqueMinimumDomain(c, d, a, minVars[0])
    ensures forall v :: UniqueMinimumDomain(c, d, a, v) ==> |minVars| == 1 && minVars[0] == v
  {
    var k :| 0 <= k < |slots| && m == |d[slots[k]]|;
    assert slots[k] in Elements(minVars);
    DistinctCardinality(minVars);
    if |minVars| == 1 {
      assert Elements(minVars) == {minVars[0]};
      assert minVars[0] in Elements(minVars);
      forall u | u in Unassigned(c, a) && u != minVars[0]
        ensures |d[minVars[0]]| < |d[u]|
      {
        assert u in Elements(slots);
        var ku :| 0 <= ku < |slots| && slots[ku] == u;
        assert u !in Elements(minVars);
      }
    }
    forall v | UniqueMinimumDomain(c, d, a, v) ensures |minVars| == 1 && minVars[0] == v {
      assert v in Elements(slots);
      var kv :| 0 <= kv < |slots| && slots[kv] == v;
      assert slots[k] in Unassigned(c, a);
      assert |d[v]| <= |d[slots[k]]|;
      assert Elements(minVars) == {v};
      assert minVars[0] in Elements(minVars);
    }
  }

  /** The first slot of those with the highest degree has a degree no unassigned slot exceeds. */
  lemma {:induction false} MaximumChoice(c: Crossword, a: Words, slots: seq<Variable>, m: nat, maxVars: seq<Variable>)
    requires Elements(slots) == Unassigned(c, a)
    requires exists k :: 0 <= k < |slots| && m == |c.Neighbors(slots[k])|
    requires forall k :: 0 <= k < |slots| ==> |c.Neighbors(slots[k])| <= m
    requires Elements(maxVars) == set v | v in slots && |c.Neighbors(v)| == m
    ensures maxVars != []
    ensures maxVars[0] in Unassigned(c, a) && HasMaximumDegree(c, a, maxVars[0])
  {
    var k :| 0 <= k < |slots| && m == |c.Neighbors(slots[k])|;
    assert slots[k] in Elements(maxVars);
    assert maxVars[0] in Elements(maxVars);
    forall u | u in Unassigned(c, a) ensures |c.Neighbors(u)| <= |c.Neighbors(maxVars[0])| {
      assert u in Elements(slots);
      var ku :| 0 <= ku < |slots| && slots[ku] == u;
    }
  }
}
