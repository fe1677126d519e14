/**
 * Node and arc consistency of the solver's domains, stated on values:
 * what `enforce_node_consistency`, `revise` and `ac3` establish.
 */
module Consistency {
  import opened Grid

  /** The candidate words left for each slot. */
  type Domains = map<Variable, set<string>>

  /** Every word left for a slot has the slot's length. */
  ghost predicate NodeConsistent(d: Domains) {
    forall v :: v in d ==> forall w :: w in d[v] ==> |w| == v.length
  }

  /** No slot gains a word and no slot is added or dropped. */
  ghost predicate Shrunk(d': Domains, d: Domains) {
    d'.Keys == d.Keys && forall v :: v in d ==> d'[v] <= d[v]
  }

  /** The domains after the unary (length) constraint has been applied to each slot. */
  function LengthFiltered(d: Domains): (r: Domains)
    ensures Shrunk(r, d) && NodeConsistent(r)
    ensures forall v, w :: v in d && w in d[v] && |w| == v.length ==> w in r[v]
  {
    map v | v in d :: set w | w in d[v] && |w| == v.length
  }

  /** The letters found at position `j` of the words in `d`. */
  function Letters(d: set<string>, j: nat): (ls: set<char>)
    ensures forall u :: u in d && j < |u| ==> u[j] in ls
    ensures forall ch :: ch in ls ==> exists u :: u in d && j < |u| && u[j] == ch
  {
    set u | u in d && j < |u| :: u[j]
  }

  /**
   * The words of `dx` whose letter `i` is letter `j` of some word of `dy`:
   * what is left of `dx` once it is made arc consistent with `dy` across
   * the overlap `(i, j)`.
   */
  function Revised(dx: set<string>, dy: set<string>, i: nat, j: nat): (r: set<string>)
    ensures r <= dx
    ensures forall w :: w in r ==> exists u :: u in dy && i < |w| && j < |u| && w[i] == u[j]
    ensures forall w, u :: w in dx && u in dy && i < |w| && j < |u| && w[i] == u[j] ==> w in r
  {
    set w | w in dx && i < |w| && w[i] in Letters(dy, j)
  }

  /** Some word of `dy` agrees with the word `w` of `x` where `x` and `y` cross. */
  ghost predicate Supported(c: Crossword, x: Variable, w: string, y: Variable, dy: set<string>) {
    exists u :: u in dy && c.Agree(x, w, y, u)
  }

  /** Every word left for `x` has a partner in `y` that agrees with it where the two slots cross. */
  ghost predicate ArcConsistent(c: Crossword, d: Domains, x: Variable, y: Variable) {
    (x, y) in c.overlaps && x in d && y in d ==>
      forall w :: w in d[x] ==> Supported(c, x, w, y, d[y])
  }

  /** Every arc of the grid is consistent. */
  ghost predicate AllArcsConsistent(c: Crossword, d: Domains) {
    forall p :: p in c.overlaps ==> ArcConsistent(c, d, p.0, p.1)
  }

  /** The domains after `revise(x, y)`. */
  function AfterRevise(c: Crossword, d: Domains, x: Variable, y: Variable): Domains
    requires x in d && y in d
  {
    if (x, y) in c.overlaps then
      d[x := Revised(d[x], d[y], c.overlaps[(x, y)].0, c.overlaps[(x, y)].1)]
    else d
  }

  /** All (slot, word) pairs still possible: the set that every strict shrink makes smaller. */
  ghost function DomainPairs(d: Domains): set<(Variable, string)> {
    set v, w | v in d && w in d[v] :: (v, w)
  }

  /** Removing at least one word from one domain removes a pair. */
  lemma ShrinkRemovesPair(d: Domains, x: Variable, s: set<string>)
    requires x in d && s <= d[x] && s != d[x]
    ensures DomainPairs(d[x := s]) < DomainPairs(d)
  {
    var w :| w in d[x] && w !in s;
    assert (x, w) in DomainPairs(d);
    assert (x, w) !in DomainPairs(d[x := s]);
  }

  /** After `revise(x, y)` the arc `(x, y)` is consistent, and the domains only shrank. */
  lemma ReviseMakesArcConsistent(c: Crossword, d: Domains, x: Variable, y: Variable)
    requires NodeConsistent(d) && x in d && y in d && x != y
    ensures Shrunk(AfterRevise(c, d, x, y), d) && NodeConsistent(AfterRevise(c, d, x, y))
    ensures ArcConsistent(c, AfterRevise(c, d, x, y), x, y)
  {
    var d' := AfterRevise(c, d, x, y);
    if (x, y) in c.overlaps {
      var (i, j) := c.overlaps[(x, y)];
      forall w | w in d'[x] ensures Supported(c, x, w, y, d'[y]) {
        var u :| u in d[y] && i < |w| && j < |u| && w[i] == u[j];
        assert c.Agree(x, w, y, u);
      }
    }
  }

  /** `revise(x, y)` keeps every consistent arc that does not end in `x` consistent. */
  lemma ReviseKeepsOtherArcs(c: Crossword, d: Domains, x: Variable, y: Variable, a: Variable, b: Variable)
    requires x in d && y in d && x != y && b != x
    requires ArcConsistent(c, d, a, b)
    ensures ArcConsistent(c, AfterRevise(c, d, x, y), a, b)
  {
    var d' := AfterRevise(c, d, x, y);
    if (a, b) in c.overlaps && a in d && b in d {
      forall w | w in d'[a] ensures Supported(c, a, w, b, d'[b]) {
        var u :| u in d[b] && c.Agree(a, w, b, u);
        assert u in d'[b];
      }
    }
  }

  /**
   * `revise(x, y)` keeps the reverse arc `(y, x)` consistent: a word of `x`
   * that supports a word of `y` is itself supported by that word, so it is
   * never removed.
   */
  lemma {:induction false} ReviseKeepsReverseArc(c: Crossword, d: Domains, x: Variable, y: Variable)
    requires c.Valid() && x in d && y in d && x != y
    requires ArcConsistent(c, d, y, x)
    ensures ArcConsistent(c, AfterRevise(c, d, x, y), y, x)
  {
    var d' := AfterRevise(c, d, x, y);
    if (x, y) in c.overlaps {
      var (i, j) := c.overlaps[(x, y)];
      assert (y, x) in c.overlaps && c.overlaps[(y, x)] == (j, i);
      forall u | u in d'[y] ensures Supported(c, y, u, x, d'[x]) {
        var w :| w in d[x] && c.Agree(y, u, x, w);
        assert w in d'[x];
      }
    }
  }

  /** On an arc that is already consistent, `revise` removes nothing. */
  lemma {:induction false} ReviseOnConsistentArc(c: Crossword, d: Domains, x: Variable, y: Variable)
    requires x in d && y in d && x != y
    requires ArcConsistent(c, d, x, y)
    ensures AfterRevise(c, d, x, y) == d
  {
    if (x, y) in c.overlaps {
      var (i, j) := c.overlaps[(x, y)];
      forall w | w in d[x] ensures w in Revised(d[x], d[y], i, j) {
        var u :| u in d[y] && c.Agree(x, w, y, u);
      }
      assert Revised(d[x], d[y], i, j) == d[x];
    }
  }

  /**
   * The AC-3 loop invariant: an arc that is not pending and was either
   * enqueued at the start (`w0`) or consistent at the start (in `d0`) is
   * consistent now.
   */
  ghost predicate ArcsSettled(c: Crossword, d0: Domains, w0: set<Arc>, d: Domains, pending: set<Arc>) {
    forall p {:trigger ArcConsistent(c, d, p.0, p.1)} :: p in c.overlaps && p !in pending && (p in w0 || ArcConsistent(c, d0, p.0, p.1)) ==>
      ArcConsistent(c, d, p.0, p.1)
  }

  /** The arcs `(z, x)` AC-3 re-enqueues when the domain of `x` shrank while revising `(x, y)`. */
  function Requeued(c: Crossword, x: Variable, y: Variable): set<Arc> {
    set z | z in c.Neighbors(x) && z != y :: (z, x)
  }

  /**
   * After `revise(x, y)` an arc is consistent if it is `(x, y)` itself, or
   * if it was consistent before and is not one of the arcs AC-3 re-enqueues.
   */
  lemma {:induction false} ReviseKeepsArc(c: Crossword, d: Domains, x: Variable, y: Variable, p: Arc)
    requires c.Valid() && NodeConsistent(d) && x in d && y in d && x != y && p in c.overlaps
    requires p == (x, y) || ArcConsistent(c, d, p.0, p.1)
    requires AfterRevise(c, d, x, y)[x] != d[x] ==> p !in Requeued(c, x, y)
    ensures ArcConsistent(c, AfterRevise(c, d, x, y), p.0, p.1)
  {
    if p == (x, y) {
      ReviseMakesArcConsistent(c, d, x, y);
    } else if AfterRevise(c, d, x, y)[x] == d[x] {
      assert AfterRevise(c, d, x, y) == d;
    } else if p.1 != x {
      ReviseKeepsOtherArcs(c, d, x, y, p.0, p.1);
    } else {
      // an arc into `x` that was not re-enqueued comes from `y`
      assert (p.1, p.0) in c.overlaps;
      assert p.0 in c.Neighbors(x);
      assert p.0 != y ==> p in Requeued(c, x, y);
      ReviseKeepsReverseArc(c, d, x, y);
    }
  }

  /**
   * One AC-3 step keeps the invariant: after popping `(x, y)` and revising
   * it, the arcs that may have lost consistency are exactly the re-enqueued
   * ones.
   */
  lemma {:induction false} AC3StepKeepsArcsSettled(
    c: Crossword, d0: Domains, w0: set<Arc>, d: Domains, worklist: set<Arc>, x: Variable, y: Variable,
    pending: set<Arc>)
    requires c.Valid() && NodeConsistent(d) && x in d && y in d && x != y
    requires (x, y) in worklist && ArcsSettled(c, d0, w0, d, worklist)
    requires worklist - {(x, y)} <= pending
    requires AfterRevise(c, d, x, y)[x] != d[x] ==> Requeued(c, x, y) <= pending
    ensures ArcsSettled(c, d0, w0, AfterRevise(c, d, x, y), pending)
  {
    var d' := AfterRevise(c, d, x, y);
    forall p | p in c.overlaps && p !in pending && (p in w0 || ArcConsistent(c, d0, p.0, p.1))
      ensures ArcConsistent(c, d', p.0, p.1)
    {
      AC3StepKeepsArc(c, d0, w0, d, worklist, x, y, pending, p);
    }
  }

  /** The step of `AC3StepKeepsArcsSettled` for one arc. */
  lemma AC3StepKeepsArc(
    c: Crossword, d0: Domains, w0: set<Arc>, d: Domains, worklist: set<Arc>, x: Variable, y: Variable,
    pending: set<Arc>, p: Arc)
    requires c.Valid() && NodeConsistent(d) && x in d && y in d && x != y
    requires (x, y) in worklist && ArcsSettled(c, d0, w0, d, worklist)
    requires worklist - {(x, y)} <= pending
    requires AfterRevise(c, d, x, y)[x] != d[x] ==> Requeued(c, x, y) <= pending
    requires p in c.overlaps && p !in pending && (p in w0 || ArcConsistent(c, d0, p.0, p.1))
    ensures ArcConsistent(c, AfterRevise(c, d, x, y), p.0, p.1)
  {
    if p != (x, y) {
      assert p !in worklist;
    }
    ReviseKeepsArc(c, d, x, y, p);
  }

  /** No domain is empty now that was not empty at the start. */
  ghost predicate NoNewEmpty(d: Domains, d0: Domains) {
    forall v :: v in d && d[v] == {} ==> v in d0 && d0[v] == {}
  }

  /** Every pending arc joins two different slots of the grid. */
  ghost predicate WellFormedArcs(c: Crossword, arcs: set<Arc>) {
    forall p :: p in arcs ==> p.0 in c.variables && p.1 in c.variables && p.0 != p.1
  }

  /** What holds of the domains and the worklist at the head of the AC-3 loop. */
  ghost predicate AC3Invariant(c: Crossword, d0: Domains, w0: set<Arc>, d: Domains, worklist: set<Arc>) {
    && c.Valid() && d.Keys == c.variables && NodeConsistent(d) && Shrunk(d, d0)
    && NoNewEmpty(d, d0)
    && WellFormedArcs(c, worklist)
    && ArcsSettled(c, d0, w0, d, worklist)
    && (AllArcsConsistent(c, d0) ==> d == d0)
  }

  /** A turn of the AC-3 loop whose revision removed nothing keeps the invariant. */
  lemma {:induction false} AC3StepUnchanged(
    c: Crossword, d0: Domains, w0: set<Arc>, d: Domains, worklist: set<Arc>, x: Variable, y: Variable)
    requires (x, y) in worklist && AC3Invariant(c, d0, w0, d, worklist)
    requires AfterRevise(c, d, x, y)[x] == d[x]
    ensures AfterRevise(c, d, x, y) == d
    ensures AC3Invariant(c, d0, w0, d, worklist - {(x, y)})
  {
    assert AfterRevise(c, d, x, y) == d;
    AC3StepKeepsArcsSettled(c, d0, w0, d, worklist, x, y, worklist - {(x, y)});
  }

  /** A revision that removes words strictly shrinks the domains, which were not empty at the start. */
  lemma {:induction false} AC3StepShrinks(
    c: Crossword, d0: Domains, w0: set<Arc>, d: Domains, worklist: set<Arc>, x: Variable, y: Variable)
    requires (x, y) in worklist && AC3Invariant(c, d0, w0, d, worklist)
    requires AfterRevise(c, d, x, y)[x] != d[x]
    ensures d0[x] != {}
    ensures DomainPairs(AfterRevise(c, d, x, y)) < DomainPairs(d)
    ensures Shrunk(AfterRevise(c, d, x, y), d0) && NodeConsistent(AfterRevise(c, d, x, y))
    ensures AfterRevise(c, d, x, y).Keys == c.variables
  {
    var d' := AfterRevise(c, d, x, y);
    assert Shrunk(d', d) && NodeConsistent(d') by {
      ReviseMakesArcConsistent(c, d, x, y);
    }
    assert Shrunk(d', d0) by {
      forall v | v in d0 ensures d'[v] <= d0[v] {
        assert d'[v] <= d[v];
      }
    }
    ShrinkRemovesPair(d, x, d'[x]);
  }

  /** After a shrinking revision the re-enqueued worklist is well formed and the settled arcs stay settled. */
  lemma {:induction false} AC3StepRequeuesArcs(
    c: Crossword, d0: Domains, w0: set<Arc>, d: Domains, worklist: set<Arc>, x: Variable, y: Variable)
    requires (x, y) in worklist && AC3Invariant(c, d0, w0, d, worklist)
    requires AfterRevise(c, d, x, y)[x] != d[x]
    ensures WellFormedArcs(c, (worklist - {(x, y)}) + Requeued(c, x, y))
    ensures ArcsSettled(c, d0, w0, AfterRevise(c, d, x, y), (worklist - {(x, y)}) + Requeued(c, x, y))
  {
    AC3StepKeepsArcsSettled(c, d0, w0, d, worklist, x, y, (worklist - {(x, y)}) + Requeued(c, x, y));
    forall p | p in (worklist - {(x, y)}) + Requeued(c, x, y)
      ensures p.0 in c.variables && p.1 in c.variables && p.0 != p.1
    {
      if p !in worklist {
        var z :| z in c.Neighbors(x) && z != y && p == (z, x);
      }
    }
  }

  /** After a shrinking revision that leaves `x` non-empty, no domain has newly become empty. */
  lemma {:induction false} AC3StepRequeuesDomains(
    c: Crossword, d0: Domains, w0: set<Arc>, d: Domains, worklist: set<Arc>, x: Variable, y: Variable)
    requires (x, y) in worklist && AC3Invariant(c, d0, w0, d, worklist)
    requires AfterRevise(c, d, x, y)[x] != d[x] && AfterRevise(c, d, x, y)[x] != {}
    ensures NoNewEmpty(AfterRevise(c, d, x, y), d0)
    ensures AllArcsConsistent(c, d0) ==> AfterRevise(c, d, x, y) == d0
  {
    var d' := AfterRevise(c, d, x, y);
    if AllArcsConsistent(c, d0) {
      ReviseOnConsistentArc(c, d, x, y);
    }
    forall v | v in d' && d'[v] == {} ensures v in d0 && d0[v] == {} {
      assert v != x && d'[v] == d[v];
    }
  }

  /**
   * A turn of the AC-3 loop whose revision removed words but left the
   * domain non-empty keeps the invariant once the arcs into `x` are
   * re-enqueued.
   */
  lemma {:induction false} AC3StepRequeues(
    c: Crossword, d0: Domains, w0: set<Arc>, d: Domains, worklist: set<Arc>, x: Variable, y: Variable)
    requires (x, y) in worklist && AC3Invariant(c, d0, w0, d, worklist)
    requires AfterRevise(c, d, x, y)[x] != d[x] && AfterRevise(c, d, x, y)[x] != {}
    ensures AC3Invariant(c, d0, w0, AfterRevise(c, d, x, y), (worklist - {(x, y)}) + Requeued(c, x, y))
  {
    AC3StepShrinks(c, d0, w0, d, worklist, x, y);
    AC3StepRequeuesArcs(c, d0, w0, d, worklist, x, y);
    AC3StepRequeuesDomains(c, d0, w0, d, worklist, x, y);
  }
}
