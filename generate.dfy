/**
 * The crossword generator: a constraint solver that fills every slot of a
 * grid with a word from the word list so that crossing slots agree and no
 * word is used twice. It narrows each slot's domain by node consistency
 * and AC-3, then runs a backtracking search ordered by the
 * minimum-remaining-values, degree and least-constraining-value heuristics.
 */
module Generate {
  import opened Wrappers
  import opened Grid
  import opened Consistency
  import opened Search

  /** The words of `words` whose length is not `length` (the inner loop of `enforce_node_consistency`). */
  method WrongLength(words: set<string>, length: nat) returns (toRemove: set<string>)
    ensures toRemove <= words
    ensures forall w :: w in words ==> (w in toRemove <==> |w| != length)
  {
    toRemove := {};
    var rest := words;
    while rest != {}
      invariant rest <= words && toRemove <= words - rest
      invariant forall w :: w in words - rest ==> (w in toRemove <==> |w| != length)
      decreases rest
    {
      var w :| w in rest;
      if |w| != length {
        toRemove := toRemove + {w};
      }
      rest := rest - {w};
    }
  }

  /** The letters at position `j` of the words of `words` (the first loop of `revise`). */
  method LettersAt(words: set<string>, j: nat) returns (letters: set<char>)
    requires forall u :: u in words ==> j < |u|
    ensures letters == Letters(words, j)
  {
    letters := {};
    var rest := words;
    while rest != {}
      invariant rest <= words
      invariant letters == Letters(words - rest, j)
      decreases rest
    {
      var u :| u in rest;
      letters := letters + {u[j]};
      rest := rest - {u};
    }
  }

  /** The words of `words` whose letter `i` is not in `letters` (the second loop of `revise`). */
  method Unsupported(words: set<string>, i: nat, letters: set<char>) returns (toRemove: set<string>)
    requires forall w :: w in words ==> i < |w|
    ensures toRemove <= words
    ensures forall w :: w in words ==> (w in toRemove <==> w[i] !in letters)
  {
    toRemove := {};
    var rest := words;
    while rest != {}
      invariant rest <= words && toRemove <= words - rest
      invariant forall w :: w in words - rest ==> (w in toRemove <==> w[i] !in letters)
      decreases rest
    {
      var w :| w in rest;
      if w[i] !in letters {
        toRemove := toRemove + {w};
      }
      rest := rest - {w};
    }
  }

  /** The Python dictionary that `backtrack` fills in and unwinds in place. */
  class Assignment {
    var entries: Words

    constructor ()
      ensures entries == map[]
    {
      entries := map[];
    }
  }

  class CrosswordCreator {
    const crossword: Crossword
    var domains: Domains

    /** The grid is well formed and every slot has a domain. */
    ghost predicate Valid()
      reads this
    {
      crossword.Valid() && domains.Keys == crossword.variables
    }

    /** Every slot starts with the whole word list. */
    constructor (crossword: Crossword)
      requires crossword.Valid()
      ensures Valid() && this.crossword == crossword
      ensures forall v :: v in crossword.variables ==> domains[v] == crossword.words
    {
      this.crossword := crossword;
      domains := map v | v in crossword.variables :: crossword.words;
    }

    /** Drops from each domain the words whose length differs from the slot's. */
    method EnforceNodeConsistency()
      requires Valid()
      modifies this
      ensures Valid() && NodeConsistent(domains)
      ensures domains == LengthFiltered(old(domains))
    {
      ghost var d0 := domains;
      var todo := domains.Keys;
      while todo != {}
        invariant todo <= d0.Keys && domains.Keys == d0.Keys
        invariant forall v :: v in todo ==> domains[v] == d0[v]
        invariant forall v :: v in d0 && v !in todo ==> domains[v] == LengthFiltered(d0)[v]
        decreases todo
      {
        var v :| v in todo;
        var toRemove := WrongLength(domains[v], v.length);
        domains := domains[v := domains[v] - toRemove];
        todo := todo - {v};
      }
    }

    /**
     * Makes `x` arc consistent with `y`: removes the words of `x` that no
     * word of `y` agrees with at their overlap, and tells whether any was
     * removed. Slots that do not cross are left alone.
     */
    method Revise(x: Variable, y: Variable) returns (revised: bool)
      requires Valid() && NodeConsistent(domains)
      requires x in crossword.variables && y in crossword.variables && x != y
      modifies this
      ensures Valid() && NodeConsistent(domains)
      ensures domains == AfterRevise(crossword, old(domains), x, y)
      ensures (x, y) !in crossword.overlaps ==> !revised
      ensures revised <==> domains[x] != old(domains)[x]
      ensures !revised ==> domains == old(domains)
    {
      if (x, y) in crossword.overlaps {
        var (i, j) := crossword.overlaps[(x, y)];
        var referenceLetters := LettersAt(domains[y], j);
        var toRemove := Unsupported(domains[x], i, referenceLetters);
        var newDomain := domains[x] - toRemove;
        assert newDomain == Revised(domains[x], domains[y], i, j);
        if newDomain != domains[x] {
          domains := domains[x := newDomain];
          return true;
        } else {
          return false;
        }
      }
      return false;
    }

    /** The initial worklist: every ordered pair of crossing slots. */
    method AllArcs() returns (arcs: set<Arc>)
      requires Valid()
      ensures forall x, y :: (x, y) in arcs <==> x in crossword.variables && y in crossword.Neighbors(x)
      ensures arcs == crossword.overlaps.Keys
    {
      arcs := {};
      var todo := crossword.variables;
      while todo != {}
        invariant todo <= crossword.variables
        invariant forall x, y :: (x, y) in arcs <==>
                    x in crossword.variables - todo && y in crossword.Neighbors(x)
        decreases todo
      {
        var v :| v in todo;
        arcs := arcs + set n | n in crossword.Neighbors(v) :: (v, n);
        todo := todo - {v};
      }
      forall p | p in crossword.overlaps ensures p in arcs {
        assert p.1 in crossword.Neighbors(p.0);
      }
      forall p | p in arcs ensures p in crossword.overlaps {
        assert p.1 in crossword.Neighbors(p.0);
      }
    }

    /**
     * AC-3. Starting from `arcs` (every arc when absent), revises arcs until
     * none is left, re-enqueueing `(z, x)` for every other neighbour `z` of
     * a slot `x` whose domain shrank. Returns false as soon as a revision
     * empties a domain.
     */
    method AC3(arcs: Option<set<Arc>>) returns (ok: bool)
      requires Valid() && NodeConsistent(domains)
      requires arcs.Some? ==> forall p :: p in arcs.value ==>
                 p.0 in crossword.variables && p.1 in crossword.variables && p.0 != p.1
      modifies this
      ensures Valid() && NodeConsistent(domains) && Shrunk(domains, old(domains))
      ensures !ok ==> exists v :: v in domains && domains[v] == {} && old(domains)[v] != {}
      ensures ok ==> forall v :: v in domains && domains[v] == {} ==> old(domains)[v] == {}
      ensures ok ==> ArcsSettled(crossword, old(domains), if arcs.None? then crossword.overlaps.Keys else arcs.value, domains, {})
      ensures AllArcsConsistent(crossword, old(domains)) ==> ok && domains == old(domains)
    {
      ghost var d0 := domains;
      var worklist: set<Arc>;
      if arcs.None? {
        worklist := AllArcs();
      } else {
        worklist := arcs.value;
      }
      ghost var w0 := worklist;
      assert w0 == if arcs.None? then crossword.overlaps.Keys else arcs.value;
      assert AC3Invariant(crossword, d0, w0, domains, worklist) by {
        assert WellFormedArcs(crossword, worklist);
        assert ArcsSettled(crossword, d0, w0, domains, worklist);
      }
      while worklist != {}
        invariant Valid() && AC3Invariant(crossword, d0, w0, domains, worklist)
        decreases DomainPairs(domains), worklist
      {
        var arc :| arc in worklist;
        ghost var all := worklist;
        worklist := worklist - {arc};
        var (x, y) := arc;
        ghost var before := domains;
        var revised := Revise(x, y);
        if revised {
          AC3StepShrinks(crossword, d0, w0, before, all, x, y);
          if |domains[x]| == 0 {
            assert domains[x] == {} && d0[x] != {};
            return false;
          }
          AC3StepRequeues(crossword, d0, w0, before, all, x, y);
          worklist := worklist + Requeued(crossword, x, y);
        } else {
          AC3StepUnchanged(crossword, d0, w0, before, all, x, y);
          assert domains == before;
        }
      }
      return true;
    }

    /**
     * The search's completeness test: as many words as slots. For an
     * assignment over the grid's slots that means every slot has a word.
     */
    function AssignmentComplete(a: Words): (complete: bool)
      ensures a.Keys <= crossword.variables ==> (complete <==> a.Keys == crossword.variables)
      ensures a.Keys <= crossword.variables ==> (complete <==> Unassigned(crossword, a) == {})
    {
      if a.Keys <= crossword.variables then
        CompleteIffAllAssigned(crossword, a);
        |a| == |crossword.variables|
      else
        |a| == |crossword.variables|
    }

    /**
     * Every assigned word has its slot's length, crossing words agree and
     * no word is used twice. Each crossing is checked from the slot visited
     * first; the words are collected in a list whose set must be as large.
     */
    method Consistent(a: Words) returns (ok: bool)
      requires crossword.Valid()
      requires forall v :: v in a ==> v.length <= |a[v]|
      ensures ok <==> ConsistentAssignment(crossword, a)
    {
      var uniqueness: seq<string> := [];
      ghost var order: seq<Variable> := [];
      var rest := a.Keys;
      while rest != {}
        invariant rest <= a.Keys
        invariant NoDuplicates(order) && Elements(order) == a.Keys - rest
        invariant forall k :: 0 <= k < |order| ==> order[k] in a
        invariant |uniqueness| == |order| && forall k :: 0 <= k < |order| ==> uniqueness[k] == a[order[k]]
        invariant forall v :: v in a.Keys - rest ==> |a[v]| == v.length
        invariant forall v, n :: v in a.Keys - rest && n in a ==> crossword.Agree(v, a[v], n, a[n])
        decreases rest
      {
        var key :| key in rest;
        var value := a[key];
        uniqueness := uniqueness + [value];
        order := order + [key];
        if key.length != |value| {
          return false;
        }
        var neighbors := crossword.Neighbors(key);
        while neighbors != {}
          invariant neighbors <= crossword.Neighbors(key)
          invariant forall n :: n in crossword.Neighbors(key) - neighbors && n in a ==>
                      crossword.Agree(key, a[key], n, a[n])
          decreases neighbors
        {
          var neighbor :| neighbor in neighbors;
          if neighbor in a {
            var (i, j) := crossword.overlaps[(key, neighbor)];
            if a[key][i] != a[neighbor][j] {
              assert !crossword.Agree(key, a[key], neighbor, a[neighbor]);
              return false;
            }
          }
          neighbors := neighbors - {neighbor};
        }
        rest := rest - {key};
      }
      DistinctCardinality(uniqueness);
      DistinctValues(a, order, uniqueness);
      return |uniqueness| == |Elements(uniqueness)|;
    }

    /**
     * The number of pairs (n, u) that `w` in `v` rules out for one
     * unassigned neighbour `n`: the words `u` of `n` that disagree with `w`
     * in the shared cell (the innermost loop of `order_domain_values`).
     */
    method CountConflicts(v: Variable, w: string, n: Variable) returns (count: nat)
      requires Valid() && NodeConsistent(domains)
      requires v in crossword.variables && |w| == v.length && n in crossword.Neighbors(v)
      ensures count == |RuledOutAt(crossword, domains, v, w, n)|
    {
      var (i, j) := crossword.overlaps[(v, n)];
      count := 0;
      var rest := domains[n];
      while rest != {}
        invariant rest <= domains[n]
        invariant count == |set u | u in domains[n] - rest && !crossword.Agree(v, w, n, u) :: (n, u)|
        decreases rest
      {
        var u :| u in rest;
        ghost var counted := set u | u in domains[n] - rest && !crossword.Agree(v, w, n, u) :: (n, u);
        if w[i] != u[j] {
          assert (set u' | u' in domains[n] - (rest - {u}) && !crossword.Agree(v, w, n, u') :: (n, u'))
              == counted + {(n, u)};
          count := count + 1;
        } else {
          assert (set u' | u' in domains[n] - (rest - {u}) && !crossword.Agree(v, w, n, u') :: (n, u'))
              == counted;
        }
        rest := rest - {u};
      }
      assert domains[n] - rest == domains[n];
    }

    /**
     * One turn of the loop over `v`'s words: counts the words that `w`
     * rules out neighbour by neighbour, writing the running count into the
     * rank table after each neighbour, so the table gains `w` only when `v`
     * has a neighbour.
     */
    method RankWord(v: Variable, w: string, a: Words, wordRank: map<string, nat>, keys: seq<string>)
      returns (wordRank': map<string, nat>, keys': seq<string>)
      requires Valid() && NodeConsistent(domains) && v in crossword.variables && w in domains[v]
      ensures crossword.Neighbors(v) == {} ==> wordRank' == wordRank && keys' == keys
      ensures crossword.Neighbors(v) != {} ==>
                wordRank' == wordRank[w := ConflictCount(crossword, domains, v, w, a)]
                && keys' == if w in wordRank then keys else keys + [w]
    {
      wordRank', keys' := wordRank, keys;
      var count := 0;
      var neighbors := crossword.Neighbors(v);
      ghost var recorded := false;
      while neighbors != {}
        invariant neighbors <= crossword.Neighbors(v)
        invariant count == |RuledOut(crossword, domains, v, w, a, crossword.Neighbors(v) - neighbors)|
        invariant !recorded ==> neighbors == crossword.Neighbors(v) && wordRank' == wordRank && keys' == keys
        invariant recorded ==> crossword.Neighbors(v) != {}
        invariant recorded ==> wordRank' == wordRank[w := count]
        invariant recorded ==> keys' == if w in wordRank then keys else keys + [w]
        decreases neighbors
      {
        var neighbor :| neighbor in neighbors;
        RuledOutStep(crossword, domains, v, w, a, crossword.Neighbors(v), neighbors, neighbor);
        if neighbor !in a {
          var more := CountConflicts(v, w, neighbor);
          count := count + more;
        }
        // rewriting `w`'s entry after each neighbour: the table is the entry table updated at `w`
        keys' := if w in wordRank then keys else keys + [w];
        wordRank' := wordRank[w := count];
        recorded := true;
        neighbors := neighbors - {neighbor};
      }
      assert crossword.Neighbors(v) - neighbors == crossword.Neighbors(v);
    }

    /**
     * The rank table `order_domain_values` builds: each word of `v`'s domain mapped to
     * the number of words it rules out, and the words in the order they
     * entered the table. The table stays empty when `v` crosses no slot.
     */
    method RankWords(v: Variable, a: Words) returns (wordRank: map<string, nat>, keys: seq<string>)
      requires Valid() && NodeConsistent(domains) && v in crossword.variables
      ensures wordRank.Keys == if crossword.Neighbors(v) == {} then {} else domains[v]
      ensures Elements(keys) == wordRank.Keys && NoDuplicates(keys)
      ensures forall w :: w in wordRank ==> wordRank[w] == ConflictCount(crossword, domains, v, w, a)
    {
      wordRank, keys := map[], [];
      var words := domains[v];
      while words != {}
        invariant words <= domains[v]
        invariant wordRank.Keys == if crossword.Neighbors(v) == {} then {} else domains[v] - words
        invariant Elements(keys) == wordRank.Keys && NoDuplicates(keys)
        invariant forall w :: w in wordRank ==> wordRank[w] == ConflictCount(crossword, domains, v, w, a)
        decreases words
      {
        var w :| w in words;
        Append(keys, w);
        wordRank, keys := RankWord(v, w, a, wordRank, keys);
        words := words - {w};
      }
      assert domains[v] - words == domains[v];
    }

    /**
     * Least constraining value: the words of `v`'s domain in non-decreasing
     * order of how many words they rule out for the unassigned neighbours.
     * A slot that crosses no other slot gets an empty ordering, because the
     * rank of a word is recorded inside the loop over the neighbours.
     */
    method OrderDomainValues(v: Variable, a: Words) returns (ordered: seq<string>)
      requires Valid() && NodeConsistent(domains) && v in crossword.variables
      ensures crossword.Neighbors(v) == {} ==> ordered == []
      ensures crossword.Neighbors(v) != {} ==> Elements(ordered) == domains[v] && NoDuplicates(ordered)
      ensures forall k, l :: 0 <= k < l < |ordered| ==>
                ConflictCount(crossword, domains, v, ordered[k], a) <= ConflictCount(crossword, domains, v, ordered[l], a)
    {
      var wordRank, keys := RankWords(v, a);
      ordered := SortByRank(keys, wordRank);
      SortByConflicts(crossword, domains, v, a, keys, wordRank);
    }

    /** The slots without a word, in the order the domains are visited. */
    method UnassignedSlots(a: Words) returns (slots: seq<Variable>)
      requires Valid()
      ensures Elements(slots) == Unassigned(crossword, a) && NoDuplicates(slots)
    {
      slots := [];
      var rest := domains.Keys;
      while rest != {}
        invariant rest <= domains.Keys
        invariant Elements(slots) == (domains.Keys - rest) - a.Keys && NoDuplicates(slots)
        decreases rest
      {
        var v :| v in rest;
        if v !in a {
          Append(slots, v);
          slots := slots + [v];
        }
        rest := rest - {v};
      }
    }

    /** The smallest domain size among `slots` (`min` of the sizes). */
    method MinDomainSize(slots: seq<Variable>) returns (m: nat)
      requires Valid() && slots != [] && forall k :: 0 <= k < |slots| ==> slots[k] in crossword.variables
      ensures exists k :: 0 <= k < |slots| && m == |domains[slots[k]]|
      ensures forall k :: 0 <= k < |slots| ==> m <= |domains[slots[k]]|
    {
      m := |domains[slots[0]]|;
      ghost var at := 0;
      for k := 1 to |slots|
        invariant 0 <= at < k && m == |domains[slots[at]]|
        invariant forall l :: 0 <= l < k ==> m <= |domains[slots[l]]|
      {
        if |domains[slots[k]]| < m {
          m, at := |domains[slots[k]]|, k;
        }
      }
    }

    /** The largest number of crossing slots among `slots` (`max` of the degrees). */
    method MaxDegree(slots: seq<Variable>) returns (m: nat)
      requires slots != []
      ensures exists k :: 0 <= k < |slots| && m == |crossword.Neighbors(slots[k])|
      ensures forall k :: 0 <= k < |slots| ==> |crossword.Neighbors(slots[k])| <= m
    {
      m := |crossword.Neighbors(slots[0])|;
      ghost var at := 0;
      for k := 1 to |slots|
        invariant 0 <= at < k && m == |crossword.Neighbors(slots[at])|
        invariant forall l :: 0 <= l < k ==> |crossword.Neighbors(slots[l])| <= m
      {
        if |crossword.Neighbors(slots[k])| > m {
          m, at := |crossword.Neighbors(slots[k])|, k;
        }
      }
    }

    /** The slots of `slots` whose domain has `size` words, in order. */
    method WithDomainSize(slots: seq<Variable>, size: nat) returns (r: seq<Variable>)
      requires Valid() && forall k :: 0 <= k < |slots| ==> slots[k] in crossword.variables
      requires NoDuplicates(slots)
      ensures Elements(r) == set v | v in slots && |domains[v]| == size
      ensures NoDuplicates(r)
    {
      r := [];
      for k := 0 to |slots|
        invariant Elements(r) == set v | v in slots[..k] && |domains[v]| == size
        invariant NoDuplicates(r)
      {
        assert slots[..k + 1] == slots[..k] + [slots[k]];
        if |domains[slots[k]]| == size {
          assert slots[k] !in slots[..k];
          Append(r, slots[k]);
          r := r + [slots[k]];
        }
      }
      assert slots[..|slots|] == slots;
    }

    /** The slots of `slots` that cross `degree` slots, in order. */
    method WithDegree(slots: seq<Variable>, degree: nat) returns (r: seq<Variable>)
      ensures Elements(r) == set v | v in slots && |crossword.Neighbors(v)| == degree
    {
      r := [];
      for k := 0 to |slots|
        invariant Elements(r) == set v | v in slots[..k] && |crossword.Neighbors(v)| == degree
      {
        assert slots[..k + 1] == slots[..k] + [slots[k]];
        if |crossword.Neighbors(slots[k])| == degree {
          Append(r, slots[k]);
          r := r + [slots[k]];
        }
      }
      assert slots[..|slots|] == slots;
    }

    /**
     * Minimum remaining values, then degree: the unassigned slot with the
     * fewest words left when only one has that few; otherwise the first
     * unassigned slot of highest degree, whether or not its domain is
     * among the smallest. Nothing when every slot has a word.
     */
    method SelectUnassignedVariable(a: Words) returns (r: Option<Variable>)
      requires Valid()
      ensures r.None? <==> Unassigned(crossword, a) == {}
      ensures r.Some? ==> r.value in Unassigned(crossword, a)
      ensures forall v :: UniqueMinimumDomain(crossword, domains, a, v) ==> r == Some(v)
      ensures r.Some? && !UniqueMinimumDomain(crossword, domains, a, r.value) ==> HasMaximumDegree(crossword, a, r.value)
    {
      var slots := UnassignedSlots(a);
      if slots == [] {
        return None;
      }
      assert slots[0] in Elements(slots);
      assert forall k :: 0 <= k < |slots| ==> slots[k] in Elements(slots);
      assert forall v :: v in slots ==> v in Elements(slots);
      var minSize := MinDomainSize(slots);
      var maxDegree := MaxDegree(slots);
      var minVars := WithDomainSize(slots, minSize);
      var maxVars := WithDegree(slots, maxDegree);
      MinimumChoice(crossword, domains, a, slots, minSize, minVars);
      MaximumChoice(crossword, a, slots, maxDegree, maxVars);
      if |minVars| == 1 {
        r := Some(minVars[0]);
      } else {
        r := Some(maxVars[0]);
      }
    }

    /**
     * Backtracking search over the shared assignment: picks a slot by
     * `SelectUnassignedVariable`, tries its words in least-constraining
     * order, recurses on each consistent extension and undoes the word
     * when the recursion fails. The assignment it returns is the shared
     * one, complete; on failure the shared assignment is as it was.
     */
    method Backtrack(assignment: Assignment) returns (r: Option<Words>)
      requires Valid() && NodeConsistent(domains)
      requires assignment.entries.Keys <= crossword.variables
      requires forall v :: v in assignment.entries ==> v.length <= |assignment.entries[v]|
      modifies assignment
      decreases |crossword.variables - assignment.entries.Keys|
      ensures r.None? ==> assignment.entries == old(assignment.entries)
      ensures r.Some? ==> r.value == assignment.entries && r.value.Keys == crossword.variables
      ensures r.Some? ==> ExtendsWithin(domains, r.value, old(assignment.entries))
      ensures r.Some? ==> r.value == old(assignment.entries) || ConsistentAssignment(crossword, r.value)
    {
      if AssignmentComplete(assignment.entries) {
        assert ExtendsWithin(domains, assignment.entries, assignment.entries);
        return Some(assignment.entries);
      }
      var variable := SelectUnassignedVariable(assignment.entries);
      var v := variable.value;
      var ordered := OrderDomainValues(v, assignment.entries);
      ghost var entries := assignment.entries;
      assert v in crossword.variables && v !in entries;
      for k := 0 to |ordered|
        invariant assignment.entries == entries
      {
        var word := ordered[k];
        assert word in Elements(ordered);
        assignment.entries := assignment.entries[v := word];
        var ok := Consistent(assignment.entries);
        if ok {
          ghost var extended := entries[v := word];
          assert crossword.variables - extended.Keys < crossword.variables - entries.Keys;
          var result := Backtrack(assignment);
          if result.Some? {
            ExtendsStep(domains, result.value, entries, v, word);
            return result;
          }
        }
        assignment.entries := assignment.entries - {v};
        UndoAssign(entries, v, word);
      }
      return None;
    }

    /**
     * Enforces node consistency, runs AC-3 from every arc (its verdict is
     * not consulted) and searches from the empty assignment. A result
     * fills every slot consistently with words from the starting domains.
     */
    method Solve() returns (r: Option<Words>)
      requires Valid()
      modifies this
      ensures Valid() && NodeConsistent(domains) && Shrunk(domains, LengthFiltered(old(domains)))
      ensures r.Some? ==> r.value.Keys == crossword.variables && ConsistentAssignment(crossword, r.value)
      ensures r.Some? ==> forall v :: v in r.value ==> r.value[v] in domains[v] && r.value[v] in old(domains)[v]
    {
      EnforceNodeConsistency();
      ghost var filtered := domains;
      var _ := AC3(None);
      ghost var narrowed := domains;
      assert forall v :: v in narrowed ==> narrowed[v] <= old(domains)[v] by {
        forall v | v in narrowed ensures narrowed[v] <= old(domains)[v] {
          assert narrowed[v] <= filtered[v];
        }
      }
      var assignment := new Assignment();
      assert ConsistentAssignment(crossword, assignment.entries);
      r := Backtrack(assignment);
      assert domains == narrowed;
    }
  }
}
