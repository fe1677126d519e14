/**
 * The crossword grid the solver works on. The grid parser is not part of
 * this model: a grid is given as its set of slots, the overlap of every
 * ordered pair of slots and the word list.
 */
module Grid {

  datatype Direction = Across | Down

  /** A slot: the row and column of its first cell, its orientation and its length. */
  datatype Variable = Variable(i: nat, j: nat, direction: Direction, length: nat)

  /** An ordered pair of slots, as the solver's worklist holds them. */
  type Arc = (Variable, Variable)

  /**
   * `overlaps[(x, y)] == (i, j)` means that letter `i` of the word in `x`
   * and letter `j` of the word in `y` share a cell; a pair of slots that
   * do not cross has no entry (Python's `None`).
   */
  datatype Crossword = Crossword(
    variables: set<Variable>,
    overlaps: map<Arc, (nat, nat)>,
    words: set<string>)
  {
    /** What the grid parser guarantees about the overlaps it computes. */
    ghost predicate Valid() {
      && (forall p :: p in overlaps ==> p.0 in variables && p.1 in variables && p.0 != p.1)
      && (forall p :: p in overlaps ==> overlaps[p].0 < p.0.length && overlaps[p].1 < p.1.length)
      && (forall x, y :: (x, y) in overlaps ==>
            (y, x) in overlaps && overlaps[(y, x)] == (overlaps[(x, y)].1, overlaps[(x, y)].0))
    }

    /** The slots that cross `x`. */
    function Neighbors(x: Variable): set<Variable> {
      set y | y in variables && (x, y) in overlaps
    }

    /**
     * Words `wx` in `x` and `wy` in `y` agree: the slots do not cross, or
     * both words reach the shared cell and hold the same letter there.
     */
    predicate Agree(x: Variable, wx: string, y: Variable, wy: string) {
      (x, y) !in overlaps ||
      (var (i, j) := overlaps[(x, y)]; i < |wx| && j < |wy| && wx[i] == wy[j])
    }
  }
}
