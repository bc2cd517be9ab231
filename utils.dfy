/** Buffer positions and their ordering (src/utils.rs). */
module Utils {

  datatype Option<T> = None | Some(value: T)

  /** The three outcomes of a total comparison (std::cmp::Ordering). */
  datatype Ordering = Less | Equal | Greater {
    /** The outcome of the same comparison with its operands swapped. */
    function Reverse(): Ordering {
      match this
      case Less => Greater
      case Equal => Equal
      case Greater => Less
    }
  }

  /** Comparison of two unsigned numbers, as `u64::cmp` does it. */
  function CompareNat(a: nat, b: nat): (r: Ordering)
    ensures r == Less <==> a < b
    ensures r == Equal <==> a == b
    ensures r == Greater <==> b < a
  {
    if a < b then Less else if a == b then Equal else Greater
  }

  /** The option-valued comparison of two numbers (`u64::partial_cmp`), always defined. */
  function PartialCompareNat(a: nat, b: nat): (r: Option<Ordering>)
    ensures r.Some? && r.value == CompareNat(a, b)
  {
    if a < b then Some(Less) else if b < a then Some(Greater) else Some(Equal)
  }

  /**
   * A (line, column) position in the editor buffer. Declaration order of the
   * fields matters: the derived orderings compare `line` first, then `col`.
   */
  datatype Pos = Pos(line: nat, col: nat) {

    function Line(): nat { line }

    function Col(): nat { col }

    function Get(): (nat, nat) { (line, col) }

    /** The hand-written `PartialEq` (and the `PartialEq<&Pos>` beside it). */
    function Eq(other: Pos): (r: bool)
      ensures r <==> this == other
    {
      col == other.col && line == other.line
    }

    /** The derived `Ord::cmp`: lexicographic on (line, col). */
    function Cmp(other: Pos): (r: Ordering)
      ensures r == Less <==> line < other.line || (line == other.line && col < other.col)
      ensures r == Equal <==> Eq(other)
      ensures r == Greater <==> other.line < line || (line == other.line && other.col < col)
    {
      match CompareNat(line, other.line)
      case Equal => CompareNat(col, other.col)
      case Less => Less
      case Greater => Greater
    }

    /** The derived `PartialOrd::partial_cmp`: field by field, stopping at the first difference. */
    function PartialCmp(other: Pos): (r: Option<Ordering>)
      ensures r.Some?
    {
      match PartialCompareNat(line, other.line)
      case Some(Equal) => PartialCompareNat(col, other.col)
      case o => o
    }

    /** The hand-written `PartialOrd<&Pos>`: it defers to `Ord::cmp`. */
    function PartialCmpRef(other: Pos): (r: Option<Ordering>)
      ensures r.Some?
    {
      Some(Cmp(other))
    }

    /** The `<` operator of the derived `PartialOrd`: a smaller line, or the same line and a smaller column. */
    predicate Lt(other: Pos): (r: bool)
      ensures r <==> line < other.line || (line == other.line && col < other.col)
    {
      PartialCmp(other) == Some(Less)
    }
  }

  /** `Pos::new`. */
  function New(line: nat, col: nat): (p: Pos)
    ensures p.Line() == line && p.Col() == col
    ensures p.Get() == (line, col)
  {
    Pos(line, col)
  }

  /** The derived `PartialOrd` agrees with the derived `Ord`, and so with the `&Pos` comparison. */
  lemma PartialCmpAgrees(p: Pos, q: Pos)
    ensures p.PartialCmp(q) == Some(p.Cmp(q))
    ensures p.PartialCmpRef(q) == p.PartialCmp(q)
    ensures p.Lt(q) <==> p.Cmp(q) == Less
  {
    assert PartialCompareNat(p.line, q.line) == Some(CompareNat(p.line, q.line));
    assert PartialCompareNat(p.col, q.col) == Some(CompareNat(p.col, q.col));
  }

  /** `Cmp` is a total order whose equality is `Eq`: antisymmetric, transitive and total. */
  lemma CmpIsTotalOrder(p: Pos, q: Pos, s: Pos)
    ensures p.Cmp(q) == q.Cmp(p).Reverse()
    ensures p.Cmp(q) == Less && q.Cmp(s) == Less ==> p.Cmp(s) == Less
    ensures p.Cmp(q) == Less || p.Eq(q) || q.Cmp(p) == Less
    ensures p.Cmp(p) == Equal
  {
  }

  /** `<` on positions is a strict order: irreflexive, transitive, and any two distinct positions are related. */
  lemma LtIsStrictTotal(p: Pos, q: Pos, s: Pos)
    ensures !p.Lt(p)
    ensures p.Lt(q) && q.Lt(s) ==> p.Lt(s)
    ensures p != q ==> p.Lt(q) || q.Lt(p)
    ensures p.Lt(q) ==> !q.Lt(p)
  {
    PartialCmpAgrees(p, p);
    PartialCmpAgrees(p, q);
    PartialCmpAgrees(q, p);
    PartialCmpAgrees(q, s);
    PartialCmpAgrees(p, s);
  }
}
