/**
 * Tables and selection predicates. The tools hand a rewritten selection
 * string to `pd.eval`; the model takes the parsed condition instead: a
 * comparison of one column with a literal, combined with `&` and `|`,
 * evaluated on one row of a table (an atom of a molecule, or a row of a
 * data table).
 */
module Tables {

  /** A cell value: a number or a string. */
  datatype Value = Num(n: real) | Str(s: string)

  /** The comparison operators of a selection. */
  datatype Op = Lt | Le | Gt | Ge | Eq | Ne

  /** A selection condition: `(column op literal)`, `p & q`, `p | q`. */
  datatype Pred =
    | Cmp(column: string, op: Op, lit: Value)
    | And(left: Pred, right: Pred)
    | Or(left: Pred, right: Pred)

  /** One table row, by column name. */
  type Row = map<string, Value>

  /** A delimited table as read: its header and its rows. */
  datatype Table = Table(header: seq<string>, rows: seq<Row>)

  /** What `pd.read_table(..., usecols=...)` raises when a requested column is not in the header. */
  const UsecolsError := "ValueError: usecols"

  /** Some requested column is not in the table's header. */
  predicate MissingColumn(t: Table, used: seq<string>) {
    exists c :: c in used && c !in t.header
  }

  /** Every row has exactly the header's columns. */
  predicate Rectangular(t: Table) {
    forall k :: 0 <= k < |t.rows| ==> t.rows[k].Keys == set c | c in t.header
  }

  /** Python's ordering of strings: lexicographic by character. */
  predicate LexLess(a: string, b: string)
    decreases |a|
  {
    if a == [] then b != []
    else if b == [] then false
    else a[0] < b[0] || (a[0] == b[0] && LexLess(a[1..], b[1..]))
  }

  /** Python's string ordering is irreflexive. */
  lemma {:induction false} LexLessIrreflexive(a: string)
    ensures !LexLess(a, a)
    decreases |a|
  {
    if a != [] {
      LexLessIrreflexive(a[1..]);
    }
  }

  /**
   * One comparison. Numbers compare numerically and strings
   * lexicographically; a number and a string are never equal and never
   * ordered.
   */
  predicate Compare(v: Value, op: Op, lit: Value) {
    match op
    case Eq => v == lit
    case Ne => v != lit
    case Lt =>
      (v.Num? && lit.Num? && v.n < lit.n) || (v.Str? && lit.Str? && LexLess(v.s, lit.s))
    case Le =>
      (v.Num? && lit.Num? && v.n <= lit.n) || (v.Str? && lit.Str? && (v.s == lit.s || LexLess(v.s, lit.s)))
    case Gt =>
      (v.Num? && lit.Num? && v.n > lit.n) || (v.Str? && lit.Str? && LexLess(lit.s, v.s))
    case Ge =>
      (v.Num? && lit.Num? && v.n >= lit.n) || (v.Str? && lit.Str? && (v.s == lit.s || LexLess(lit.s, v.s)))
  }

  /** Whether a row satisfies a condition; a comparison on a missing column is false. */
  predicate Holds(p: Pred, row: Row) {
    match p
    case Cmp(c, op, lit) => c in row && Compare(row[c], op, lit)
    case And(l, r) => Holds(l, row) && Holds(r, row)
    case Or(l, r) => Holds(l, row) || Holds(r, row)
  }

  /** The columns a condition reads. */
  function Columns(p: Pred): set<string> {
    match p
    case Cmp(c, _, _) => {c}
    case And(l, r) => Columns(l) + Columns(r)
    case Or(l, r) => Columns(l) + Columns(r)
  }

  /** A condition only looks at its own columns: rows that agree there evaluate alike. */
  lemma {:induction false} HoldsOnColumns(p: Pred, a: Row, b: Row)
    requires forall c :: c in Columns(p) ==> (c in a <==> c in b) && (c in a ==> a[c] == b[c])
    ensures Holds(p, a) <==> Holds(p, b)
  {
    match p
    case Cmp(c, _, _) =>
      assert c in Columns(p);
    case And(l, r) =>
      HoldsOnColumns(l, a, b);
      HoldsOnColumns(r, a, b);
    case Or(l, r) =>
      HoldsOnColumns(l, a, b);
      HoldsOnColumns(r, a, b);
  }

  /** `df[cols]`: the row restricted to the given columns. */
  function Restrict(row: Row, cols: set<string>): (r: Row)
    ensures r.Keys == row.Keys * cols
    ensures forall c :: c in r ==> r[c] == row[c]
  {
    map c | c in row.Keys * cols :: row[c]
  }

  /** Reading only the columns a condition uses does not change its value. */
  lemma RestrictKeepsHolds(p: Pred, row: Row, cols: set<string>)
    requires Columns(p) <= cols
    ensures Holds(p, Restrict(row, cols)) <==> Holds(p, row)
  {
    HoldsOnColumns(p, Restrict(row, cols), row);
  }

  /** The mask of one row of a table read with `usecols=cols`: the condition on the loaded columns. */
  predicate Accepts(p: Pred, row: Row, cols: set<string>) {
    Holds(p, Restrict(row, cols))
  }

  // ---------------------------------------------------------------------
  // Atoms of a molecule (the rows of `PandasMol2().df`)
  // ---------------------------------------------------------------------

  /** One atom with the columns the selections and distances use; coordinates are integers. */
  datatype Atom = Atom(
    atomId: int, atomName: string, atomType: string,
    substId: int, substName: string, charge: real,
    x: int, y: int, z: int)

  /** A molecule as `PandasMol2` reads it from one record: its id and its atom table. */
  datatype Molecule = Molecule(id: string, atoms: seq<Atom>)

  /** The columns of a MOL2 atom table that selections refer to. */
  const AtomColumnNames: set<string> :=
    {"atom_id", "atom_name", "atom_type", "subst_id", "subst_name", "charge"}

  /** The cell of one atom in one of those columns. */
  function Cell(a: Atom, c: string): Value {
    if c == "atom_id" then Num(a.atomId as real)
    else if c == "atom_name" then Str(a.atomName)
    else if c == "atom_type" then Str(a.atomType)
    else if c == "subst_id" then Num(a.substId as real)
    else if c == "subst_name" then Str(a.substName)
    else Num(a.charge)
  }

  /** The atom as a table row, under the MOL2 column names. */
  function AtomRow(a: Atom): Row {
    map c | c in AtomColumnNames :: Cell(a, c)
  }

  /** The atom satisfies the condition. */
  predicate Picks(p: Pred, a: Atom) {
    Holds(p, AtomRow(a))
  }

  /** `pd.eval(sel).any()`: some atom satisfies the condition. */
  predicate AnySelected(p: Pred, atoms: seq<Atom>) {
    exists i :: 0 <= i < |atoms| && Picks(p, atoms[i])
  }

  /** `df[pd.eval(sel)]`: the atoms that satisfy the condition, in table order. */
  function SelectAtoms(p: Pred, atoms: seq<Atom>): (out: seq<Atom>)
    ensures |out| <= |atoms|
    decreases |atoms|
  {
    if atoms == [] then []
    else (if Picks(p, atoms[0]) then [atoms[0]] else []) + SelectAtoms(p, atoms[1..])
  }

  /** An atom is selected iff it is in the table and satisfies the condition. */
  lemma {:induction false} SelectAtomsMember(p: Pred, atoms: seq<Atom>, a: Atom)
    ensures a in SelectAtoms(p, atoms) <==> a in atoms && Picks(p, a)
    decreases |atoms|
  {
    if atoms != [] {
      SelectAtomsMember(p, atoms[1..], a);
      assert atoms == [atoms[0]] + atoms[1..];
    }
  }

  /** The selection is non-empty iff `.any()` holds. */
  lemma {:induction false} SelectAtomsEmpty(p: Pred, atoms: seq<Atom>)
    ensures SelectAtoms(p, atoms) != [] <==> AnySelected(p, atoms)
    decreases |atoms|
  {
    if atoms != [] {
      SelectAtomsEmpty(p, atoms[1..]);
      if Picks(p, atoms[0]) {
        assert AnySelected(p, atoms) && SelectAtoms(p, atoms) != [];
      } else {
        assert SelectAtoms(p, atoms) == SelectAtoms(p, atoms[1..]);
        assert forall i :: 1 <= i < |atoms| ==> atoms[1..][i - 1] == atoms[i];
      }
    }
  }

  /** The squared Euclidean distance between two atoms. */
  function SqDist(a: Atom, b: Atom): (d: int)
    ensures d >= 0
  {
    (a.x - b.x) * (a.x - b.x) + (a.y - b.y) * (a.y - b.y) + (a.z - b.z) * (a.z - b.z)
  }
}
