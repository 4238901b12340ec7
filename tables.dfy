/**
 * The two in-memory tables the recommendation engine consumes, the caller's
 * requirement, and the shapes of what it produces.
 *
 * The catalog is the instance table keyed by instance type: each entry is the
 * row of the remaining columns ("vCPUs", "MemoryMiB", "GPUs", possibly others),
 * already coerced to integers. The interchangeability matrix maps a source
 * instance type to its row of (target label, cell) pairs, kept in column order
 * because that order is the ranking's tie-break.
 */
module Tables {

  /** One catalog row: column name to (integer) cell value. */
  type Row = map<string, int>

  /** Instance type to its catalog row. */
  type Catalog = map<string, Row>

  /** One matrix row: the targets in column order, each with its cell. */
  type MatrixRow = seq<(string, bool)>

  /** Source instance type to its row; `true` means the target can replace the source. */
  type Matrix = map<string, MatrixRow>

  /** The three resource thresholds a replacement must meet. */
  datatype Requirement = Requirement(vcpus: int, memoryMiB: int, gpus: int)

  /** The resources of one instance type, as read from its catalog row. */
  datatype Spec = Spec(vcpus: int, memoryMiB: int, gpus: int)

  /** One scored, feasible replacement. `score` is the squared distance scaled by 1024^2 (see Scoring). */
  datatype Candidate = Candidate(instanceType: string, vcpus: int, memoryMiB: int, gpus: int, score: int)

  /** Which lookup of the source instance type failed. */
  datatype Missing = MissingFromCatalog | MissingFromMatrix

  /**
   * What one recommendation produces. `UnknownSource` is the hard failure (a
   * raised error); `NoInterchangeable` and `NoFeasible` are the two error-shaped
   * results that are returned normally; `Ok` is the ranked answer.
   */
  datatype Outcome =
    | UnknownSource(missing: Missing)
    | NoInterchangeable(source: string)
    | NoFeasible(required: Requirement)
    | Ok(current: string, requested: Requirement, best: Candidate, top: seq<Candidate>)

  /** A column of a catalog row, 0 when the column is absent. */
  function Field(row: Row, column: string): int {
    if column in row then row[column] else 0
  }

  /** The resources named by a catalog row, each defaulting to 0. */
  function SpecOf(row: Row): Spec {
    Spec(Field(row, "vCPUs"), Field(row, "MemoryMiB"), Field(row, "GPUs"))
  }

  /**
   * A catalog lookup that yields something usable: the name has a row and the
   * row is not empty (an empty row is falsy and is skipped like a missing one).
   */
  predicate Resolves(catalog: Catalog, name: string) {
    name in catalog && catalog[name] != map[]
  }

  /** The spec meets every threshold. */
  predicate Meets(s: Spec, req: Requirement) {
    s.vcpus >= req.vcpus && s.memoryMiB >= req.memoryMiB && s.gpus >= req.gpus
  }
}
