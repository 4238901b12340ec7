/**
 * The recommendation engine: validate the source instance type, collect the
 * targets its matrix row marks interchangeable, keep those the catalog
 * resolves and that meet every threshold, score them, rank them with a stable
 * sort, and return the best one with the first `topN` of the ranking.
 *
 * `Recommendation` is the specification as a function of the inputs;
 * `Recommend` is the step-by-step procedure (a candidate loop that appends, an
 * in-place sort) and is proved to return exactly `Recommendation`'s outcome.
 * The lemmas at the end state what an outcome guarantees.
 */
module Recommender {
  import opened Tables
  import opened Scoring
  import opened Ranking

  /** The targets `row` marks true, the source itself excluded, in row order. */
  function CompatibleNames(row: MatrixRow, source: string): (names: seq<string>)
    ensures |names| <= |row|
    ensures forall t :: t in names <==> t != source && (t, true) in row
  {
    if row == [] then []
    else
      var rest := CompatibleNames(row[1..], source);
      assert forall p :: p in row <==> p == row[0] || p in row[1..];
      if row[0].1 && row[0].0 != source then [row[0].0] + rest else rest
  }

  /** `name` resolves to a non-empty catalog row whose resources meet `req`. */
  predicate Feasible(catalog: Catalog, name: string, req: Requirement) {
    Resolves(catalog, name) && Meets(SpecOf(catalog[name]), req)
  }

  /** The scored candidate for a name the catalog holds. */
  function CandidateFor(catalog: Catalog, name: string, req: Requirement): Candidate
    requires name in catalog
  {
    var s := SpecOf(catalog[name]);
    Candidate(name, s.vcpus, s.memoryMiB, s.gpus, Score(s, req))
  }

  /**
   * The feasible candidates among `names`, scored, in the order of `names`:
   * exactly the feasible names, each once per occurrence.
   */
  function Evaluate(names: seq<string>, catalog: Catalog, req: Requirement): (cands: seq<Candidate>)
    ensures |cands| <= |names|
    ensures forall c :: c in cands ==>
      c.instanceType in names && Feasible(catalog, c.instanceType, req) && c == CandidateFor(catalog, c.instanceType, req)
    ensures forall t :: t in names && Feasible(catalog, t, req) ==> CandidateFor(catalog, t, req) in cands
  {
    if names == [] then []
    else
      var init, t := names[..|names| - 1], names[|names| - 1];
      assert names == init + [t];
      Evaluate(init, catalog, req) + (if Feasible(catalog, t, req) then [CandidateFor(catalog, t, req)] else [])
  }

  /**
   * Walks `names` in order, skipping names the catalog does not resolve and
   * specs that miss a threshold, and appends a scored candidate for each other.
   */
  method EvaluateCandidates(names: seq<string>, catalog: Catalog, req: Requirement) returns (candidates: seq<Candidate>)
    ensures candidates == Evaluate(names, catalog, req)
  {
    candidates := [];
    for i := 0 to |names|
      invariant candidates == Evaluate(names[..i], catalog, req)
    {
      assert names[..i + 1] == names[..i] + [names[i]];
      var target := names[i];
      if target !in catalog || catalog[target] == map[] {
        continue;
      }
      var row := catalog[target];
      var vcpu, mem, gpu := Field(row, "vCPUs"), Field(row, "MemoryMiB"), Field(row, "GPUs");
      if vcpu < req.vcpus || mem < req.memoryMiB || gpu < req.gpus {
        continue;
      }
      var dist := Score(Spec(vcpu, mem, gpu), req);
      candidates := candidates + [Candidate(target, vcpu, mem, gpu, dist)];
    }
    assert names[..|names|] == names;
  }

  /** Where a slice `s[:n]` stops, for `|s| == len`: a negative `n` counts from the end. */
  function SliceEnd(len: nat, n: int): (e: nat)
    ensures e <= len
  {
    if n >= 0 then (if n <= len then n else len)
    else if len + n >= 0 then len + n else 0
  }

  /** The prefix `s[:n]`, with slice semantics for an `n` out of range or negative. */
  function Take(s: seq<Candidate>, n: int): seq<Candidate> {
    s[..SliceEnd(|s|, n)]
  }

  /** The feasible candidates of the compatible targets, stably sorted by score. */
  function Ranked(compatible: seq<string>, catalog: Catalog, req: Requirement): (ranked: seq<Candidate>)
    ensures |ranked| == |Evaluate(compatible, catalog, req)|
  {
    InsertionSorted(Evaluate(compatible, catalog, req))
  }

  /** The outcome of recommending a replacement for `source`. */
  function Recommendation(source: string, req: Requirement, catalog: Catalog, matrix: Matrix, topN: int): Outcome {
    if source !in catalog then UnknownSource(MissingFromCatalog)
    else if source !in matrix then UnknownSource(MissingFromMatrix)
    else
      var compatible := CompatibleNames(matrix[source], source);
      if compatible == [] then NoInterchangeable(source)
      else
        var ranked := Ranked(compatible, catalog, req);
        if ranked == [] then NoFeasible(req)
        else Ok(source, req, ranked[0], Take(ranked, topN))
  }

  /** The recommendation procedure, step by step; its outcome is `Recommendation`'s. */
  method Recommend(source: string, req: Requirement, catalog: Catalog, matrix: Matrix, topN: int) returns (r: Outcome)
    ensures r == Recommendation(source, req, catalog, matrix, topN)
  {
    if source !in catalog {
      return UnknownSource(MissingFromCatalog);
    }
    if source !in matrix {
      return UnknownSource(MissingFromMatrix);
    }
    var compatible := CompatibleNames(matrix[source], source);
    if compatible == [] {
      return NoInterchangeable(source);
    }
    var candidates := EvaluateCandidates(compatible, catalog, req);
    if candidates == [] {
      return NoFeasible(req);
    }
    var a := new Candidate[|candidates|](i requires 0 <= i < |candidates| => candidates[i]);
    assert a[..] == candidates;
    InsertionSort(a);
    var best := a[0];
    var top := Take(a[..], topN);
    return Ok(source, req, best, top);
  }

  // ---------------------------------------------------------------------
  // What an outcome guarantees
  // ---------------------------------------------------------------------

  /**
   * A source missing from the catalog or from the matrix is a hard failure,
   * whatever the requirement and the limit; the catalog is checked first.
   */
  lemma UnknownSourceFails(source: string, req: Requirement, catalog: Catalog, matrix: Matrix, topN: int)
    ensures var r := Recommendation(source, req, catalog, matrix, topN);
      (r.UnknownSource? <==> source !in catalog || source !in matrix) &&
      (r == UnknownSource(MissingFromCatalog) <==> source !in catalog)
  {
  }

  /**
   * "No interchangeable instances" is returned exactly when the source is
   * known and its row marks nothing true but (possibly) the source itself.
   */
  lemma NoInterchangeableExactly(source: string, req: Requirement, catalog: Catalog, matrix: Matrix, topN: int)
    ensures Recommendation(source, req, catalog, matrix, topN).NoInterchangeable? <==>
      source in catalog && source in matrix &&
      forall i :: 0 <= i < |matrix[source]| && matrix[source][i].1 ==> matrix[source][i].0 == source
  {
    if source in catalog && source in matrix {
      var row := matrix[source];
      var compatible := CompatibleNames(row, source);
      if compatible != [] {
        assert compatible[0] in compatible;
        var i :| 0 <= i < |row| && row[i] == (compatible[0], true);
      } else {
        forall i | 0 <= i < |row| && row[i].1 ensures row[i].0 == source {
          assert row[i] in row;
        }
      }
    }
  }

  /**
   * "No compatible instance meets requirements", carrying the requirement, is
   * returned exactly when some target other than the source is marked true
   * but none of them resolves in the catalog and meets every threshold.
   */
  lemma NoFeasibleExactly(source: string, req: Requirement, catalog: Catalog, matrix: Matrix, topN: int)
    ensures var r := Recommendation(source, req, catalog, matrix, topN);
      (r.NoFeasible? ==> r.required == req) &&
      (r.NoFeasible? <==>
        source in catalog && source in matrix &&
        (exists i :: 0 <= i < |matrix[source]| && matrix[source][i].1 && matrix[source][i].0 != source) &&
        forall i :: 0 <= i < |matrix[source]| && matrix[source][i].1 && matrix[source][i].0 != source ==>
          !Feasible(catalog, matrix[source][i].0, req))
  {
    if source in catalog && source in matrix {
      var row := matrix[source];
      var compatible := CompatibleNames(row, source);
      var cands := Evaluate(compatible, catalog, req);
      if exists i :: 0 <= i < |row| && row[i].1 && row[i].0 != source {
        var i :| 0 <= i < |row| && row[i].1 && row[i].0 != source;
        assert row[i] in row;
        assert row[i].0 in compatible;
      }
      if compatible != [] {
        assert compatible[0] in compatible;
        var i :| 0 <= i < |row| && row[i] == (compatible[0], true);
      }
      if cands == [] {
        forall i | 0 <= i < |row| && row[i].1 && row[i].0 != source
          ensures !Feasible(catalog, row[i].0, req)
        {
          assert row[i] in row;
        }
      } else {
        var c := cands[0];
        assert c in cands;
        var i :| 0 <= i < |row| && row[i] == (c.instanceType, true);
      }
    }
  }

  /** Every member of the ranking is a feasible candidate of the compatible targets. */
  lemma RankedMembers(compatible: seq<string>, catalog: Catalog, req: Requirement, c: Candidate)
    requires c in Ranked(compatible, catalog, req)
    ensures c in Evaluate(compatible, catalog, req)
  {
    var cands := Evaluate(compatible, catalog, req);
    InsertionSortedPermutes(cands);
    assert c in multiset(InsertionSorted(cands));
  }

  /**
   * Every recommended instance (`best` and each of `top`) is a target the
   * source's row marks true, is not the source itself, resolves in the
   * catalog, meets all three thresholds, and is reported with the catalog's
   * resources (missing columns read as 0) and its score.
   */
  lemma RecommendedAreFeasible(source: string, req: Requirement, catalog: Catalog, matrix: Matrix, topN: int)
    requires Recommendation(source, req, catalog, matrix, topN).Ok?
    ensures var r := Recommendation(source, req, catalog, matrix, topN);
      forall c :: c == r.best || c in r.top ==>
        && c.instanceType != source
        && (c.instanceType, true) in matrix[source]
        && Resolves(catalog, c.instanceType)
        && c.vcpus >= req.vcpus && c.memoryMiB >= req.memoryMiB && c.gpus >= req.gpus
        && c == CandidateFor(catalog, c.instanceType, req)
  {
    var r := Recommendation(source, req, catalog, matrix, topN);
    var compatible := CompatibleNames(matrix[source], source);
    var ranked := Ranked(compatible, catalog, req);
    forall c | c == r.best || c in r.top
      ensures c.instanceType != source && (c.instanceType, true) in matrix[source]
      ensures Resolves(catalog, c.instanceType) && c == CandidateFor(catalog, c.instanceType, req)
      ensures c.vcpus >= req.vcpus && c.memoryMiB >= req.memoryMiB && c.gpus >= req.gpus
    {
      assert c in ranked by {
        if c != r.best {
          assert r.top == ranked[..SliceEnd(|ranked|, topN)];
        }
      }
      RankedMembers(compatible, catalog, req, c);
    }
  }

  /**
   * The ranking behind an `Ok` outcome is the list of feasible candidates of
   * the compatible targets, in row order, stably sorted ascending by score:
   * equal scores keep their row order. `best` is its first element, a
   * feasible candidate that scores no more than any other.
   */
  lemma BestOfOk(source: string, req: Requirement, catalog: Catalog, matrix: Matrix, topN: int)
    requires Recommendation(source, req, catalog, matrix, topN).Ok?
    ensures var r := Recommendation(source, req, catalog, matrix, topN);
      var cands := Evaluate(CompatibleNames(matrix[source], source), catalog, req);
      var ranked := Ranked(CompatibleNames(matrix[source], source), catalog, req);
      && r.current == source && r.requested == req
      && IsStableSortOf(ranked, cands)
      && r.best == ranked[0]
      && r.best in cands
      && (forall c :: c in cands ==> r.best.score <= c.score)
  {
    var r := Recommendation(source, req, catalog, matrix, topN);
    var compatible := CompatibleNames(matrix[source], source);
    var cands := Evaluate(compatible, catalog, req);
    var ranked := Ranked(compatible, catalog, req);
    InsertionSortedIsStableSort(cands);
    InsertionSortedPermutes(cands);
    assert ranked[0] in multiset(cands);
    forall c | c in cands ensures r.best.score <= c.score {
      assert c in multiset(ranked);
      var i :| 0 <= i < |ranked| && ranked[i] == c;
    }
  }

  /**
   * `top` is the prefix of the ranking of length `topN`, or all of it when
   * fewer candidates are feasible (a negative `topN` drops that many from the
   * end); it is ordered by score and starts with `best` whenever `topN >= 1`.
   */
  lemma TopOfOk(source: string, req: Requirement, catalog: Catalog, matrix: Matrix, topN: int)
    requires Recommendation(source, req, catalog, matrix, topN).Ok?
    ensures var r := Recommendation(source, req, catalog, matrix, topN);
      var cands := Evaluate(CompatibleNames(matrix[source], source), catalog, req);
      var ranked := Ranked(CompatibleNames(matrix[source], source), catalog, req);
      && r.top <= ranked
      && Sorted(r.top)
      && (topN >= 0 ==> |r.top| == if topN <= |cands| then topN else |cands|)
      && (topN < 0 ==> |r.top| == if |cands| + topN >= 0 then |cands| + topN else 0)
      && (topN >= 1 ==> r.top[0] == r.best)
  {
    var compatible := CompatibleNames(matrix[source], source);
    InsertionSortedIsSorted(Evaluate(compatible, catalog, req));
  }

  /** An example catalog: B is twice A, C is identical to A. */
  const ExampleCatalog: Catalog := map[
    "A" := map["vCPUs" := 4, "MemoryMiB" := 8192, "GPUs" := 0],
    "B" := map["vCPUs" := 8, "MemoryMiB" := 16384, "GPUs" := 0],
    "C" := map["vCPUs" := 4, "MemoryMiB" := 8192, "GPUs" := 0]]

  /** A may be replaced by B or C; its own cell is marked true as well. */
  const ExampleMatrix: Matrix := map["A" := [("A", true), ("B", true), ("C", true)]]

  const ExampleRequirement := Requirement(4, 8192, 0)

  lemma ExampleCompatible()
    ensures CompatibleNames(ExampleMatrix["A"], "A") == ["B", "C"]
  {
  }

  lemma ExampleScores()
    ensures Feasible(ExampleCatalog, "B", ExampleRequirement)
    ensures Feasible(ExampleCatalog, "C", ExampleRequirement)
    ensures CandidateFor(ExampleCatalog, "B", ExampleRequirement) == Candidate("B", 8, 16384, 0, 83886080)
    ensures CandidateFor(ExampleCatalog, "C", ExampleRequirement) == Candidate("C", 4, 8192, 0, 0)
  {
    assert SpecOf(ExampleCatalog["B"]) == Spec(8, 16384, 0);
    assert SpecOf(ExampleCatalog["C"]) == Spec(4, 8192, 0);
  }

  /** Two feasible names evaluate to their two candidates, in order. */
  lemma EvaluatePair(x: string, y: string, catalog: Catalog, req: Requirement)
    requires Feasible(catalog, x, req) && Feasible(catalog, y, req)
    ensures Evaluate([x, y], catalog, req) == [CandidateFor(catalog, x, req), CandidateFor(catalog, y, req)]
  {
    assert [x, y][..1] == [x];
    assert [x][..0] == [];
  }

  lemma ExampleCandidates()
    ensures Evaluate(["B", "C"], ExampleCatalog, ExampleRequirement) ==
      [Candidate("B", 8, 16384, 0, 83886080), Candidate("C", 4, 8192, 0, 0)]
  {
    ExampleScores();
    EvaluatePair("B", "C", ExampleCatalog, ExampleRequirement);
  }

  /** Two candidates out of score order come out of the ranking swapped. */
  lemma RankPair(b: Candidate, c: Candidate)
    requires c.score < b.score
    ensures InsertionSorted([b, c]) == [c, b]
  {
    assert [b, c][..1] == [b];
    assert [b][..0] == [];
    assert InsertionSorted([b]) == Insert([], b) == [b];
    assert Insert([b], c) == Insert([], c) + [b] == [c, b];
  }

  lemma ExampleRanking()
    ensures Ranked(["B", "C"], ExampleCatalog, ExampleRequirement) ==
      [Candidate("C", 4, 8192, 0, 0), Candidate("B", 8, 16384, 0, 83886080)]
  {
    ExampleCandidates();
    RankPair(Candidate("B", 8, 16384, 0, 83886080), Candidate("C", 4, 8192, 0, 0));
  }

  /** Unfolds `Recommendation` for a known source whose ranking is already known. */
  lemma RecommendationOfRanking(source: string, req: Requirement, catalog: Catalog, matrix: Matrix, topN: int,
                                compatible: seq<string>, ranked: seq<Candidate>)
    requires source in catalog && source in matrix
    requires CompatibleNames(matrix[source], source) == compatible != []
    requires Ranked(compatible, catalog, req) == ranked != []
    ensures Recommendation(source, req, catalog, matrix, topN) == Ok(source, req, ranked[0], Take(ranked, topN))
  {
  }

  /** A limit at least the length keeps the whole ranking. */
  lemma TakeAll(s: seq<Candidate>, n: int)
    requires n >= |s|
    ensures Take(s, n) == s
  {
  }

  /**
   * The example with an exact match: the row marks A itself, B and C; C equals
   * the request (score 0) and ranks ahead of B, so C is best and the top three
   * are C then B; A is never proposed for itself.
   */
  lemma ExactMatchRanksFirst()
    ensures var c := Candidate("C", 4, 8192, 0, 0);
      var b := Candidate("B", 8, 16384, 0, 83886080);
      Recommendation("A", ExampleRequirement, ExampleCatalog, ExampleMatrix, 3) == Ok("A", ExampleRequirement, c, [c, b])
  {
    var c := Candidate("C", 4, 8192, 0, 0);
    var b := Candidate("B", 8, 16384, 0, 83886080);
    ExampleCompatible();
    ExampleRanking();
    RecommendationOfRanking("A", ExampleRequirement, ExampleCatalog, ExampleMatrix, 3, ["B", "C"], [c, b]);
    assert Recommendation("A", ExampleRequirement, ExampleCatalog, ExampleMatrix, 3) == Ok("A", ExampleRequirement, c, Take([c, b], 3));
    TakeAll([c, b], 3);
  }

  /** With a limit of 1 the example returns its best candidate alone. */
  lemma LimitOneKeepsBest()
    ensures var c := Candidate("C", 4, 8192, 0, 0);
      Recommendation("A", ExampleRequirement, ExampleCatalog, ExampleMatrix, 1) == Ok("A", ExampleRequirement, c, [c])
  {
    var c := Candidate("C", 4, 8192, 0, 0);
    var b := Candidate("B", 8, 16384, 0, 83886080);
    ExampleCompatible();
    ExampleRanking();
    RecommendationOfRanking("A", ExampleRequirement, ExampleCatalog, ExampleMatrix, 1, ["B", "C"], [c, b]);
    assert SliceEnd(2, 1) == 1;
    assert [c, b][..1] == [c];
  }
}
