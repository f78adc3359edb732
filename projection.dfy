/**
 * The projection plan node: keeps the projected columns (and the ORDER BY
 * columns) of each morsel, in order, after evaluating the ones that are not
 * plain column references.
 */
module Projection {
  import opened Common

  datatype NodeType = Identifier | Literal | Function | Other(name: string)

  /** A projected expression: its node type and the identity of its schema column. */
  datatype Column = Column(nodeType: NodeType, identity: string)

  /** A morsel, modelled by its column identities; the data is not modelled. */
  datatype Morsel = EOS | Table(columns: seq<string>)

  datatype ProjectionError = ColumnNotFound(identity: string)

  /** The identities of `cols`, position by position. */
  function Identities(cols: seq<Column>): (r: seq<string>)
    ensures |r| == |cols|
    ensures forall i :: 0 <= i < |cols| ==> r[i] == cols[i].identity
  {
    seq(|cols|, i requires 0 <= i < |cols| => cols[i].identity)
  }

  /** The columns that need evaluating: those that are not identifiers, in their order. */
  function Evaluations(cols: seq<Column>): (r: seq<Column>)
    ensures forall c :: c in r <==> c in cols && c.nodeType != Identifier
    ensures |r| <= |cols|
    ensures multiset(r) <= multiset(cols)
  {
    if cols == [] then []
    else
      assert cols == [cols[0]] + cols[1..];
      (if cols[0].nodeType != Identifier then [cols[0]] else []) + Evaluations(cols[1..])
  }

  /**
   * Evaluations keep the order of the input: filtering a concatenation is
   * the concatenation of the filtered parts.
   */
  lemma {:induction false} EvaluationsOfConcat(a: seq<Column>, b: seq<Column>)
    ensures Evaluations(a + b) == Evaluations(a) + Evaluations(b)
    decreases |a|
  {
    if a == [] {
      assert a + b == b;
    } else {
      assert (a + b)[1..] == a[1..] + b;
      EvaluationsOfConcat(a[1..], b);
    }
  }

  /**
   * `evaluate_and_append`, as far as column names go: each evaluated
   * column not already present is appended under its identity.
   */
  function AppendEvaluated(columns: seq<string>, evaluations: seq<Column>): (r: seq<string>)
    ensures columns <= r
    ensures forall c :: c in evaluations ==> c.identity in r
    ensures forall n :: n in r ==> n in columns || exists c :: c in evaluations && c.identity == n
    decreases |evaluations|
  {
    if evaluations == [] then columns
    else
      var id := evaluations[0].identity;
      var columns' := if id in columns then columns else columns + [id];
      assert id in columns';
      assert forall c :: c in evaluations ==> c == evaluations[0] || c in evaluations[1..];
      AppendEvaluated(columns', evaluations[1..])
  }

  /** pyarrow's `select`: the named columns, in the order named; a missing one is an error. */
  function Select(columns: seq<string>, names: seq<string>): (r: Result<seq<string>, ProjectionError>)
    ensures r.Ok? <==> forall n :: n in names ==> n in columns
    ensures r.Ok? ==> r.value == names
    ensures r.Err? ==> r.error.identity in names && r.error.identity !in columns
  {
    if names == [] then Ok([])
    else if names[0] !in columns then Err(ColumnNotFound(names[0]))
    else match Select(columns, names[1..])
      case Ok(rest) => Ok([names[0]] + rest)
      case Err(e) => Err(e)
  }

  class ProjectionNode {
    /** The identities of the projection followed by the ORDER BY columns. */
    var projection: seq<string>
    var evaluations: seq<Column>
    /** Only the projection itself, without the ORDER BY columns. */
    var columns: seq<Column>

    constructor (proj: seq<Column>, orderByColumns: seq<Column>)
      ensures projection == Identities(proj + orderByColumns)
      ensures evaluations == Evaluations(proj + orderByColumns)
      ensures columns == proj
    {
      var all := proj + orderByColumns;
      var ids: seq<string> := [];
      var i := 0;
      while i < |all|
        invariant 0 <= i <= |all|
        invariant ids == Identities(all[..i])
      {
        ids := ids + [all[i].identity];
        i := i + 1;
      }
      assert all[..i] == all;
      projection := ids;
      evaluations := Evaluations(all);
      columns := proj;
    }

    /**
     * `execute`: EOS passes through; otherwise the output has exactly the
     * `projection` columns, in order, provided each one is present once the
     * evaluations have been appended.
     */
    function Execute(morsel: Morsel): (r: Result<Morsel, ProjectionError>)
      reads this
      ensures morsel == EOS ==> r == Ok(EOS)
      ensures morsel.Table? && r.Ok? ==> r.value == Table(projection)
      ensures morsel.Table? ==>
        (r.Ok? <==> forall n :: n in projection ==> n in AppendEvaluated(morsel.columns, evaluations))
    {
      if morsel == EOS then Ok(EOS)
      else match Select(AppendEvaluated(morsel.columns, evaluations), projection)
        case Ok(names) => Ok(Table(names))
        case Err(e) => Err(e)
    }
  }

  /** Every projected column, including the ORDER BY ones, is present once the input has the identifiers. */
  lemma ProjectionSucceeds(proj: seq<Column>, orderBy: seq<Column>, input: seq<string>)
    requires forall c :: c in proj + orderBy && c.nodeType == Identifier ==> c.identity in input
    ensures forall n :: n in Identities(proj + orderBy) ==>
      n in AppendEvaluated(input, Evaluations(proj + orderBy))
  {
    var all := proj + orderBy;
    forall n | n in Identities(all)
      ensures n in AppendEvaluated(input, Evaluations(all))
    {
      var i :| 0 <= i < |all| && Identities(all)[i] == n;
      assert all[i] in all;
      if all[i].nodeType != Identifier {
        assert all[i] in Evaluations(all);
      } else {
        assert n in input;
      }
    }
  }
}
