/**
 * The SET plan node: writes one entry into the query's shared variable map.
 */
module SetVariable {
  import opened Common

  /** Variable values are modelled as their text. */
  type Value = string

  /** The variable map shared between the query's plan nodes. */
  class Variables {
    var values: map<string, Value>

    constructor (values: map<string, Value>)
      ensures this.values == values
    {
      this.values := values;
    }
  }

  /**
   * The map after assigning `value` to `variable`: that key holds `value`,
   * every other key keeps its old binding, and no key is added or lost
   * besides `variable`.
   */
  function Assign(variables: map<string, Value>, variable: string, value: Value): (r: map<string, Value>)
    ensures variable in r && r[variable] == value
    ensures r.Keys == variables.Keys + {variable}
    ensures forall k :: k in variables && k != variable ==> r[k] == variables[k]
  {
    variables[variable := value]
  }

  class SetVariableNode {
    const variable: string
    const value: Value
    /** A reference to the shared map, not a copy. */
    const variables: Variables

    constructor (variable: string, value: Value, variables: Variables)
      ensures this.variable == variable && this.value == value && this.variables == variables
    {
      this.variable := variable;
      this.value := value;
      this.variables := variables;
    }

    /** `execute`: update the shared map in place and yield a single `None`. */
    method Execute() returns (yielded: seq<Option<()>>)
      modifies variables
      ensures variables.values == Assign(old(variables.values), variable, value)
      ensures yielded == [None]
    {
      variables.values := variables.values[variable := value];
      yielded := [None];
    }
  }

  /**
   * Nodes built over one shared map see each other's writes: after three
   * assignments through three nodes, each node's map holds the later
   * assignment to `x` and the assignment to `y`.
   */
  method SharedMapClient(x: string, y: string) returns (seenByFirst: map<string, Value>, seenByLast: map<string, Value>)
    requires x != y
    ensures seenByFirst == seenByLast == map[x := "3", y := "2"]
  {
    var vars := new Variables(map[]);
    var a := new SetVariableNode(x, "1", vars);
    var b := new SetVariableNode(y, "2", vars);
    var c := new SetVariableNode(x, "3", vars);
    var _ := a.Execute();
    var _ := b.Execute();
    var _ := c.Execute();
    seenByFirst, seenByLast := a.variables.values, c.variables.values;
  }
}
