/**
 * The SHOW <value> plan node: resolves a parameter name against the query's
 * variables when constructed, and yields a single one-row table.
 */
module ShowValue {
  import opened Common

  /** Values are modelled as their text, so `str(value)` is the value itself. */
  type Value = string

  datatype Kind = Parameter | OtherKind(name: string)

  datatype ShowError =
    | SqlError             // a parameter name starting with '@'
    | IndexError           // an empty parameter name: `value[0]` fails
    | KeyError(name: string) // a parameter that is not a variable

  /** One row of the output table: the columns `name` and `value`. */
  datatype Row = Row(name: string, value: string)

  /**
   * The constructor's resolution of `(key, value)`: other kinds keep them as
   * given; a parameter whose name starts with '@' is refused; otherwise the
   * key becomes the parameter's name and the value the variable's value.
   */
  function Resolve(key: string, kind: Kind, value: Value, variables: map<string, Value>):
    (r: Result<(string, Value), ShowError>)
    ensures kind.OtherKind? ==> r == Ok((key, value))
    ensures kind == Parameter && |value| > 0 && value[0] == '@' ==> r == Err(SqlError)
    ensures kind == Parameter && value == "" ==> r == Err(IndexError)
    ensures kind == Parameter && |value| > 0 && value[0] != '@' ==>
      r == if value in variables then Ok((value, variables[value])) else Err(KeyError(value))
    ensures r.Ok? && kind == Parameter ==>
      r.value.0 == value && value in variables && r.value.1 == variables[value] &&
      |r.value.0| > 0 && r.value.0[0] != '@'
  {
    if kind != Parameter then Ok((key, value))
    else if value == "" then Err(IndexError)
    else if value[0] == '@' then Err(SqlError)
    else if value !in variables then Err(KeyError(value))
    else Ok((value, variables[value]))
  }

  class ShowValueNode {
    var key: string
    const kind: Kind
    var value: Value

    /** `key`, `kind` and `value` as given, before resolution. */
    constructor (key: string, kind: Kind, value: Value)
      ensures this.key == key && this.kind == kind && this.value == value
    {
      this.key := key;
      this.kind := kind;
      this.value := value;
    }

    /** The body of `__init__` after the parameters are read: reassign key and value for a parameter. */
    method ResolveParameter(variables: map<string, Value>) returns (r: Result<(), ShowError>)
      modifies this`key, this`value
      ensures var res := Resolve(old(key), kind, old(value), variables);
        (res.Ok? ==> r == Ok(()) && (key, value) == res.value) &&
        (res.Err? ==> r == Err(res.error))
    {
      if kind == Parameter {
        if value == "" {
          return Err(IndexError);
        }
        if value[0] == '@' {
          return Err(SqlError);
        }
        if value !in variables {
          return Err(KeyError(value));
        }
        key := value;
        value := variables[value];
      }
      return Ok(());
    }

    /** `execute`: exactly one table with exactly one row `{name: key, value: str(value)}`. */
    function Execute(): (tables: seq<seq<Row>>)
      reads this
      ensures |tables| == 1 && |tables[0]| == 1
      ensures tables[0][0].name == key && tables[0][0].value == value
    {
      [[Row(key, value)]]
    }
  }
}
