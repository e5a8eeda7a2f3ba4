/**
 * The `Interpreter` class of models.py: the builtin dictionaries it is
 * built with, and the user variables its declarations write in place.
 * Each method is proved to do what the corresponding function of `Rules`
 * says, and to keep user names apart from builtin names.
 */
module Interpreters {
  import opened Optional
  import opened PyStr
  import opened Rules

  class Interpreter<V> {
    /** The Python runtime the interpreter calls into. */
    const host: Host<V>
    /** `builtin_functions`: the coin's indicator methods and `alert`. */
    const builtinFunctions: map<string, V>
    /** `builtin_variables`: the coin's symbol, timeframe and price columns. */
    const builtinVariables: map<string, V>
    /** `variables`: what the script has declared so far. */
    var variables: map<string, V>

    /** No name is in two of the three dictionaries. */
    ghost predicate Valid()
      reads this
    {
      && builtinFunctions.Keys !! builtinVariables.Keys
      && variables.Keys !! Scope().Reserved()
    }

    /** The builtin dictionaries as one value. */
    function Scope(): Builtins<V> {
      Builtins(builtinFunctions, builtinVariables)
    }

    /** `Interpreter(coin)`: builtins bound for the coin, no user variables yet. */
    constructor(host: Host<V>)
      ensures Valid()
      ensures this.host == host
      ensures builtinFunctions == map n | n in FunctionNames :: host.bind(n)
      ensures builtinVariables == map n | n in VariableNames :: host.bind(n)
      ensures Scope().Reserved() == FunctionNames + VariableNames
      ensures variables == map[]
    {
      var functions := map[
        "mfi" := host.bind("mfi"),
        "macd" := host.bind("macd"),
        "rsi" := host.bind("rsi"),
        "sma" := host.bind("sma"),
        "cci" := host.bind("cci"),
        "alert" := host.bind("alert")];
      var globals := map[
        "symbol" := host.bind("symbol"),
        "timeframe" := host.bind("timeframe"),
        "close" := host.bind("close"),
        "high" := host.bind("high"),
        "low" := host.bind("low"),
        "open" := host.bind("open"),
        "vol" := host.bind("vol")];
      assert functions.Keys == FunctionNames;
      assert globals.Keys == VariableNames;
      BuiltinNamesDisjoint();
      this.host := host;
      builtinFunctions := functions;
      builtinVariables := globals;
      variables := map[];
    }

    /** The globals `eval` sees do not depend on the order `sum_two_dicts` merges the dictionaries in. */
    lemma GlobalsIgnoreMergeOrder()
      requires Valid()
      ensures Scope().Env(variables) == variables + builtinVariables + builtinFunctions
    {
      EnvOrderFree(Scope(), variables);
    }

    /** `__define_variable(line, variable_type)` */
    method DefineVariable(line: string, variableType: string) returns (ok: bool)
      requires Valid()
      modifies this
      ensures Valid()
      ensures (ok, variables) == Declare(host, Scope(), old(variables), line, variableType)
    {
      var pieces := Split(Drop(Strip(line), |variableType|), '=');
      var parts := StripEach(pieces);
      if |parts| == 2 && parts[0] !in builtinFunctions && parts[0] !in builtinVariables {
        var converted := host.convert(variableType, parts[1], parts, variables);
        if converted.None? {
          return false;
        }
        variables := variables[parts[0] := converted.value];
        return true;
      }
      return false;
    }

    /** `interpret(line)` */
    method Interpret(line: string) returns (reply: Reply<V>)
      requires Valid()
      modifies this
      decreases |line|, 1
      ensures Valid()
      ensures (reply, variables) == Run(host, Scope(), old(variables), line)
    {
      if StartsWith(line, "int") || StartsWith(line, "str") || StartsWith(line, "float") || StartsWith(line, "bool") {
        var ok := DefineVariable(line, Split(line, ' ')[0]);
        return Declared(ok);
      } else if StartsWith(line, "if") {
        reply := InterpretConditional(line);
      } else {
        var value := host.eval(line, Scope().Env(variables));
        if value.None? {
          return NoReply;
        }
        return Evaluated(value.value);
      }
    }

    /**
     * The `if` branch of `interpret(line)`: parse and test the condition,
     * then run at most one branch, whose reply is dropped.
     */
    method InterpretConditional(line: string) returns (reply: Reply<V>)
      requires Valid()
      modifies this
      decreases |line|, 0
      ensures Valid()
      ensures (reply, variables) == RunConditional(host, Scope(), old(variables), line)
    {
      var choice: Choice;
      var parts := Split(Drop(Strip(line), 2), '?');
      if |parts| < 2 {
        choice := Fails;
      } else {
        var condition := parts[0];
        var command := Split(parts[1], ':');
        var value := host.eval(condition, Scope().Env(variables));
        if value.None? {
          choice := Fails;
        } else {
          var holds := host.truth(value.value);
          if holds.None? {
            choice := Fails;
          } else if holds.value {
            choice := Runs(command[0]);
          } else if ':' in parts[1] {
            choice := Runs(command[1]);
          } else {
            choice := Skips;
          }
        }
      }
      assert choice == Choose(host, Scope(), variables, line);
      match choice
      case Fails =>
        reply := Raised;
      case Skips =>
        reply := NoReply;
      case Runs(text) =>
        var nested := Interpret(text);
        reply := if nested.Raised? then Raised else NoReply;
    }
  }
}
