# we-trader rule interpreter, modelled in Dafny

we-trader watches crypto-currency pairs and checks each one against a small rule
script. Two classes make up its core (models.py):

- `Coin` keeps a pair's price history. `get_property_index` says where each price
  field sits in an exchange kline row. `get_history` moves the rows of an exchange
  response into five columns (open, high, low, close, vol) and sets the `is_field`
  flag.
- `Interpreter` runs the rule script one line at a time. It is built with two
  dictionaries of builtin names: the indicator functions with `alert`, and the
  coin's symbol, timeframe and price columns. A line is one of three forms:
  - `int`/`str`/`float`/`bool` starts a typed declaration `int x = ...`, which
    writes the user-variable dictionary;
  - `if` starts a conditional `if cond ? then : else`, which interprets one of
    its branches and drops its result. A branch ends at the next `?`, so a
    conditional inside a branch has no `?` of its own and raises: branches can
    be declarations or expressions, and conditionals do not nest;
  - anything else is an expression, evaluated with Python `eval`.

The project has five modules:

- `Optional` (optional.dfy): the `Option` type.
- `PyStr` (pystr.dfy): the Python string operations the interpreter is built from,
  with their laws. These are `startswith`, `strip` (with Python's full whitespace
  set), slicing and `split` on one character. `Join` and `Count` are not used by
  models.py; they are there to state what `split` does (its pieces joined back
  give the text, and it gives one more piece than there are separators).
- `Rules` (rules.dfy): what one line does, as pure functions of the line and the
  user variables before it. `Classify` is the dispatch, `Declare` is
  `__define_variable`, and `Run`/`RunConditional` are `interpret`. The lemmas
  state the behaviour of each statement form and the invariants of whole lines.
- `Interpreters` (interpreter.dfy): the `Interpreter` class. `variables` is a
  mutable field and the builtin dictionaries are constants. Each method is proved
  to change the state exactly as `Rules` says. The class invariant is that no
  name is in two of the three dictionaries, so the order in which `eval`'s
  globals are merged does not matter.
- `Coins` (coins.dfy): the `Coin` class. It holds the field table and the
  `get_history` fill loop, with the response supplied as a status code and rows.
  The loop is proved against `Filled` (the columns after a successful fill). A
  fill that raises is proved against `PartialColumns`.

Python's `eval`, the conversion `int(...)`/`str(...)`/`float(...)`/`bool(...)`
and the truth test `bool(value)` are fields of a `Host` value, not modelled
semantics. Each is a partial function whose `None` means that the call raised.
The conversion runs inside `__define_variable`, so it is given what that
method's locals hold: the type name, the value text, the list of stripped
`=`-pieces (the local `line`) and the user variables (`self.variables`).
`float()` on a response field is likewise a partial function parameter of
`GetHistory`. An exception that propagates out of `interpret` is the reply
`Raised`. In that case the variables are whatever the statement had written
before it raised.

## Model

| member | source | states |
|---|---|---|
| PyStr.IsSpace | models.py:82 | the characters `str.strip()` removes: Python's `isspace` set (definition, no contract; used by StripTrims and StripPadded) |
| PyStr.StartsWith | models.py:94-96 | `s.startswith(p)`: `p` is a prefix of `s` (definition, no contract; used by the dispatch lemmas) |
| PyStr.Drop | models.py:82 | `s[n:]` has `len(s) - n` characters, the k-th being `s[n + k]`, and none when `n` lies past the end |
| PyStr.LeadingSpaces | models.py:82 | the count covers only whitespace, and the character after it is not whitespace |
| PyStr.TrailingSpaces | models.py:82 | the count covers only trailing whitespace, and the character before it is not whitespace |
| PyStr.Strip | models.py:82 | `strip()` never lengthens a text |
| PyStr.StripTrims | models.py:82 | what `strip()` keeps neither starts nor ends with whitespace, and holds only characters of the input |
| PyStr.StripTrimmed | models.py:84 | a text without outer whitespace is its own strip |
| PyStr.StripPadded | models.py:84 | whitespace padding on both sides of a trimmed text is removed, and nothing else |
| PyStr.IndexOf | models.py:100 | the index found holds the character and no earlier index does |
| PyStr.IndexOfFirst | models.py:100 | the first occurrence is unique: any index with no earlier occurrence is it |
| PyStr.Before | models.py:101 | the text before the first separator is a prefix of the input, holds no separator, and ends at the end of the input or at a separator |
| PyStr.After | models.py:102 | the input is the text before the first separator, the separator, then the result |
| PyStr.Count | models.py:83 | the count is zero exactly when the character is absent |
| PyStr.CountAdjacent | models.py:83 | a character written twice in a row is counted at least twice |
| PyStr.Split | models.py:83 | `split` gives one more piece than there are separators, and no piece is longer than the input |
| PyStr.JoinSplit | models.py:83 | joining the pieces of a split with the separator gives the input back |
| PyStr.SplitKeepsAbsent | models.py:100-102 | a character absent from a text is absent from every piece of its split |
| PyStr.SplitJoin | models.py:83 | splitting a join of separator-free pieces gives the pieces back |
| PyStr.SplitAtFirst | models.py:100-102 | a split ends its first piece at the first separator and splits the rest afresh |
| PyStr.SplitFirstPiece | models.py:101 | the first piece is the text before the first separator |
| PyStr.SplitPieces | models.py:101-102 | piece 0 is the text before the first separator, and piece 1 is the text between the first and second separators |
| Rules.Classify | models.py:94-96 | the dispatch on the raw line: type keyword prefix, then `if` prefix, then expression (definition; DeclarationTypeIsFirstToken and DispatchByPrefix state all three cases) |
| Rules.Declare | models.py:81-91 | `__define_variable` as a function of the line and the user variables (definition; DeclareOutcome and the lemmas after it state its behaviour) |
| Rules.Run | models.py:93-111 | `interpret` as a function of the line and the user variables (definition; the conditional, expression and whole-line lemmas state its behaviour) |
| Rules.RunConditional | models.py:96-106 | the `if` branch of `interpret` (definition; TrueConditionRunsThen, FalseConditionRunsElse, FalseConditionWithoutElse and NestedConditionalRaises state its behaviour) |
| Rules.Builtins.Reserved | models.py:85 | the names a declaration may not use: the keys of both builtin dictionaries (definition) |
| Rules.Builtins.Env | models.py:103-109 | the globals of `eval`: `sum_two_dicts` of the builtin functions and variables, then of the user variables, later keys winning (definition; EnvOrderFree states it) |
| Rules.DeclarationBody | models.py:82 | `line.strip()[len(variable_type):]` (definition; TrimmedDeclarationBody states it for trimmed lines) |
| Rules.ConditionalBody | models.py:99 | `line.strip()[2:]` (definition) |
| Rules.Discard | models.py:104-106 | the nested call's effect is kept, its result dropped and its exception passed on (definition; RunsChosen states it) |
| Rules.ConditionText | models.py:101 | `line[0]` of the `?`-split: the body up to the first `?` (definition; SplitPieces ties it to the split) |
| Rules.BranchText | models.py:102 | `line[1]` of the `?`-split: the body between the first and the second `?` (definition; SplitPieces ties it to the split) |
| Rules.ThenText | models.py:102-104 | `command[0]`: the branches up to the first `:` (definition; TrueConditionRunsThen ties it to the split) |
| Rules.ElseText | models.py:102-106 | `command[1]`: the branches between the first and the second `:` (definition; FalseConditionRunsElse ties it to the split) |
| Rules.EnvOrderFree | models.py:103-109 | when no two of the dictionaries share a name, merging builtin functions, builtin variables and user variables in reverse order gives the same globals |
| Rules.BuiltinNamesDisjoint | models.py:62-78 | no name is both a builtin function and a builtin variable |
| Rules.StripEach | models.py:84 | `[i.strip() for i in pieces]`: one result per piece, the k-th being the k-th piece stripped |
| Rules.DeclarationParts | models.py:82-84 | a declaration body splits into one more piece than it has `=` |
| Rules.DeclareOutcome | models.py:85-91 | a declaration succeeds iff there are exactly two pieces, the name is not builtin and the conversion succeeds; on success only that name is (over)written, otherwise nothing changes |
| Rules.DeclareRefusesReserved | models.py:85 | declaring a builtin function or variable name returns False and changes nothing |
| Rules.DeclareNeedsOneEquals | models.py:82-85 | a body without exactly one `=` returns False and changes nothing |
| Rules.DeclareRefusesDoubleEquals | models.py:83-85 | a body containing `==` returns False and changes nothing |
| Rules.DeclareConversionFailure | models.py:86-89 | a conversion that raises returns False and changes nothing |
| Rules.DeclareKeepsReservedFree | models.py:85-87 | a declaration never gives a user variable a builtin name |
| Rules.DeclarationTypeIsFirstToken | models.py:94-95 | a line is a declaration iff its raw text starts with a type keyword, and its type name is its first space-separated token |
| Rules.DispatchByPrefix | models.py:94-96 | an `if` prefix makes a conditional (no type keyword starts with `if`), and a line with neither a type keyword nor `if` prefix is an expression |
| Rules.NoWordAfterSpace | models.py:94-96 | a line starting with whitespace starts with no keyword |
| Rules.LeadingSpaceIsExpression | models.py:94-96 | an empty line, or one with leading whitespace, is an expression and changes no variable |
| Rules.KeywordLineWithoutEqualsIsRefused | models.py:94-95 | a line that starts with a type keyword but has no `=` (e.g. `int(x) > 1`) goes to declaration, returns False and changes nothing |
| Rules.Choose | models.py:99-106 | whatever a conditional goes on to interpret is shorter than the line, so nested interpretation ends |
| Rules.ConditionalRepliesNothing | models.py:96-106 | a conditional line returns None or raises; it never returns its branch's result |
| Rules.ConditionalWithoutQuestionMarkRaises | models.py:99-102 | a conditional without `?` raises (there is no second piece) and changes nothing |
| Rules.FailingConditionRaises | models.py:103 | a condition whose evaluation or truth test raises makes the line raise, with nothing changed |
| Rules.RunsChosen | models.py:104-106 | a conditional that chooses a branch has that branch's effect on the variables, and raises iff the branch raises |
| Rules.TrueConditionRunsThen | models.py:103-104 | a true condition interprets exactly the text between `?` and the first `:`, and drops its result |
| Rules.FalseConditionRunsElse | models.py:105-106 | a false condition with a `:` in the branches interprets exactly the second `:`-piece |
| Rules.FalseConditionWithoutElse | models.py:105-106 | a false condition with no `:` in the branches does nothing and returns None |
| Rules.NestedConditionalRaises | models.py:100-106 | when the chosen branch is itself a conditional, the line raises and changes nothing: the branch holds no `?`, so it has no second `?`-piece |
| Rules.ExpressionSwallowsFaults | models.py:107-111 | an expression line never raises and changes no variable; it returns None exactly when evaluation raises, and otherwise the evaluated value |
| Rules.RunKeepsReservedFree | models.py:85-106 | no line, including the branch a conditional runs, gives a user variable a builtin name |
| Rules.RaisedChangesNothing | models.py:86-106 | a line that raises leaves the variables as they were |
| Rules.RunKeepsVariables | models.py:87 | no line removes a user variable |
| Rules.SpacedBranchesNeverDeclare | models.py:94-106 | a conditional whose branches start with a space (the documented `? alert(...) : alert(...)` style) changes no variable |
| Rules.DeclarationLineShape | models.py:83 | `kw name = value` is the keyword followed by the two `=`-pieces joined by `=` |
| Rules.PaddedPairParts | models.py:83-84 | the stripped `=`-pieces of ` name = value` are the name and the value |
| Rules.KeywordTokenIsDeclaration | models.py:94-95 | a line whose first token is a type keyword is a declaration of that type |
| Rules.DeclarationLineKind | models.py:94-95 | `kw name = value` is classified as a declaration of type `kw` |
| Rules.TrimmedDeclarationBody | models.py:82 | for a line with no outer whitespace, the declaration body is the text after the keyword |
| Rules.DeclarationLineParts | models.py:82-84 | a well-formed declaration line splits into exactly its name and its value |
| Rules.DeclarationLineBinds | models.py:81-95 | interpreting `kw name = value` for a non-builtin name returns whether the conversion of `value` (given the pieces `[name, value]` and the user variables) succeeded; on success it binds the name to the converted value, which later `eval`s see, and otherwise changes nothing |
| Interpreters.Interpreter.constructor | models.py:60-79 | the builtin dictionaries hold exactly the six function names and the seven variable names, bound for the coin; the user variables are empty |
| Interpreters.Interpreter.GlobalsIgnoreMergeOrder | models.py:103-109 | under the class invariant, the globals `eval` sees do not depend on the order of the merge |
| Interpreters.Interpreter.DefineVariable | models.py:81-91 | the return value and the new user variables are those of `Rules.Declare`, and no user variable takes a builtin name |
| Interpreters.Interpreter.Interpret | models.py:93-111 | the reply and the new user variables are those of `Rules.Run`, including the branch a conditional runs, and the builtin names stay free |
| Interpreters.Interpreter.InterpretConditional | models.py:96-106 | the reply and the new user variables of a conditional are those of `Rules.RunConditional` |
| Coins.HistoryKeysOrder | models.py:9-16 | the history's keys, in the order `for key in self.history` (line 40) walks them: `open`, `high`, `low`, `close`, `vol`, then `is_field` |
| Coins.PropertyIndex | models.py:20-32 | a name has an index iff it is a column name; the index is in 1..5, the column's place plus one, and no other name has one |
| Coins.PropertyIndexOfColumn | models.py:20-32 | every column's name has the index one past its place in the history |
| Coins.PropertyIndexTable | models.py:20-32 | open, high, low, close and vol map to 1..5, and `is_field` maps to None |
| Coins.PropertyIndexInjective | models.py:20-32 | distinct names never share an index |
| Coins.CellAtPropertyIndex | models.py:43 | a column's cell is `float(row[get_property_index(name)])`, and missing when the row is too short |
| Coins.Cell | models.py:43 | `float(row[get_property_index(key)])` for a column, missing when the row is too short (definition; CellAtPropertyIndex states it) |
| Coins.ColumnValues | models.py:39-43 | a column takes exactly one value per row |
| Coins.ColumnValuesAt | models.py:39-43 | the i-th value a column takes is `float` of field `get_property_index(column)` of row i |
| Coins.ColumnValuesSnoc | models.py:39-43 | one more row appends exactly that row's field |
| Coins.Advanced | models.py:39-43 | the columns after the outer loop has handled the first `i` rows (definition; AdvancedNone, AdvancedStep and AdvancedAll state it) |
| Coins.AdvancedNone | models.py:39 | before any row the columns are untouched |
| Coins.AllConvertStep | models.py:39-43 | the rows so far plus one fully converted row all convert |
| Coins.AdvancedStep | models.py:39-43 | appending a full row to the columns after i rows gives the columns after i + 1 rows |
| Coins.AdvancedStepAt | models.py:39-43 | the same, one column at a time |
| Coins.AdvancedAll | models.py:39-44 | the columns after the last row are those of the filled history |
| Coins.FilledColumnsAt | models.py:37-44 | a successful fill appends exactly `len(data)` values to each column, keeps the old values as a prefix, puts row i's field at old length + i and sets `is_field` |
| Coins.Filled | models.py:39-44 | the history after a fill in which every field converts (definition; FilledColumnsAt and AdvancedAll state it) |
| Coins.PartialColumns | models.py:39-43 | the columns when field `n` of row `i` is the first that fails (definition; used by GetHistory's contract) |
| Coins.Appended | models.py:40-43 | the columns after the inner loop has appended the first `n` fields of a row (definition; AppendedNone and AppendedExtend state it) |
| Coins.AppendedNone | models.py:40-43 | appending no field of a row changes nothing |
| Coins.AppendedExtend | models.py:40-43 | appending the next field of a row extends its own column by it and no other |
| Coins.FirstFaultNotAllConvert | models.py:43 | a fill that raises had a field that does not convert |
| Coins.FaultLeavesPartialColumns | models.py:39-43 | the columns left by a fill that raised at a row's field are the partial columns of a first fault, and then not every field converts |
| Coins.Coin.constructor | models.py:6-16 | a new coin has an empty list for each column and `is_field` False |
| Coins.Coin.AppendRow | models.py:40-43 | the inner key loop appends each column's field of the row, skipping `is_field`; on a missing or unconvertible field it stops, keeping the fields already appended |
| Coins.Coin.GetHistory | models.py:37-48 | non-200 returns None with the history untouched; with all fields convertible, the history becomes `Filled` with `is_field` True and is returned; otherwise the call raises, with the columns filled up to the first failing field and `is_field` as it was |

## Left out

- The HTTP request, the `requests` session, the API URL, the `limit` parameter and
  `response.json()` (models.py:17-18, 34-35, 38) are network I/O. The response
  reaches `GetHistory` as a status code and rows that are already decoded.
- `GetHistory`: a row is assumed to be a list. A decoded row of another JSON type
  is out of scope, and so is a `response.json()` that raises.
- `Coin.all_symbols` (models.py:50-56) is network I/O only.
- indicators.py is not part of this model. Its indicator objects, `print` as
  `alert` and the coin's values reach the builtin dictionaries through
  `Host.bind`, as opaque values.
- The interpreter's reference to its coin (models.py:61) is not used by any
  modelled operation. Nor is the fact that `builtin_variables` shares the coin's
  history lists. The builtin values are opaque, so later fills are not visible
  through them.
- main.py is not part of this model. It reads files, fetches concurrently and
  runs the script with no verdict. Only the behaviour of a single line is
  modelled.
- utils.py is not part of this model. Its `sum_two_dicts` is modelled as a
  right-biased map union, in the order the source nests it.
  `Interpreters.Interpreter.GlobalsIgnoreMergeOrder` shows that under the class
  invariant the order of the merge does not change the result.
- The semantics of `eval`, of the conversions and of truth testing are
  parameters (`Host`). Of the conversion's locals, `self.variables` and the
  pieces list `line` are arguments of `Host.convert`. The rest of `self` (its
  coin and builtin dictionaries) never changes after construction, so it is
  part of the host.
- Rules.ExpressionSwallowsFaults: an expression whose value is Python `None` gives
  the reply `Evaluated(v)`, and an expression that raises gives `NoReply`. The
  source returns `None` in both cases, so its caller cannot tell them apart.
- Python strings are modelled as sequences of characters. Case, encoding and
  normalisation play no part in the modelled operations.
- Coins.Coin.AppendRow: the inner loop of `get_history` is a separate method.
  `GetHistory`'s outer loop calls it once per row, and the history is still
  updated in place, field by field.
