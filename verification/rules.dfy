/**
 * What one line of a rule script does, as a pure function of the line and
 * of the user variables before it: the semantics `Interpreter.interpret`
 * (models.py) implements by string slicing and Python `eval`.
 *
 * Python's `eval`, the `int(...)`/`str(...)`/`float(...)`/`bool(...)`
 * conversions and `bool(value)` are not modelled; they are supplied by a
 * `Host`, each as a partial function whose `None` stands for "raised".
 */
module Rules {
  import opened Optional
  import opened PyStr

  /** The host runtime's services, over Python objects of type `V`. */
  datatype Host<!V> = Host(
    /** `eval(text, env)` with `env` as its globals. */
    eval: (string, map<string, V>) -> Option<V>,
    /**
     * `eval(f'{typeName}({text})')` inside `__define_variable`, whose locals
     * are the stripped `=`-pieces (`line`) and `self`, whose `variables` are
     * the user variables; the rest of `self` is fixed for the interpreter.
     */
    convert: (string, string, seq<string>, map<string, V>) -> Option<V>,
    /** `bool(value)`, which raises for a pandas Series. */
    truth: V -> Option<bool>,
    /** The object the constructor binds to a builtin name for its coin. */
    bind: string -> V)

  /** Keys of `builtin_functions`: the indicator methods and `alert`. */
  const FunctionNames: set<string> := {"mfi", "macd", "rsi", "sma", "cci", "alert"}

  /** Keys of `builtin_variables`: the coin's identity and its price columns. */
  const VariableNames: set<string> := {"symbol", "timeframe", "close", "high", "low", "open", "vol"}

  /** The prefixes that make a line a typed declaration. */
  const TypeKeywords: seq<string> := ["int", "str", "float", "bool"]

  /** What `interpret` returns: True/False, None, an evaluated object, or an exception. */
  datatype Reply<V> = Declared(ok: bool) | NoReply | Evaluated(value: V) | Raised

  /** The two builtin dictionaries of one interpreter. */
  datatype Builtins<V> = Builtins(functions: map<string, V>, variables: map<string, V>) {

    /** The names a declaration may not use. */
    function Reserved(): set<string> {
      functions.Keys + variables.Keys
    }

    /** The globals `eval` sees: builtin functions, then builtin variables, then user variables. */
    function Env(user: map<string, V>): map<string, V> {
      functions + variables + user
    }
  }

  /** The statement form `interpret` picks, by a prefix test on the raw line. */
  datatype Kind = Declaration(typeName: string) | Conditional | Expression

  /** The line starts with one of the type keywords. */
  predicate HasTypePrefix(line: string) {
    exists k | 0 <= k < |TypeKeywords| :: StartsWith(line, TypeKeywords[k])
  }

  /**
   * The dispatch of `interpret`: a type keyword prefix makes a declaration
   * whose type name is the first space-separated token, an `if` prefix a
   * conditional, anything else an expression. The test is on the raw line,
   * before any stripping.
   */
  function Classify(line: string): Kind {
    if StartsWith(line, "int") || StartsWith(line, "str") || StartsWith(line, "float") || StartsWith(line, "bool")
    then Declaration(Split(line, ' ')[0])
    else if StartsWith(line, "if") then Conditional
    else Expression
  }

  /** The text a declaration splits: the stripped line without its type name. */
  function DeclarationBody(line: string, typeName: string): string {
    Drop(Strip(line), |typeName|)
  }

  /** The stripped `=`-pieces of a declaration: a name and a right-hand side when there are two. */
  function DeclarationParts(line: string, typeName: string): (parts: seq<string>)
    ensures |parts| == Count(DeclarationBody(line, typeName), '=') + 1
  {
    StripEach(Split(DeclarationBody(line, typeName), '='))
  }

  /** `[i.strip() for i in pieces]` */
  function StripEach(pieces: seq<string>): (stripped: seq<string>)
    ensures |stripped| == |pieces|
    ensures forall k | 0 <= k < |pieces| :: stripped[k] == Strip(pieces[k])
  {
    if pieces == [] then [] else [Strip(pieces[0])] + StripEach(pieces[1..])
  }

  /** `__define_variable`: whether it succeeded, and the user variables afterwards. */
  function Declare<V>(h: Host<V>, b: Builtins<V>, user: map<string, V>, line: string, typeName: string)
    : (bool, map<string, V>)
  {
    var parts := DeclarationParts(line, typeName);
    if |parts| == 2 && parts[0] !in b.Reserved() then
      match h.convert(typeName, parts[1], parts, user)
      case Some(v) => (true, user[parts[0] := v])
      case None => (false, user)
    else
      (false, user)
  }

  /** The text a conditional splits: the stripped line without its leading `if`. */
  function ConditionalBody(line: string): string {
    Drop(Strip(line), 2)
  }

  /** A nested statement's effect on the variables is kept; its reply is dropped, its exception is not. */
  function Discard<V>(nested: (Reply<V>, map<string, V>)): (Reply<V>, map<string, V>) {
    (if nested.0.Raised? then Raised else NoReply, nested.1)
  }

  /** What a conditional line goes on to do. */
  datatype Choice = Fails | Skips | Runs(text: string)

  /**
   * The conditional half of `interpret`: strip, drop `if`, split on `?` and
   * the second piece on `:`; a missing `?` or a condition that raises fails,
   * a holding condition runs the first `:`-piece, a failing one the second
   * when there is a `:`. Whatever it runs is shorter than the line.
   */
  function Choose<V>(h: Host<V>, b: Builtins<V>, user: map<string, V>, line: string): (c: Choice)
    ensures c.Runs? ==> |c.text| < |line|
  {
    var parts := Split(ConditionalBody(line), '?');
    if |parts| < 2 then
      Fails
    else
      var command := Split(parts[1], ':');
      var condition := h.eval(parts[0], b.Env(user));
      if condition.None? then
        Fails
      else
        var holds := h.truth(condition.value);
        if holds.None? then
          Fails
        else if holds.value then
          Runs(command[0])
        else if ':' in parts[1] then
          Runs(command[1])
        else
          Skips
  }

  /** `interpret(line)`: its reply, and the user variables afterwards. */
  function Run<V>(h: Host<V>, b: Builtins<V>, user: map<string, V>, line: string): (Reply<V>, map<string, V>)
    decreases |line|, 1
  {
    match Classify(line)
    case Declaration(t) =>
      var (ok, after) := Declare(h, b, user, line, t);
      (Declared(ok), after)
    case Conditional => RunConditional(h, b, user, line)
    case Expression =>
      var value := h.eval(line, b.Env(user));
      if value.None? then (NoReply, user) else (Evaluated(value.value), user)
  }

  /** The `if` branch of `interpret(line)`: what the conditional chooses, and the effect of the branch it runs. */
  function RunConditional<V>(h: Host<V>, b: Builtins<V>, user: map<string, V>, line: string): (Reply<V>, map<string, V>)
    decreases |line|, 0
  {
    match Choose(h, b, user, line)
    case Fails => (Raised, user)
    case Skips => (NoReply, user)
    case Runs(text) => Discard(Run(h, b, user, text))
  }

  /** The condition of a conditional line: its body up to the first `?`. */
  function ConditionText(line: string): string {
    Before(ConditionalBody(line), '?')
  }

  /** The branches of a conditional line: its body between the first and the second `?`. */
  function BranchText(line: string): string
    requires '?' in ConditionalBody(line)
  {
    Before(After(ConditionalBody(line), '?'), '?')
  }

  /** The statement run when the condition holds: the branches up to the first `:`. */
  function ThenText(line: string): string
    requires '?' in ConditionalBody(line)
  {
    Before(BranchText(line), ':')
  }

  /** The statement run when the condition fails: the branches between the first and the second `:`. */
  function ElseText(line: string): string
    requires '?' in ConditionalBody(line) && ':' in BranchText(line)
  {
    Before(After(BranchText(line), ':'), ':')
  }

  // ---------------------------------------------------------------------------
  // Builtin names and declarations

  /** No name is both a builtin function and a builtin variable. */
  lemma BuiltinNamesDisjoint()
    ensures FunctionNames !! VariableNames
  {
  }

  /**
   * The globals of `eval` nest the builtin functions, the builtin variables
   * and the user variables; when no two of them share a name, the order of
   * the merge does not matter.
   */
  lemma EnvOrderFree<V>(b: Builtins<V>, user: map<string, V>)
    requires b.functions.Keys !! b.variables.Keys
    requires user.Keys !! b.Reserved()
    ensures b.Env(user) == user + b.variables + b.functions
  {
    var merged := b.Env(user);
    var reversed := user + b.variables + b.functions;
    forall k | k in merged
      ensures k in reversed && merged[k] == reversed[k]
    {
    }
  }

  /** `__define_variable` succeeds exactly when the line has one `=`, a free name and a convertible value, and then writes that name alone. */
  lemma DeclareOutcome<V>(h: Host<V>, b: Builtins<V>, user: map<string, V>, line: string, typeName: string)
    ensures var parts := DeclarationParts(line, typeName);
            var (ok, after) := Declare(h, b, user, line, typeName);
            && (ok <==> |parts| == 2 && parts[0] !in b.Reserved() && h.convert(typeName, parts[1], parts, user).Some?)
            && (ok ==> after == user[parts[0] := h.convert(typeName, parts[1], parts, user).value])
            && (!ok ==> after == user)
  {
  }

  /** A declaration of a builtin function or builtin variable name fails and changes nothing. */
  lemma DeclareRefusesReserved<V>(h: Host<V>, b: Builtins<V>, user: map<string, V>, line: string, typeName: string)
    requires DeclarationParts(line, typeName)[0] in b.Reserved()
    ensures Declare(h, b, user, line, typeName) == (false, user)
  {
  }

  /** A declaration whose body does not hold exactly one `=` fails and changes nothing. */
  lemma DeclareNeedsOneEquals<V>(h: Host<V>, b: Builtins<V>, user: map<string, V>, line: string, typeName: string)
    requires Count(DeclarationBody(line, typeName), '=') != 1
    ensures Declare(h, b, user, line, typeName) == (false, user)
  {
  }

  /** In particular a declaration written with `==` fails and changes nothing. */
  lemma DeclareRefusesDoubleEquals<V>(h: Host<V>, b: Builtins<V>, user: map<string, V>, line: string, typeName: string, k: nat)
    requires k + 1 < |DeclarationBody(line, typeName)|
    requires DeclarationBody(line, typeName)[k] == '=' && DeclarationBody(line, typeName)[k + 1] == '='
    ensures Declare(h, b, user, line, typeName) == (false, user)
  {
    CountAdjacent(DeclarationBody(line, typeName), '=', k);
  }

  /** A declaration whose conversion raises fails and changes nothing. */
  lemma DeclareConversionFailure<V>(h: Host<V>, b: Builtins<V>, user: map<string, V>, line: string, typeName: string)
    requires |DeclarationParts(line, typeName)| == 2
    requires var parts := DeclarationParts(line, typeName); h.convert(typeName, parts[1], parts, user).None?
    ensures Declare(h, b, user, line, typeName) == (false, user)
  {
  }

  /** A declaration never gives a user variable a builtin name. */
  lemma DeclareKeepsReservedFree<V>(h: Host<V>, b: Builtins<V>, user: map<string, V>, line: string, typeName: string)
    requires user.Keys !! b.Reserved()
    ensures Declare(h, b, user, line, typeName).1.Keys !! b.Reserved()
  {
  }

  // ---------------------------------------------------------------------------
  // Dispatch

  /** A line is a declaration exactly when it starts with a type keyword, and its type name is its first space-separated token. */
  lemma DeclarationTypeIsFirstToken(line: string)
    ensures Classify(line).Declaration? <==> HasTypePrefix(line)
    ensures Classify(line).Declaration? ==> Classify(line).typeName == Before(line, ' ')
  {
    SplitFirstPiece(line, ' ');
    if StartsWith(line, "float") {
      assert StartsWith(line, TypeKeywords[2]);
    } else if StartsWith(line, "bool") {
      assert StartsWith(line, TypeKeywords[3]);
    } else if StartsWith(line, "str") {
      assert StartsWith(line, TypeKeywords[1]);
    } else if StartsWith(line, "int") {
      assert StartsWith(line, TypeKeywords[0]);
    }
  }

  /**
   * The rest of the dispatch: an `if` prefix (which no type keyword shares)
   * makes a conditional, and a line with neither prefix is an expression.
   */
  lemma DispatchByPrefix(line: string)
    ensures StartsWith(line, "if") ==> Classify(line) == Conditional
    ensures !HasTypePrefix(line) && !StartsWith(line, "if") ==> Classify(line) == Expression
  {
    DeclarationTypeIsFirstToken(line);
    if StartsWith(line, "if") {
      assert line[1] == 'f';
    }
  }

  /** A text starting with whitespace starts with no word. */
  lemma NoWordAfterSpace(line: string, word: string)
    requires line != [] && IsSpace(line[0])
    requires word != [] && !IsSpace(word[0])
    ensures !StartsWith(line, word)
  {
    if |word| <= |line| {
      assert line[..|word|][0] != word[0];
    }
  }

  /** An empty text, or one with leading whitespace, is always evaluated as an expression, so it never declares anything. */
  lemma LeadingSpaceIsExpression<V>(h: Host<V>, b: Builtins<V>, user: map<string, V>, line: string)
    requires line == [] || IsSpace(line[0])
    ensures Classify(line) == Expression
    ensures Run(h, b, user, line).1 == user
  {
    if line == [] {
      return;
    }
    NoWordAfterSpace(line, "int");
    NoWordAfterSpace(line, "str");
    NoWordAfterSpace(line, "float");
    NoWordAfterSpace(line, "bool");
    NoWordAfterSpace(line, "if");
  }

  /** A line that starts with a type keyword but holds no `=` is a failed declaration, even when it was meant as an expression such as `int(x) > 1`. */
  lemma KeywordLineWithoutEqualsIsRefused<V>(h: Host<V>, b: Builtins<V>, user: map<string, V>, line: string)
    requires HasTypePrefix(line) && '=' !in line
    ensures Run(h, b, user, line) == (Declared(false), user)
  {
    DeclarationTypeIsFirstToken(line);
    var body := DeclarationBody(line, Classify(line).typeName);
    StripTrims(line);
    assert '=' !in body;
  }

  // ---------------------------------------------------------------------------
  // Conditionals

  /** A conditional line replies None or raises; it never returns its branch's reply. */
  lemma ConditionalRepliesNothing<V>(h: Host<V>, b: Builtins<V>, user: map<string, V>, line: string)
    requires Classify(line) == Conditional
    ensures Run(h, b, user, line).0 in {NoReply, Raised}
  {
  }

  /** A conditional line without `?` raises (the missing second piece) and changes nothing. */
  lemma ConditionalWithoutQuestionMarkRaises<V>(h: Host<V>, b: Builtins<V>, user: map<string, V>, line: string)
    requires Classify(line) == Conditional && '?' !in line
    ensures Run(h, b, user, line) == (Raised, user)
  {
    var body := ConditionalBody(line);
    StripTrims(line);
    assert '?' !in body;
  }

  /** A condition whose evaluation or truth test raises makes the line raise, with nothing changed. */
  lemma FailingConditionRaises<V>(h: Host<V>, b: Builtins<V>, user: map<string, V>, line: string)
    requires Classify(line) == Conditional && '?' in ConditionalBody(line)
    requires var c := h.eval(ConditionText(line), b.Env(user)); c.None? || h.truth(c.value).None?
    ensures Run(h, b, user, line) == (Raised, user)
  {
    SplitPieces(ConditionalBody(line), '?');
  }

  /** A conditional that chooses a branch has that branch's effect, with its reply dropped. */
  lemma RunsChosen<V>(h: Host<V>, b: Builtins<V>, user: map<string, V>, line: string, text: string)
    requires Classify(line) == Conditional && Choose(h, b, user, line) == Runs(text)
    ensures Run(h, b, user, line) == Discard(Run(h, b, user, text))
  {
  }

  /** A condition that holds runs the text between `?` and the first `:`, and nothing else. */
  lemma TrueConditionRunsThen<V>(h: Host<V>, b: Builtins<V>, user: map<string, V>, line: string)
    requires Classify(line) == Conditional && '?' in ConditionalBody(line)
    requires var c := h.eval(ConditionText(line), b.Env(user)); c.Some? && h.truth(c.value) == Some(true)
    ensures Run(h, b, user, line) == Discard(Run(h, b, user, ThenText(line)))
  {
    var parts := Split(ConditionalBody(line), '?');
    assert parts[0] == ConditionText(line) && parts[1] == BranchText(line) by {
      SplitPieces(ConditionalBody(line), '?');
    }
    assert Split(parts[1], ':')[0] == ThenText(line) by {
      SplitPieces(BranchText(line), ':');
    }
    assert Choose(h, b, user, line) == Runs(ThenText(line));
    RunsChosen(h, b, user, line, ThenText(line));
  }

  /** A condition that fails runs the text after the first `:` (up to the next), when there is a `:`. */
  lemma FalseConditionRunsElse<V>(h: Host<V>, b: Builtins<V>, user: map<string, V>, line: string)
    requires Classify(line) == Conditional && '?' in ConditionalBody(line) && ':' in BranchText(line)
    requires var c := h.eval(ConditionText(line), b.Env(user)); c.Some? && h.truth(c.value) == Some(false)
    ensures Run(h, b, user, line) == Discard(Run(h, b, user, ElseText(line)))
  {
    var parts := Split(ConditionalBody(line), '?');
    assert parts[0] == ConditionText(line) && parts[1] == BranchText(line) by {
      SplitPieces(ConditionalBody(line), '?');
    }
    assert Split(parts[1], ':')[1] == ElseText(line) by {
      SplitPieces(BranchText(line), ':');
    }
    assert Choose(h, b, user, line) == Runs(ElseText(line));
    RunsChosen(h, b, user, line, ElseText(line));
  }

  /** A condition that fails with no `:` in the branches does nothing. */
  lemma FalseConditionWithoutElse<V>(h: Host<V>, b: Builtins<V>, user: map<string, V>, line: string)
    requires Classify(line) == Conditional && '?' in ConditionalBody(line) && ':' !in BranchText(line)
    requires var c := h.eval(ConditionText(line), b.Env(user)); c.Some? && h.truth(c.value) == Some(false)
    ensures Run(h, b, user, line) == (NoReply, user)
  {
    SplitPieces(ConditionalBody(line), '?');
  }

  /**
   * A branch is cut at `?`, so it holds none and a conditional in a branch
   * has no second `?`-piece: the nested conditional raises, and so does the
   * line, with nothing changed. Nesting never goes past one level.
   */
  lemma NestedConditionalRaises<V>(h: Host<V>, b: Builtins<V>, user: map<string, V>, line: string)
    requires Classify(line) == Conditional
    requires Choose(h, b, user, line).Runs? && Classify(Choose(h, b, user, line).text) == Conditional
    ensures Run(h, b, user, line) == (Raised, user)
  {
    var parts := Split(ConditionalBody(line), '?');
    var text := Choose(h, b, user, line).text;
    var command := Split(parts[1], ':');
    assert text == command[0] || text == command[1];
    assert '?' !in parts[1] by {
      SplitPieces(ConditionalBody(line), '?');
    }
    SplitKeepsAbsent(parts[1], ':', '?');
    assert '?' !in text;
    RunsChosen(h, b, user, line, text);
    ConditionalWithoutQuestionMarkRaises(h, b, user, text);
  }

  // ---------------------------------------------------------------------------
  // Expressions

  /**
   * An expression line never raises and never changes the variables; it
   * replies None exactly when evaluation raises, and otherwise with the value.
   */
  lemma ExpressionSwallowsFaults<V>(h: Host<V>, b: Builtins<V>, user: map<string, V>, line: string)
    requires Classify(line) == Expression
    ensures Run(h, b, user, line).1 == user
    ensures Run(h, b, user, line).0 == NoReply <==> h.eval(line, b.Env(user)).None?
    ensures !Run(h, b, user, line).0.Raised?
    ensures h.eval(line, b.Env(user)).Some? ==> Run(h, b, user, line).0 == Evaluated(h.eval(line, b.Env(user)).value)
  {
  }

  // ---------------------------------------------------------------------------
  // Whole lines

  /** No line, however nested, gives a user variable a builtin name. */
  lemma {:induction false} RunKeepsReservedFree<V>(h: Host<V>, b: Builtins<V>, user: map<string, V>, line: string)
    requires user.Keys !! b.Reserved()
    ensures Run(h, b, user, line).1.Keys !! b.Reserved()
    decreases |line|
  {
    match Classify(line)
    case Declaration(t) =>
      DeclareKeepsReservedFree(h, b, user, line, t);
    case Conditional =>
      if Choose(h, b, user, line).Runs? {
        RunKeepsReservedFree(h, b, user, Choose(h, b, user, line).text);
      }
    case Expression =>
  }

  /** A line that raises leaves the variables as they were. */
  lemma {:induction false} RaisedChangesNothing<V>(h: Host<V>, b: Builtins<V>, user: map<string, V>, line: string)
    requires Run(h, b, user, line).0 == Raised
    ensures Run(h, b, user, line).1 == user
    decreases |line|
  {
    if Classify(line) == Conditional && Choose(h, b, user, line).Runs? {
      RaisedChangesNothing(h, b, user, Choose(h, b, user, line).text);
    }
  }

  /** A line never removes a user variable. */
  lemma {:induction false} RunKeepsVariables<V>(h: Host<V>, b: Builtins<V>, user: map<string, V>, line: string)
    ensures user.Keys <= Run(h, b, user, line).1.Keys
    decreases |line|
  {
    if Classify(line) == Conditional && Choose(h, b, user, line).Runs? {
      RunKeepsVariables(h, b, user, Choose(h, b, user, line).text);
    }
  }

  /** A branch written with a space after `?` and after `:` is never a declaration, so such a conditional changes no variable. */
  lemma SpacedBranchesNeverDeclare<V>(h: Host<V>, b: Builtins<V>, user: map<string, V>, line: string)
    requires Classify(line) == Conditional && '?' in ConditionalBody(line)
    requires ThenText(line) == [] || IsSpace(ThenText(line)[0])
    requires ':' in BranchText(line) ==> ElseText(line) == [] || IsSpace(ElseText(line)[0])
    ensures Run(h, b, user, line).1 == user
  {
    var c := h.eval(ConditionText(line), b.Env(user));
    if c.None? || h.truth(c.value).None? {
      FailingConditionRaises(h, b, user, line);
    } else if h.truth(c.value).value {
      TrueConditionRunsThen(h, b, user, line);
      LeadingSpaceIsExpression(h, b, user, ThenText(line));
    } else if ':' in BranchText(line) {
      FalseConditionRunsElse(h, b, user, line);
      LeadingSpaceIsExpression(h, b, user, ElseText(line));
    } else {
      FalseConditionWithoutElse(h, b, user, line);
    }
  }

  /** The declaration line `<keyword> <name> = <value>`. */
  function DeclarationLine(keyword: string, name: string, value: string): string {
    keyword + " " + name + " = " + value
  }

  /** A declaration line is its keyword followed by two `=`-free pieces joined by `=`. */
  lemma DeclarationLineShape(keyword: string, name: string, value: string)
    ensures var line := DeclarationLine(keyword, name, value);
            line == keyword + Join([" " + name + " ", " " + value], '=')
  {
    var left := " " + name + " ";
    var right := " " + value;
    calc {
      DeclarationLine(keyword, name, value);
      keyword + " " + name + " = " + value;
      keyword + (left + "=" + right);
    }
  }

  /** The `=`-pieces of a declaration line, stripped, are its name and its value. */
  lemma PaddedPairParts(name: string, value: string)
    requires Trimmed(name) && Trimmed(value) && '=' !in name && '=' !in value
    ensures StripEach(Split(Join([" " + name + " ", " " + value], '='), '=')) == [name, value]
  {
    var left := " " + name + " ";
    var right := " " + value;
    assert '=' !in left && '=' !in right;
    SplitJoin([left, right], '=');
    StripPadded(" ", name, " ");
    StripPadded(" ", value, "");
    assert " " + value + "" == right;
    assert StripEach([left, right]) == [Strip(left)] + StripEach([right]);
  }

  /** A line whose first space-separated token is a type keyword is a declaration of that type. */
  lemma KeywordTokenIsDeclaration(line: string, keyword: string)
    requires keyword in TypeKeywords
    requires |keyword| < |line| && line[..|keyword|] == keyword && line[|keyword|] == ' '
    ensures Classify(line) == Declaration(keyword)
  {
    var i :| 0 <= i < |TypeKeywords| && TypeKeywords[i] == keyword;
    assert ' ' !in keyword;
    assert StartsWith(line, TypeKeywords[i]);
    DeclarationTypeIsFirstToken(line);
    IndexOfFirst(line, ' ', |keyword|);
  }

  /** A declaration line is classified by its keyword. */
  lemma DeclarationLineKind(keyword: string, name: string, value: string)
    requires keyword in TypeKeywords
    ensures Classify(DeclarationLine(keyword, name, value)) == Declaration(keyword)
  {
    var line := DeclarationLine(keyword, name, value);
    assert line[..|keyword|] == keyword && line[|keyword|] == ' ';
    KeywordTokenIsDeclaration(line, keyword);
  }

  /** A line that neither starts nor ends with whitespace is declared from the text after its type name. */
  lemma TrimmedDeclarationBody(line: string, keyword: string, body: string)
    requires Trimmed(line) && line == keyword + body
    ensures DeclarationParts(line, keyword) == StripEach(Split(body, '='))
  {
    StripTrimmed(line);
    assert DeclarationBody(line, keyword) == body;
  }

  /** A well-formed declaration line splits into its name and its value. */
  lemma DeclarationLineParts(keyword: string, name: string, value: string)
    requires keyword in TypeKeywords
    requires Trimmed(name) && Trimmed(value) && '=' !in name && '=' !in value
    ensures DeclarationParts(DeclarationLine(keyword, name, value), keyword) == [name, value]
  {
    var line := DeclarationLine(keyword, name, value);
    var body := Join([" " + name + " ", " " + value], '=');
    DeclarationLineShape(keyword, name, value);
    assert keyword != [] && !IsSpace(keyword[0]);
    assert line[0] == keyword[0] && line[|line| - 1] == value[|value| - 1];
    TrimmedDeclarationBody(line, keyword, body);
    PaddedPairParts(name, value);
  }

  /**
   * Interpreting `<keyword> <name> = <value>` for a name that is not builtin
   * binds the name to the converted value when the conversion succeeds, after
   * which `eval` sees that value under that name; otherwise it changes nothing.
   */
  lemma DeclarationLineBinds<V>(h: Host<V>, b: Builtins<V>, user: map<string, V>, keyword: string, name: string, value: string)
    requires keyword in TypeKeywords
    requires Trimmed(name) && Trimmed(value) && '=' !in name && '=' !in value
    requires name !in b.Reserved()
    ensures var (reply, after) := Run(h, b, user, DeclarationLine(keyword, name, value));
            var converted := h.convert(keyword, value, [name, value], user);
            && reply == Declared(converted.Some?)
            && (converted.Some? ==> after == user[name := converted.value] && b.Env(after)[name] == converted.value)
            && (converted.None? ==> after == user)
  {
    DeclarationLineKind(keyword, name, value);
    DeclarationLineParts(keyword, name, value);
  }
}
