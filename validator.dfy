/**
 * The validator's rule registry: a fixed table of named rules, each with a
 * handler, a default error template and a parameter schema, and the
 * rendering of a rule's error message from its template.
 */
module Validator {
  import opened Wrappers
  import opened Strings
  import opened Values
  import opened Arrays

  /** A separator for `explode`; PHP throws a ValueError on an empty one. */
  type Separator = s: string | s != "" witness " "

  /** The closures stored in the table. */
  datatype Handler = RequiredHandler | MinHandler | UniqueHandler

  /** A rule's `handler` entry: a callable, or a value `is_callable` rejects. */
  datatype HandlerSlot = Callable(h: Handler) | NotCallable

  /** A rule's `params` entry: an optional `separator` and an optional ordered list `name` of placeholder names. */
  datatype ParamSchema = ParamSchema(separator: Option<Separator>, names: Option<seq<string>>)

  /** A rule record; an absent `handler` or `params` entry is None. */
  datatype Rule = Rule(handler: Option<HandlerSlot>, error: string, params: Option<ParamSchema>)

  /** What PHP throws here: an `\Exception` with a code, or a TypeError from a built-in. */
  datatype Throwable = Exception(message: string, code: int) | TypeError(message: string)

  /** `available_rules`: rule name to rule record, in registration order. */
  type RuleTable = Entries<Rule>

  /**
   * The default templates, written as text around their placeholders:
   * "Field ':field:' is required",
   * "Value for ':field:' is must be at least :min: symbols" and
   * "Value is already exists in table ':table:' for field ':field:'".
   */
  const RequiredTemplate := "Field '" + (":field:" + "' is required")
  const MinTemplate := "Value for '" + (":field:" + ("' is must be at least " + (":min:" + " symbols")))
  const UniqueTemplate := "Value is already exists in table '" + (":table:" + ("' for field '" + (":field:" + "'")))

  /** The table the constructor writes: `required`, `min` and `unique`, in that order. */
  function AvailableRules(): (t: RuleTable)
    ensures Rules(t) == ["required", "min", "unique"]
    ensures DistinctKeys(t)
    ensures forall e :: e in t ==> e.1.handler.Some? && e.1.handler.value.Callable? && e.1.params.Some?
  {
    [ ("required", Rule(Some(Callable(RequiredHandler)), RequiredTemplate, Some(ParamSchema(None, None)))),
      ("min", Rule(Some(Callable(MinHandler)), MinTemplate, Some(ParamSchema(None, Some(["min"]))))),
      ("unique", Rule(Some(Callable(UniqueHandler)), UniqueTemplate, Some(ParamSchema(Some("."), Some(["table", "field"])))))
    ]
  }

  /** `ruleExists`. */
  predicate RuleExists(rules: RuleTable, rule: string) {
    HasKey(rules, rule)
  }

  /** `rules`: the registered names in registration order. */
  function Rules(rules: RuleTable): (names: seq<string>)
    ensures |names| == |rules|
    ensures forall i :: 0 <= i < |rules| ==> names[i] == rules[i].0
    ensures forall k :: k in names <==> RuleExists(rules, k)
  {
    Keys(rules)
  }

  /** The registry holds exactly the three built-in rules. */
  lemma RuleExistsIff(rule: string)
    ensures RuleExists(AvailableRules(), rule) <==> rule in ["required", "min", "unique"]
  {
  }

  // ---------------------------------------------------------------------
  // ruleHandler

  /**
   * `ruleHandler`: the rule's callable; an exception with code 500 for an
   * unregistered rule or a rule without handler; null (None) when the
   * handler entry is set but not callable, because the function then ends
   * without a return.
   */
  function RuleHandler(rules: RuleTable, rule: string): (r: Result<Option<Handler>, Throwable>)
    ensures r == Err(Exception("Validator does not have " + rule, 500)) <==> !RuleExists(rules, rule)
    ensures r == Err(Exception("Handler for " + rule + " does not set", 500)) <==>
      RuleExists(rules, rule) && Lookup(rules, rule).value.handler.None?
    ensures r.Ok? <==> RuleExists(rules, rule) && Lookup(rules, rule).value.handler.Some?
    ensures r.Ok? && r.value.Some? <==> RuleExists(rules, rule) && Lookup(rules, rule).value.handler.Some? && Lookup(rules, rule).value.handler.value.Callable?
    ensures r.Ok? && r.value.Some? ==> Lookup(rules, rule).value.handler == Some(Callable(r.value.value))
  {
    match Lookup(rules, rule)
    case None => Err(Exception("Validator does not have " + rule, 500))
    case Some(def) =>
      match def.handler
      case None =>
        assert ("Handler for " + rule + " does not set")[0] != ("Validator does not have " + rule)[0];
        Err(Exception("Handler for " + rule + " does not set", 500))
      case Some(Callable(h)) => Ok(Some(h))
      case Some(NotCallable) => Ok(None)
  }

  /** On the built-in table every registered rule yields its own handler and every other name throws. */
  lemma RuleHandlerOfAvailable(rule: string)
    ensures RuleHandler(AvailableRules(), rule) ==
      if rule == "required" then Ok(Some(RequiredHandler))
      else if rule == "min" then Ok(Some(MinHandler))
      else if rule == "unique" then Ok(Some(UniqueHandler))
      else Err(Exception("Validator does not have " + rule, 500))
  {
  }

  // ---------------------------------------------------------------------
  // the handlers

  /**
   * The SQL text the `unique` handler sends: `explode('.', param, 2)` gives
   * the table and the column (undefined, hence empty, when there is no dot),
   * and the value is interpolated as it is.
   */
  function UniqueQuery(param: string, value: Value): string {
    var parts := ExplodeLimit(".", param, 2);
    var table := parts[0];
    var column := if |parts| > 1 then parts[1] else "";
    "SELECT * FROM `" + table + "` WHERE `" + column + "` = '" + ToPhpString(value) + "'"
  }

  /**
   * Calling a handler with the field's value and the rule's parameter. The
   * database behind `unique` is the parameter `rowCount`, the number of rows
   * a query returns.
   */
  function Call(h: Handler, value: Value, param: string, rowCount: string -> nat): Result<bool, Throwable> {
    match h
    case RequiredHandler => Ok(!IsEmpty(value))
    case MinHandler =>
      (match StrLen(value)
       case Some(n) => Ok(n >= StrToInt(param))
       case None => Err(TypeError("strlen(): Argument #1 ($string) must be of type string, array given")))
    case UniqueHandler => Ok(!(rowCount(UniqueQuery(param, value)) > 0))
  }

  /** `required` passes exactly on the values `empty()` does not accept. */
  lemma RequiredPasses(v: Value, param: string, rowCount: string -> nat)
    ensures Call(RequiredHandler, v, param, rowCount) ==
      Ok(v !in {Null, Bool(false), Int(0), Str(""), Str("0"), Arr([])})
  {
    EmptyValues(v);
  }

  /** `min:n` passes on a string exactly when it has at least `n` characters; a missing value has length 0. */
  lemma {:induction false} MinPasses(s: string, i: int, n: int, rowCount: string -> nat)
    ensures Call(MinHandler, Str(s), DecimalString(n), rowCount) == Ok(|s| >= n)
    ensures Call(MinHandler, Null, DecimalString(n), rowCount) == Ok(n <= 0)
    ensures Call(MinHandler, Int(i), DecimalString(n), rowCount) == Ok(|DecimalString(i)| >= n)
  {
    MinAgainstDecimal(Str(s), n, rowCount);
    MinAgainstDecimal(Null, n, rowCount);
    MinAgainstDecimal(Int(i), n, rowCount);
  }

  /** `min:n`, with `n` written in decimal, compares the value's length with `n`. */
  lemma MinAgainstDecimal(v: Value, n: int, rowCount: string -> nat)
    requires !v.Arr?
    ensures Call(MinHandler, v, DecimalString(n), rowCount) == Ok(StrLen(v).value >= n)
  {
    DecimalRoundTrip(n);
  }

  /** `min` throws a TypeError on an array and on nothing else. */
  lemma MinRejectsArrays(v: Value, param: string, rowCount: string -> nat)
    ensures Call(MinHandler, v, param, rowCount).Err? <==> v.Arr?
  {
  }

  /** `unique` passes exactly when the query for `table.column` and the value returns no rows. */
  lemma UniquePasses(table: string, column: string, v: Value, rowCount: string -> nat)
    requires '.' !in table
    ensures UniqueQuery(table + "." + column, v) ==
      "SELECT * FROM `" + table + "` WHERE `" + column + "` = '" + ToPhpString(v) + "'"
    ensures Call(UniqueHandler, v, table + "." + column, rowCount) ==
      Ok(rowCount("SELECT * FROM `" + table + "` WHERE `" + column + "` = '" + ToPhpString(v) + "'") == 0)
  {
    var p := table + "." + column;
    assert p == table + ("." + column);
    ExplodeSkip(".", table, "." + column);
    ExplodeMatch(".", column);
    var rest := Explode(".", column);
    assert Explode(".", "." + column) == [""] + rest;
    assert table + "" == table;
    assert ([""] + rest)[1..] == rest;
    assert Explode(".", p) == [table] + rest;
    ImplodeExplode(".", column);
    var parts := ExplodeLimit(".", p, 2);
    if |rest| > 1 {
      assert parts == [table, Implode(".", rest)];
    } else {
      assert parts == [table, rest[0]];
    }
  }

  /** Without a dot the whole parameter is the table and the column is empty. */
  lemma UniqueWithoutColumn(table: string, v: Value)
    requires '.' !in table
    ensures UniqueQuery(table, v) == "SELECT * FROM `" + table + "` WHERE `` = '" + ToPhpString(v) + "'"
  {
    ExplodeSkip(".", table, "");
    assert table + "" == table;
  }

  // ---------------------------------------------------------------------
  // ruleError

  /** The regular expression `/:name:/` built for a placeholder name, as a literal pattern. */
  function Placeholder(name: string): (p: string)
    ensures p != "" && p[0] == ':'
  {
    ":" + name + ":"
  }

  /**
   * `preg_replace` with an array of placeholder patterns and an array of
   * replacements: each placeholder in turn replaces all its occurrences in
   * the current text with the value at the same position, or with "" when
   * there are fewer values than names.
   */
  function ReplacePlaceholders(s: string, names: seq<string>, values: seq<string>): string
    decreases |names|
  {
    if |names| == 0 then s
    else
      var v := if |values| > 0 then values[0] else "";
      ReplacePlaceholders(ReplaceAll(s, Placeholder(names[0]), v), names[1..], if |values| > 0 then values[1..] else [])
  }

  /**
   * `ruleError`: the override message, or the rule's template when the
   * override is empty; the parameter split on the rule's separator (a space
   * when none is set) fills the named placeholders; finally every `:field:`
   * becomes the field name. For an unregistered rule the template reads as
   * null, that is as "".
   */
  function RuleError(rules: RuleTable, field: string, ruleName: string, ruleParam: string, message: string): string {
    var rule := Lookup(rules, ruleName);
    var template := if message == "" then (if rule.Some? then rule.value.error else "") else message;
    var filled :=
      if rule.Some? && rule.value.params.Some? then
        var schema := rule.value.params.value;
        var values := Explode(if schema.separator.Some? then schema.separator.value else " ", ruleParam);
        if schema.names.Some? then ReplacePlaceholders(template, schema.names.value, values) else template
      else template;
    ReplaceAll(filled, ":field:", field)
  }

  lemma {:induction false} ReplacePlaceholdersFree(s: string, names: seq<string>, values: seq<string>)
    requires ':' !in s
    ensures ReplacePlaceholders(s, names, values) == s
    decreases |names|
  {
    if |names| > 0 {
      var v := if |values| > 0 then values[0] else "";
      ReplaceAllFree(s, Placeholder(names[0]), v);
      ReplacePlaceholdersFree(s, names[1..], if |values| > 0 then values[1..] else []);
    }
  }

  /** A non-empty override without any ':' comes out verbatim, whatever the rule. */
  lemma OverrideVerbatim(rules: RuleTable, field: string, ruleName: string, ruleParam: string, message: string)
    requires message != "" && ':' !in message
    ensures RuleError(rules, field, ruleName, ruleParam, message) == message
  {
    var rule := Lookup(rules, ruleName);
    if rule.Some? && rule.value.params.Some? && rule.value.params.value.names.Some? {
      var schema := rule.value.params.value;
      var values := Explode(if schema.separator.Some? then schema.separator.value else " ", ruleParam);
      ReplacePlaceholdersFree(message, schema.names.value, values);
    }
    ReplaceAllFree(message, ":field:", field);
  }

  /** A non-empty override acts exactly as if it were the rule's template: it goes through the same substitutions. */
  lemma OverrideActsAsTemplate(rules: RuleTable, field: string, ruleName: string, ruleParam: string, message: string)
    requires message != "" && RuleExists(rules, ruleName)
    ensures RuleError(rules, field, ruleName, ruleParam, message) ==
      RuleError(Put(rules, ruleName, Lookup(rules, ruleName).value.(error := message)), field, ruleName, ruleParam, "")
  {
    LookupPut(rules, ruleName, Lookup(rules, ruleName).value.(error := message), ruleName);
  }

  /** An empty override selects the rule's default template. */
  lemma EmptyOverrideSelectsTemplate(rules: RuleTable, field: string, ruleName: string, ruleParam: string)
    requires RuleExists(rules, ruleName)
    ensures RuleError(rules, field, ruleName, ruleParam, "") ==
      RuleError(rules, field, ruleName, ruleParam, Lookup(rules, ruleName).value.error)
  {
  }

  /** For an unregistered rule only `:field:` is replaced, and with no override the message is empty. */
  lemma UnregisteredRuleError(rules: RuleTable, field: string, ruleName: string, ruleParam: string, message: string)
    requires !RuleExists(rules, ruleName)
    ensures RuleError(rules, field, ruleName, ruleParam, message) == ReplaceAll(message, ":field:", field)
    ensures RuleError(rules, field, ruleName, ruleParam, "") == ""
  {
  }

  /** `required` has no placeholder names: only the field name is filled in. */
  lemma RequiredError(field: string, ruleParam: string)
    ensures RuleError(AvailableRules(), field, "required", ruleParam, "") == "Field '" + field + "' is required"
  {
    ReplaceAllOnce("Field '", ":field:", "' is required", field);
  }

  /** Filling `:min:` in a template shaped like the `min` one. */
  lemma FillMinShape(a: string, b: string, c: string, d: string, seg: string)
    requires ':' !in a && ':' !in b && ':' !in c && ':' !in d
    requires |b| > 0 && b[0] != 'm' && |c| > 0 && c[0] != 'm'
    ensures ReplaceAll(a + (":" + (b + (":" + (c + (":min:" + d))))), ":min:", seg) ==
      a + (":" + (b + (":" + (c + (seg + d)))))
  {
    var pat := ":min:";
    ReplaceAllMatch(d, pat, seg);
    ReplaceAllFree(d, pat, seg);
    ReplaceAllPastColon(c, pat + d, pat, seg);
    ReplaceAllPastColon(b, ":" + (c + (pat + d)), pat, seg);
    ReplaceAllSkip(a, ":" + (b + (":" + (c + (pat + d)))), pat, seg);
  }

  lemma MinErrorSteps(field: string, ruleParam: string)
    ensures RuleError(AvailableRules(), field, "min", ruleParam, "") ==
      ReplaceAll(ReplaceAll(MinTemplate, ":min:", Explode(" ", ruleParam)[0]), ":field:", field)
  {
    assert Placeholder("min") == ":min:";
  }

  lemma MinTemplatePieces()
    ensures MinTemplate == "Value for '" + (":" + ("field" + (":" + ("' is must be at least " + (":min:" + " symbols")))))
  {
    FieldPlaceholder("' is must be at least " + (":min:" + " symbols"));
  }

  /** `:field:` followed by some text, cut at its colons. */
  lemma FieldPlaceholder(x: string)
    ensures ":field:" + x == ":" + ("field" + (":" + x))
  {
  }

  lemma MinFieldPieces(field: string, seg: string)
    ensures "Value for '" + (":" + ("field" + (":" + ("' is must be at least " + (seg + " symbols"))))) ==
      "Value for '" + (":field:" + ("' is must be at least " + (seg + " symbols")))
    ensures "Value for '" + (field + ("' is must be at least " + (seg + " symbols"))) ==
      "Value for '" + field + "' is must be at least " + seg + " symbols"
  {
  }

  /** Both substitution steps on the `min` template. */
  lemma FillMinTemplate(field: string, seg: string)
    requires ':' !in seg
    ensures ReplaceAll(ReplaceAll(MinTemplate, ":min:", seg), ":field:", field) ==
      "Value for '" + field + "' is must be at least " + seg + " symbols"
  {
    var a, b, c, d := "Value for '", "field", "' is must be at least ", " symbols";
    MinTemplatePieces();
    FillMinShape(a, b, c, d, seg);
    MinFieldPieces(field, seg);
    assert ':' !in c + (seg + d);
    ReplaceAllOnce(a, ":field:", c + (seg + d), field);
  }

  /** `min` fills `:min:` with the first space-separated piece of the parameter, then `:field:`. */
  lemma MinError(field: string, ruleParam: string)
    requires ':' !in ruleParam
    ensures RuleError(AvailableRules(), field, "min", ruleParam, "") ==
      "Value for '" + field + "' is must be at least " + Explode(" ", ruleParam)[0] + " symbols"
  {
    ExplodePartsChars(" ", ruleParam, ':');
    MinErrorSteps(field, ruleParam);
    FillMinTemplate(field, Explode(" ", ruleParam)[0]);
  }

  /** Filling `:table:` in a template shaped like the `unique` one. */
  lemma FillUniqueShape(a: string, b: string, f: string, q: string, t0: string)
    requires ':' !in a && ':' !in b && ':' !in f && ':' !in q
    requires |f| > 0 && f[0] != 't' && |q| < 6
    ensures ReplaceAll(a + (":table:" + (b + (":" + (f + (":" + q))))), ":table:", t0) ==
      a + (t0 + (b + (":" + (f + (":" + q)))))
  {
    var tab := ":table:";
    ReplaceAllFree(q, tab, t0);
    ReplaceAllNoMatch(':', q, tab, t0);
    ReplaceAllPastColon(f, ":" + q, tab, t0);
    ReplaceAllSkip(b, ":" + (f + (":" + q)), tab, t0);
    ReplaceAllMatch(b + (":" + (f + (":" + q))), tab, t0);
    ReplaceAllSkip(a, tab + (b + (":" + (f + (":" + q)))), tab, t0);
  }

  lemma UniqueErrorSteps(field: string, ruleParam: string)
    ensures var parts := Explode(".", ruleParam);
      RuleError(AvailableRules(), field, "unique", ruleParam, "") ==
        ReplaceAll(ReplaceAll(ReplaceAll(UniqueTemplate, ":table:", parts[0]), ":field:", if |parts| > 1 then parts[1] else ""), ":field:", field)
  {
    assert Placeholder("table") == ":table:" && Placeholder("field") == ":field:";
  }

  lemma UniqueTemplatePieces()
    ensures UniqueTemplate == "Value is already exists in table '" + (":table:" + ("' for field '" + (":" + ("field" + (":" + "'")))))
  {
    FieldPlaceholder("'");
  }

  lemma UniqueColumnPieces(t0: string, t1: string)
    ensures "Value is already exists in table '" + (t0 + ("' for field '" + (":" + ("field" + (":" + "'"))))) ==
      ("Value is already exists in table '" + (t0 + "' for field '")) + (":field:" + "'")
    ensures ("Value is already exists in table '" + (t0 + "' for field '")) + (t1 + "'") ==
      "Value is already exists in table '" + t0 + "' for field '" + t1 + "'"
  {
  }

  /** The three substitution steps on the `unique` template. */
  lemma FillUniqueTemplate(field: string, t0: string, t1: string)
    requires ':' !in t0 && ':' !in t1
    ensures ReplaceAll(ReplaceAll(ReplaceAll(UniqueTemplate, ":table:", t0), ":field:", t1), ":field:", field) ==
      "Value is already exists in table '" + t0 + "' for field '" + t1 + "'"
  {
    var a, b, f, q := "Value is already exists in table '", "' for field '", "field", "'";
    UniqueTemplatePieces();
    FillUniqueShape(a, b, f, q, t0);
    UniqueColumnPieces(t0, t1);
    assert ':' !in a + (t0 + b);
    ReplaceAllOnce(a + (t0 + b), ":field:", q, t1);
    var filled := (a + (t0 + b)) + (t1 + q);
    assert ':' !in filled;
    ReplaceAllFree(filled, ":field:", field);
  }

  /**
   * `unique` fills `:table:` and then `:field:` from the dot-separated
   * parameter, a missing piece giving "", so the final `:field:` step has
   * nothing left to replace and the form field's name never appears.
   */
  lemma UniqueError(field: string, ruleParam: string)
    requires ':' !in ruleParam
    ensures var parts := Explode(".", ruleParam);
      RuleError(AvailableRules(), field, "unique", ruleParam, "") ==
        "Value is already exists in table '" + parts[0] + "' for field '" + (if |parts| > 1 then parts[1] else "") + "'"
  {
    var parts := Explode(".", ruleParam);
    ExplodePartsChars(".", ruleParam, ':');
    UniqueErrorSteps(field, ruleParam);
    FillUniqueTemplate(field, parts[0], if |parts| > 1 then parts[1] else "");
  }

  /** The `unique` message does not depend on the form field's name. */
  lemma UniqueErrorIgnoresField(field1: string, field2: string, ruleParam: string)
    requires ':' !in ruleParam
    ensures RuleError(AvailableRules(), field1, "unique", ruleParam, "") ==
      RuleError(AvailableRules(), field2, "unique", ruleParam, "")
  {
    UniqueError(field1, ruleParam);
    UniqueError(field2, ruleParam);
  }

  // ---------------------------------------------------------------------
  // the messages for parameters of the usual shapes

  /** A `min` parameter without spaces (such as "3") appears in the message as it is. */
  lemma MinErrorPlain(field: string, ruleParam: string)
    requires ':' !in ruleParam && ' ' !in ruleParam
    ensures RuleError(AvailableRules(), field, "min", ruleParam, "") ==
      "Value for '" + field + "' is must be at least " + ruleParam + " symbols"
  {
    MinError(field, ruleParam);
    ExplodeFree(" ", ruleParam);
  }

  /** `unique:table.column` names the table and the column, and not the form field. */
  lemma UniqueErrorTableColumn(field: string, table: string, column: string)
    requires ':' !in table && '.' !in table && ':' !in column && '.' !in column
    ensures RuleError(AvailableRules(), field, "unique", table + "." + column, "") ==
      "Value is already exists in table '" + table + "' for field '" + column + "'"
  {
    var p := table + ("." + column);
    assert table + "." + column == p;
    ExplodeSkip(".", table, "." + column);
    ExplodeMatch(".", column);
    ExplodeFree(".", column);
    assert table + "" == table;
    assert Explode(".", p) == [table, column];
    UniqueError(field, p);
  }

  /** `unique:table` without a column: the missing piece is replaced by "". */
  lemma UniqueErrorNoColumn(field: string, table: string)
    requires ':' !in table && '.' !in table
    ensures RuleError(AvailableRules(), field, "unique", table, "") ==
      "Value is already exists in table '" + table + "' for field ''"
  {
    ExplodeFree(".", table);
    UniqueError(field, table);
    NoColumnPieces(table);
  }

  lemma NoColumnPieces(t0: string)
    ensures "Value is already exists in table '" + t0 + "' for field '" + "" + "'" ==
      "Value is already exists in table '" + t0 + "' for field ''"
  {
  }

  /** `min:3` rejects "ab" and accepts "abc". */
  lemma MinThree(rowCount: string -> nat)
    ensures Call(MinHandler, Str("ab"), "3", rowCount) == Ok(false)
    ensures Call(MinHandler, Str("abc"), "3", rowCount) == Ok(true)
  {
    assert DecimalString(3) == "3";
    MinPasses("ab", 0, 3, rowCount);
    MinPasses("abc", 0, 3, rowCount);
  }

  /** The literal facts behind the `unique:users.email` example, kept apart because they are costly together. */
  lemma UsersEmailLiterals()
    ensures ':' !in "users" && '.' !in "users" && ':' !in "email" && '.' !in "email"
    ensures "users" + "." + "email" == "users.email"
  {
  }

  lemma UniqueMessageLiterals()
    ensures "Value is already exists in table '" + "users" + "' for field '" + "email" + "'" ==
      "Value is already exists in table 'users' for field 'email'"
    ensures "Value is already exists in table '" + "users" + "' for field ''" ==
      "Value is already exists in table 'users' for field ''"
  {
  }

  /** `ruleError(field, 'min', '3')` asks for at least 3 symbols. */
  lemma MinErrorThree(field: string)
    ensures RuleError(AvailableRules(), field, "min", "3", "") ==
      "Value for '" + field + "' is must be at least " + "3" + " symbols"
  {
    assert ':' !in "3" && ' ' !in "3";
    MinErrorPlain(field, "3");
  }

  /** `unique:users.email` and `unique:users` name the table and the column, never the form field. */
  lemma UniqueErrorUsers(field: string)
    ensures RuleError(AvailableRules(), field, "unique", "users.email", "") ==
      "Value is already exists in table 'users' for field 'email'"
    ensures RuleError(AvailableRules(), field, "unique", "users", "") ==
      "Value is already exists in table 'users' for field ''"
  {
    UsersEmailLiterals();
    UniqueErrorTableColumn(field, "users", "email");
    UniqueErrorNoColumn(field, "users");
    UniqueMessageLiterals();
  }
}
