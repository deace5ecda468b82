/**
 * The connection-parameter overlay of `Helper::loadConnectionParams`: a
 * defaults table, overwritten entry by entry by the TYPO3 configuration
 * variables `typo_db`, `typo_db_username`, `typo_db_password` and
 * `typo_db_host` found among the parsed statements of the configuration file.
 */
module Helper {
  import opened Wrappers

  /** A PHP value held in the parameter table. */
  datatype Param = Null | Text(s: string) | Int(i: int) | IntMap(m: map<int, string>)

  /** The connection parameters, by name. */
  type Params = map<string, Param>

  /**
   * A top-level statement of the parsed configuration file: the name of the
   * variable it assigns when its `var` is set and is a plain variable (None
   * otherwise), and the `value` of its right-hand side (Null when it has none).
   */
  datatype Statement = Statement(variable: Option<string>, value: Param)

  /** `$connectionDefaults`. */
  const ConnectionDefaults: Params := map[
    "dbname" := Text("db"),
    "user" := Text("root"),
    "password" := Text(""),
    "host" := Text(""),
    "driver" := Text("pdo_mysql"),
    "charset" := Text("utf8"),
    "driverOptions" := IntMap(map[1002 := "SET NAMES utf8"])
  ]

  /** `$connectionParameterMap`, in its declared order: parameter name, then the TYPO3 variable that sets it. */
  const ConnectionParameterMap: seq<(string, string)> := [
    ("dbname", "typo_db"),
    ("user", "typo_db_username"),
    ("password", "typo_db_password"),
    ("host", "typo_db_host")
  ]

  /** `array_search($name, $table)`: the key of the first entry whose value is `name`. */
  function ArraySearch(name: string, table: seq<(string, string)>): (r: Option<string>)
    ensures r.None? <==> forall i :: 0 <= i < |table| ==> table[i].1 != name
    ensures r.Some? ==> exists i :: 0 <= i < |table| && table[i] == (r.value, name) &&
                                    forall j :: 0 <= j < i ==> table[j].1 != name
  {
    if table == [] then None
    else if table[0].1 == name then Some(table[0].0)
    else
      var r := ArraySearch(name, table[1..]);
      assert forall i :: 1 <= i < |table| ==> table[i] == table[1..][i - 1];
      r
  }

  /** The parameter a TYPO3 variable sets, if it is one of the recognised four. */
  function ParameterOf(name: string): Option<string>
  {
    ArraySearch(name, ConnectionParameterMap)
  }

  /** The TYPO3 variable that sets parameter `key`, if any. */
  function VariableOf(key: string): Option<string>
  {
    if key == "dbname" then Some("typo_db")
    else if key == "user" then Some("typo_db_username")
    else if key == "password" then Some("typo_db_password")
    else if key == "host" then Some("typo_db_host")
    else None
  }

  /** The value of the last statement that assigns variable `name`. */
  function LastAssignment(statements: seq<Statement>, name: string): Option<Param>
  {
    if statements == [] then None
    else if statements[|statements| - 1].variable == Some(name) then Some(statements[|statements| - 1].value)
    else LastAssignment(statements[..|statements| - 1], name)
  }

  /** The value parameter `key` ends with: the last one assigned to its TYPO3 variable, else its default. */
  function Setting(statements: seq<Statement>, key: string): Param
    requires key in ConnectionDefaults
  {
    match VariableOf(key)
    case None => ConnectionDefaults[key]
    case Some(v) =>
      match LastAssignment(statements, v)
      case None => ConnectionDefaults[key]
      case Some(p) => p
  }

  /** The parameters the configuration yields: every default parameter, at its setting. */
  function Loaded(statements: seq<Statement>): (params: Params)
    ensures params.Keys == ConnectionDefaults.Keys
    ensures forall k :: k in params && VariableOf(k).None? ==> params[k] == ConnectionDefaults[k]
  {
    map k | k in ConnectionDefaults :: Setting(statements, k)
  }

  /** `array_search` over the name table, one entry at a time. */
  lemma ParameterOfUnfolded(name: string)
    ensures ParameterOf(name) ==
      if name == "typo_db" then Some("dbname")
      else if name == "typo_db_username" then Some("user")
      else if name == "typo_db_password" then Some("password")
      else if name == "typo_db_host" then Some("host")
      else None
  {
    var t := ConnectionParameterMap;
    assert t[1..] == [("user", "typo_db_username"), ("password", "typo_db_password"), ("host", "typo_db_host")];
    assert t[1..][1..] == [("password", "typo_db_password"), ("host", "typo_db_host")];
    assert t[1..][1..][1..] == [("host", "typo_db_host")];
    assert t[1..][1..][1..][1..] == [];
  }

  /** The name table read in both directions: a variable sets parameter `k` exactly when `k` names that variable. */
  lemma ParameterOfInverse(name: string, k: string)
    ensures ParameterOf(name) == Some(k) <==> VariableOf(k) == Some(name)
  {
    ParameterOfUnfolded(name);
  }

  /** Exactly the four TYPO3 variables are recognised, each for its own parameter. */
  lemma RecognisedVariables(name: string)
    ensures ParameterOf(name).Some? <==>
      name in {"typo_db", "typo_db_username", "typo_db_password", "typo_db_host"}
    ensures ParameterOf("typo_db") == Some("dbname")
    ensures ParameterOf("typo_db_username") == Some("user")
    ensures ParameterOf("typo_db_password") == Some("password")
    ensures ParameterOf("typo_db_host") == Some("host")
  {
    ParameterOfUnfolded(name);
    ParameterOfUnfolded("typo_db");
    ParameterOfUnfolded("typo_db_username");
    ParameterOfUnfolded("typo_db_password");
    ParameterOfUnfolded("typo_db_host");
  }

  /** Before any statement, the parameters are a copy of the defaults. */
  lemma {:induction false} LoadedNothing()
    ensures Loaded([]) == ConnectionDefaults
  {
    var p := Loaded([]);
    forall k | k in ConnectionDefaults
      ensures p[k] == ConnectionDefaults[k]
    {
    }
  }

  /** One more statement changes a parameter's setting only when it assigns that parameter's variable. */
  lemma SettingSnoc(statements: seq<Statement>, s: Statement, key: string)
    requires key in ConnectionDefaults
    ensures Setting(statements + [s], key) ==
      if VariableOf(key).Some? && s.variable == VariableOf(key) then s.value else Setting(statements, key)
  {
    var xs := statements + [s];
    assert xs[..|xs| - 1] == statements;
  }

  /** A statement that assigns no plain variable, or a variable other than the four, changes nothing. */
  lemma {:induction false} LoadedSnocSkipped(statements: seq<Statement>, s: Statement)
    requires s.variable.None? || ParameterOf(s.variable.value).None?
    ensures Loaded(statements + [s]) == Loaded(statements)
  {
    var before, after := Loaded(statements), Loaded(statements + [s]);
    forall k | k in after
      ensures after[k] == before[k]
    {
      SettingSnoc(statements, s, k);
      if VariableOf(k).Some? && s.variable.Some? {
        ParameterOfInverse(s.variable.value, k);
      }
    }
  }

  /** A statement that assigns a recognised variable overwrites that variable's parameter and nothing else. */
  lemma {:induction false} LoadedSnocAssigned(statements: seq<Statement>, s: Statement)
    requires s.variable.Some? && ParameterOf(s.variable.value).Some?
    ensures Loaded(statements + [s]) == Loaded(statements)[ParameterOf(s.variable.value).value := s.value]
  {
    var key := ParameterOf(s.variable.value).value;
    ParameterOfInverse(s.variable.value, key);
    assert key in ConnectionDefaults;
    var before, after := Loaded(statements), Loaded(statements + [s]);
    forall k | k in after
      ensures after[k] == before[key := s.value][k]
    {
      SettingSnoc(statements, s, k);
      ParameterOfInverse(s.variable.value, k);
    }
  }

  /** A statement that is skipped may be removed from anywhere in the configuration without effect. */
  lemma {:induction false} SkippedStatementIrrelevant(xs: seq<Statement>, s: Statement, ys: seq<Statement>)
    requires s.variable.None? || ParameterOf(s.variable.value).None?
    ensures Loaded(xs + [s] + ys) == Loaded(xs + ys)
    decreases |ys|
  {
    if ys == [] {
      assert xs + [s] + ys == xs + [s];
      assert xs + ys == xs;
      LoadedSnocSkipped(xs, s);
    } else {
      var init, last := ys[..|ys| - 1], ys[|ys| - 1];
      assert xs + [s] + ys == (xs + [s] + init) + [last];
      assert xs + ys == (xs + init) + [last];
      SkippedStatementIrrelevant(xs, s, init);
      if last.variable.None? || ParameterOf(last.variable.value).None? {
        LoadedSnocSkipped(xs + [s] + init, last);
        LoadedSnocSkipped(xs + init, last);
      } else {
        LoadedSnocAssigned(xs + [s] + init, last);
        LoadedSnocAssigned(xs + init, last);
      }
    }
  }

  /**
   * A later assignment wins: after a statement assigning a recognised
   * variable, its parameter holds that statement's value unless a later
   * statement assigns the same variable.
   */
  lemma {:induction false} LaterAssignmentWins(xs: seq<Statement>, s: Statement, ys: seq<Statement>)
    requires s.variable.Some? && ParameterOf(s.variable.value).Some?
    requires forall j :: 0 <= j < |ys| ==> ys[j].variable != s.variable
    ensures Loaded(xs + [s] + ys)[ParameterOf(s.variable.value).value] == s.value
    decreases |ys|
  {
    var key := ParameterOf(s.variable.value).value;
    if ys == [] {
      assert xs + [s] + ys == xs + [s];
      LoadedSnocAssigned(xs, s);
    } else {
      var init, last := ys[..|ys| - 1], ys[|ys| - 1];
      assert xs + [s] + ys == (xs + [s] + init) + [last];
      LaterAssignmentWins(xs, s, init);
      if last.variable.None? || ParameterOf(last.variable.value).None? {
        LoadedSnocSkipped(xs + [s] + init, last);
      } else {
        LoadedSnocAssigned(xs + [s] + init, last);
        ParameterOfInverse(s.variable.value, key);
        ParameterOfInverse(last.variable.value, key);
      }
    }
  }

  /** `driver`, `charset` and `driverOptions` can never be set by the configuration. */
  lemma FixedParameters(statements: seq<Statement>)
    ensures Loaded(statements)["driver"] == Text("pdo_mysql")
    ensures Loaded(statements)["charset"] == Text("utf8")
    ensures Loaded(statements)["driverOptions"] == IntMap(map[1002 := "SET NAMES utf8"])
  {
    assert "driver" in ConnectionDefaults && "charset" in ConnectionDefaults && "driverOptions" in ConnectionDefaults;
  }

  /** `loadConnectionParams`, from the statements its parser returns. */
  method LoadConnectionParams(statements: seq<Statement>) returns (params: Params)
    ensures params == Loaded(statements)
  {
    params := ConnectionDefaults;
    LoadedNothing();
    var i := 0;
    while i < |statements|
      invariant i <= |statements|
      invariant params == Loaded(statements[..i])
    {
      var statement := statements[i];
      assert statements[..i + 1] == statements[..i] + [statement];
      if statement.variable.None? {
        LoadedSnocSkipped(statements[..i], statement);
        i := i + 1;
        continue;
      }
      var key := ArraySearch(statement.variable.value, ConnectionParameterMap);
      if key.Some? {
        LoadedSnocAssigned(statements[..i], statement);
        params := params[key.value := statement.value];
      } else {
        LoadedSnocSkipped(statements[..i], statement);
      }
      i := i + 1;
    }
    assert statements[..i] == statements;
  }
}
