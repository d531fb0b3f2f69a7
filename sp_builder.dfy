/** The stored-procedure wrapper generator: for each stored procedure it builds the
    input of one generated function (its name, its typed parameter list and the
    argument list passed on to the call). The template text around that input is not
    modelled. */
module SpBuilder {
  import opened Wrappers
  import opened Strings
  import opened Dicts
  import opened Lists
  import opened SchemaModel

  /** The input handed to the function template. */
  datatype FunctionInput = FunctionInput(
    commaSepParamNames: string,
    fnName: string,
    name: string,
    typeNameList: string)

  predicate IsIn(p: Parameter) {
    p.parameterMode == "IN"
  }

  /** `this.types[param.dataType]`; a type the table lacks renders as `undefined`. */
  function MySqlType(types: Dict<string>, p: Parameter): string {
    match Get(types, p.dataType)
    case Some(t) => t
    case None => "undefined"
  }

  /** `name: type` */
  function TsParamNotation(types: Dict<string>, p: Parameter): string {
    p.parameterName + ": " + MySqlType(types, p)
  }

  /** Non-decreasing `ordinalPosition`. */
  predicate OrdinalSorted(ps: seq<Parameter>) {
    forall i, j :: 0 <= i < j < |ps| ==> ps[i].ordinalPosition <= ps[j].ordinalPosition
  }

  /** Places `x` before the first parameter whose position is not below its own. */
  function InsertByOrdinal(x: Parameter, ps: seq<Parameter>): seq<Parameter> {
    if ps == [] || x.ordinalPosition <= ps[0].ordinalPosition then [x] + ps
    else [ps[0]] + InsertByOrdinal(x, ps[1..])
  }

  /** Insertion adds exactly `x`. */
  lemma {:induction false} InsertByOrdinalPermutes(x: Parameter, ps: seq<Parameter>)
    ensures multiset(InsertByOrdinal(x, ps)) == multiset(ps) + multiset{x}
  {
    if !(ps == [] || x.ordinalPosition <= ps[0].ordinalPosition) {
      InsertByOrdinalPermutes(x, ps[1..]);
      assert ps == [ps[0]] + ps[1..];
    }
  }

  /** Insertion into a sorted list keeps it sorted. */
  lemma {:induction false} InsertByOrdinalSorted(x: Parameter, ps: seq<Parameter>)
    requires OrdinalSorted(ps)
    ensures OrdinalSorted(InsertByOrdinal(x, ps))
  {
    var r := InsertByOrdinal(x, ps);
    if ps == [] || x.ordinalPosition <= ps[0].ordinalPosition {
      assert forall j :: 0 <= j < |ps| ==> x.ordinalPosition <= ps[j].ordinalPosition;
      assert forall j :: 0 < j < |r| ==> r[j] == ps[j - 1];
    } else {
      var tail := ps[1..];
      var t := InsertByOrdinal(x, tail);
      InsertByOrdinalSorted(x, tail);
      InsertByOrdinalPermutes(x, tail);
      assert r == [ps[0]] + t;
      forall j | 0 <= j < |t|
        ensures ps[0].ordinalPosition <= t[j].ordinalPosition
      {
        assert t[j] in multiset(t);
        if t[j] != x {
          assert t[j] in multiset(tail);
          var k :| 0 <= k < |tail| && tail[k] == t[j];
          assert tail[k] == ps[k + 1];
        }
      }
    }
  }

  /** `params.sort((a, b) => a.ordinalPosition - b.ordinalPosition)`: a stable sort by
      ascending position. */
  function SortByOrdinal(ps: seq<Parameter>): (r: seq<Parameter>)
    ensures OrdinalSorted(r)
    ensures multiset(r) == multiset(ps)
  {
    if ps == [] then []
    else
      assert ps == [ps[0]] + ps[1..];
      InsertByOrdinalSorted(ps[0], SortByOrdinal(ps[1..]));
      InsertByOrdinalPermutes(ps[0], SortByOrdinal(ps[1..]));
      InsertByOrdinal(ps[0], SortByOrdinal(ps[1..]))
  }

  /** The procedure's `IN` parameters by ascending position. */
  function InParams(procedure: StoredProcedure): seq<Parameter>
    requires Valid(procedure.parameters)
  {
    SortByOrdinal(Filter(Values(procedure.parameters), IsIn))
  }

  function ParamNames(ps: seq<Parameter>): (r: seq<string>)
    ensures |r| == |ps|
    ensures forall i :: 0 <= i < |ps| ==> r[i] == ps[i].parameterName
  {
    seq(|ps|, i requires 0 <= i < |ps| => ps[i].parameterName)
  }

  function ParamNotations(types: Dict<string>, ps: seq<Parameter>): (r: seq<string>)
    ensures |r| == |ps|
    ensures forall i :: 0 <= i < |ps| ==> r[i] == TsParamNotation(types, ps[i])
  {
    seq(|ps|, i requires 0 <= i < |ps| => TsParamNotation(types, ps[i]))
  }

  /** The template input `renderFunction` builds for a procedure; `camel` is the
      change-case library's `camelCase`. */
  function FunctionInputOf(procedure: StoredProcedure, types: Dict<string>, camel: string -> string): FunctionInput
    requires Valid(procedure.parameters)
  {
    var ps := InParams(procedure);
    FunctionInput(
      if |ps| == 0 then "" else ", " + Join(", ", ParamNames(ps)),
      camel(procedure.name),
      procedure.name,
      Join(", ", ParamNotations(types, ps)))
  }

  /** The procedure has an `IN` parameter. */
  predicate HasInParam(procedure: StoredProcedure) {
    exists k :: k in procedure.parameters.vals && procedure.parameters.vals[k].parameterMode == "IN"
  }

  /** The sorted list holds each `IN` parameter of the procedure as often as the
      dictionary does, and nothing else, in ascending position. */
  lemma InParamsMeaning(procedure: StoredProcedure)
    requires Valid(procedure.parameters)
    ensures OrdinalSorted(InParams(procedure))
    ensures multiset(InParams(procedure)) == multiset(Filter(Values(procedure.parameters), IsIn))
    ensures forall p :: p in InParams(procedure) <==>
      p.parameterMode == "IN" && p in procedure.parameters.vals.Values
    ensures |InParams(procedure)| == 0 <==> !HasInParam(procedure)
  {
    InParamsMembers(procedure);
    InParamsEmpty(procedure);
  }

  /** A parameter is in the sorted list exactly when it is an `IN` parameter of the
      procedure. */
  lemma InParamsMembers(procedure: StoredProcedure)
    requires Valid(procedure.parameters)
    ensures forall p :: p in InParams(procedure) <==>
      p.parameterMode == "IN" && p in procedure.parameters.vals.Values
  {
    var vs := Values(procedure.parameters);
    var ins := Filter(vs, IsIn);
    FilterMembers(vs, IsIn);
    ValuesMembers(procedure.parameters);
    var ps := InParams(procedure);
    assert multiset(ps) == multiset(ins);
    forall p
      ensures p in ps <==> p in ins
    {
      assert p in ps <==> p in multiset(ps);
      assert p in ins <==> p in multiset(ins);
    }
  }

  /** The sorted list is empty exactly when the procedure has no `IN` parameter. */
  lemma InParamsEmpty(procedure: StoredProcedure)
    requires Valid(procedure.parameters)
    ensures |InParams(procedure)| == 0 <==> !HasInParam(procedure)
  {
    InParamsMembers(procedure);
    var ps := InParams(procedure);
    if |ps| != 0 {
      assert ps[0] in ps;
      var k :| k in procedure.parameters.vals && procedure.parameters.vals[k] == ps[0];
      assert procedure.parameters.vals[k].parameterMode == "IN";
    }
    if HasInParam(procedure) {
      var k :| k in procedure.parameters.vals && procedure.parameters.vals[k].parameterMode == "IN";
      assert procedure.parameters.vals[k] in ps;
    }
  }

  /** Joining a list whose first element is not empty gives a non-empty string. */
  lemma JoinNonEmpty(sep: string, xs: seq<string>)
    requires |xs| > 0 && |xs[0]| > 0
    ensures |Join(sep, xs)| > 0
  {
    if |xs| > 1 {
      assert Join(sep, xs) == xs[0] + sep + Join(sep, xs[1..]);
    }
  }

  /** Joining starts with the first element. */
  lemma JoinStartsWithFirst(sep: string, xs: seq<string>)
    requires |xs| > 0
    ensures xs[0] <= Join(sep, xs)
  {
    if |xs| > 1 {
      assert Join(sep, xs) == xs[0] + (sep + Join(sep, xs[1..]));
    }
  }

  /** The argument list is empty exactly when the procedure has no `IN` parameter, and
      otherwise starts with `, ` and the name of the first parameter by position; the
      typed list is empty exactly then too, and otherwise starts with that parameter's
      `name: type`. With a single `IN` parameter the two lists are exactly those. The
      function keeps the procedure's name and camel-cases it. */
  lemma FunctionInputMeaning(procedure: StoredProcedure, types: Dict<string>, camel: string -> string)
    requires Valid(procedure.parameters)
    ensures var r := FunctionInputOf(procedure, types, camel);
      && r.name == procedure.name
      && r.fnName == camel(procedure.name)
      && (r.commaSepParamNames == "" <==> !HasInParam(procedure))
      && (r.typeNameList == "" <==> !HasInParam(procedure))
    ensures var r := FunctionInputOf(procedure, types, camel);
      var ps := InParams(procedure);
      HasInParam(procedure) ==>
        && ", " + ps[0].parameterName <= r.commaSepParamNames
        && TsParamNotation(types, ps[0]) <= r.typeNameList
    ensures var r := FunctionInputOf(procedure, types, camel);
      var ps := InParams(procedure);
      |ps| == 1 ==>
        && r.commaSepParamNames == ", " + ps[0].parameterName
        && r.typeNameList == TsParamNotation(types, ps[0])
  {
    InParamsEmpty(procedure);
    var ps := InParams(procedure);
    if |ps| > 0 {
      TypedListStart(types, ps);
      NameListStart(ps);
    }
    if |ps| == 1 {
      assert ParamNames(ps) == [ps[0].parameterName];
      assert ParamNotations(types, ps) == [TsParamNotation(types, ps[0])];
    }
  }

  /** The typed list of a non-empty parameter list is not empty and starts with the
      first `name: type`. */
  lemma TypedListStart(types: Dict<string>, ps: seq<Parameter>)
    requires |ps| > 0
    ensures var typed := Join(", ", ParamNotations(types, ps));
      typed != "" && TsParamNotation(types, ps[0]) <= typed
  {
    var notations := ParamNotations(types, ps);
    assert |notations[0]| >= 2;
    JoinNonEmpty(", ", notations);
    JoinStartsWithFirst(", ", notations);
  }

  /** The argument list of a non-empty parameter list starts with `, ` and the first
      name. */
  lemma NameListStart(ps: seq<Parameter>)
    requires |ps| > 0
    ensures ", " + ps[0].parameterName <= ", " + Join(", ", ParamNames(ps))
  {
    JoinStartsWithFirst(", ", ParamNames(ps));
    var names := Join(", ", ParamNames(ps));
    assert ps[0].parameterName <= names;
    assert (", " + names)[..2 + |ps[0].parameterName|] == ", " + ps[0].parameterName;
  }

  /** The `for..in` loop of `renderFunction`: the parameters in dictionary order. */
  method CollectParameters(parameters: Dict<Parameter>) returns (params: seq<Parameter>)
    requires Valid(parameters)
    ensures params == Values(parameters)
  {
    ghost var vs := Values(parameters);
    params := [];
    var i := 0;
    while i < |parameters.keys|
      invariant 0 <= i <= |parameters.keys|
      invariant params == vs[..i]
    {
      var p := parameters.vals[parameters.keys[i]];
      assert vs[..i + 1] == vs[..i] + [p];
      params := params + [p];
      i := i + 1;
    }
    assert vs[..i] == vs;
  }

  /** `renderFunction`: collects the procedure's parameters in dictionary order, keeps the
      `IN` ones, sorts them by position and builds the template input. */
  method RenderFunction(procedure: StoredProcedure, types: Dict<string>, camel: string -> string)
    returns (r: FunctionInput)
    requires Valid(procedure.parameters)
    ensures r == FunctionInputOf(procedure, types, camel)
  {
    var params := CollectParameters(procedure.parameters);
    params := Filter(params, IsIn);
    params := SortByOrdinal(params);
    var commaSepParamNames := Join(", ", ParamNames(params));
    if |params| == 0 {
      commaSepParamNames := "";
    } else {
      commaSepParamNames := ", " + commaSepParamNames;
    }
    var typeNameList := Join(", ", ParamNotations(types, params));
    r := FunctionInput(commaSepParamNames, camel(procedure.name), procedure.name, typeNameList);
  }

  /** Every procedure's parameter dictionary is well formed. */
  predicate ValidProcedures(procedures: Dict<StoredProcedure>) {
    Valid(procedures) && forall k :: k in procedures.vals ==> Valid(procedures.vals[k].parameters)
  }

  /** `renderTemplate`: one function input per procedure, in dictionary order. */
  method RenderTemplate(procedures: Dict<StoredProcedure>, types: Dict<string>, camel: string -> string)
    returns (strFunctions: seq<FunctionInput>)
    requires ValidProcedures(procedures)
    ensures |strFunctions| == |procedures.keys|
    ensures forall i :: 0 <= i < |procedures.keys| ==>
      strFunctions[i] == FunctionInputOf(procedures.vals[procedures.keys[i]], types, camel)
  {
    ghost var expected := seq(|procedures.keys|, j requires 0 <= j < |procedures.keys| =>
      FunctionInputOf(procedures.vals[procedures.keys[j]], types, camel));
    strFunctions := [];
    var i := 0;
    while i < |procedures.keys|
      invariant 0 <= i <= |procedures.keys|
      invariant strFunctions == expected[..i]
    {
      var f := RenderFunction(procedures.vals[procedures.keys[i]], types, camel);
      PrefixSnoc(expected, i);
      strFunctions := strFunctions + [f];
      i := i + 1;
    }
    assert expected[..i] == expected;
  }
}
