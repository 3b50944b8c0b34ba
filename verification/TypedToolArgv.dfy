/** Building a tool's command line from typed parameters, and reading it back. */
module TypedToolArgv {
  import opened Wrappers
  import opened Text

  const INSTANCE_PLACEHOLDER := "<tool-instance-id>"
  const VALUE_PLACEHOLDER := "{value}"
  const OPERATION_KEY := "operation"
  const DEFAULT_MAX_LENGTH: nat := 200
  const MAX_LENGTH_LIMIT: nat := 500

  datatype ParamType = StringParam | BooleanParam

  datatype ParamSpec = ParamSpec(
    name: string,
    kind: ParamType,
    allowed: Option<seq<string>>,
    pattern: Option<string -> bool>,
    maxLength: Option<nat>,
    argv: seq<string>
  )

  datatype Operation = Operation(
    name: string,
    argv: seq<string>,
    params: seq<ParamSpec>,
    required: seq<string>,
    exactlyOneOf: seq<seq<string>>
  )

  /** A JSON value as far as the builder looks into it. */
  datatype Value = Undefined | Null | Boolean(value: bool) | Str(text: string) | OtherValue

  datatype Field = Field(key: string, value: Value)

  datatype Params = NotAnObject | Fields(fields: seq<Field>)

  datatype Error =
    | ParamsNotAnObject
    | NotAccepted(key: string)
    | MustBeBoolean(name: string)
    | MustBeString(name: string)
    | BadLength(name: string, limit: nat)
    | ControlCharacters(name: string)
    | LeadingDash(name: string)
    | NotAllowed(name: string)
    | BadFormat(name: string)
    | Missing(name: string)
    | NotExactlyOne(group: seq<string>)

  // ---------- one parameter ----------

  function Lookup(fields: seq<Field>, key: string): Value {
    if fields == [] then Undefined
    else if fields[0].key == key then fields[0].value
    else Lookup(fields[1..], key)
  }

  function Limit(spec: ParamSpec): nat {
    var limit := if spec.maxLength.Some? then spec.maxLength.value else DEFAULT_MAX_LENGTH;
    if limit < MAX_LENGTH_LIMIT then limit else MAX_LENGTH_LIMIT
  }

  predicate IsControl(c: char) {
    c as int < 0x20 || c as int == 0x7f
  }

  predicate HasControl(s: string) {
    exists i :: 0 <= i < |s| && IsControl(s[i])
  }

  predicate Absent(v: Value) {
    v.Undefined? || v.Null?
  }

  /** What is wrong with a present value. */
  function Problem(spec: ParamSpec, v: Value): Option<Error> {
    if spec.kind.BooleanParam? then
      if v.Boolean? then None else Some(MustBeBoolean(spec.name))
    else if !v.Str? then Some(MustBeString(spec.name))
    else if |v.text| == 0 || |v.text| > Limit(spec) then Some(BadLength(spec.name, Limit(spec)))
    else if HasControl(v.text) then Some(ControlCharacters(spec.name))
    else if v.text[0] == '-' then Some(LeadingDash(spec.name))
    else if spec.allowed.Some? && v.text !in spec.allowed.value then Some(NotAllowed(spec.name))
    else if spec.pattern.Some? && !spec.pattern.value(v.text) then Some(BadFormat(spec.name))
    else None
  }

  /** A value the builder takes for this parameter. */
  predicate Takes(spec: ParamSpec, v: Value) {
    Absent(v) || Problem(spec, v).None?
  }

  predicate Shown(spec: ParamSpec, v: Value) {
    !Absent(v) && v != Boolean(false)
  }

  function ValueText(v: Value): string {
    match v
    case Str(text) => text
    case Boolean(b) => if b then "true" else "false"
    case _ => ""
  }

  function Substitute(entries: seq<string>, placeholder: string, text: string): (r: seq<string>)
    ensures |r| == |entries|
    ensures forall i :: 0 <= i < |r| ==> r[i] == if entries[i] == placeholder then text else entries[i]
  {
    if entries == [] then []
    else
      var k := |entries| - 1;
      Substitute(entries[..k], placeholder, text) + [if entries[k] == placeholder then text else entries[k]]
  }

  function Tokens(spec: ParamSpec, v: Value): seq<string> {
    if Shown(spec, v) then Substitute(spec.argv, VALUE_PLACEHOLDER, ValueText(v)) else []
  }

  function Rendered(specs: seq<ParamSpec>, fields: seq<Field>): seq<string> {
    if specs == [] then []
    else
      var k := |specs| - 1;
      Rendered(specs[..k], fields) + Tokens(specs[k], Lookup(fields, specs[k].name))
  }

  // ---------- the whole command line ----------

  function Names(specs: seq<ParamSpec>): set<string> {
    set i | 0 <= i < |specs| :: specs[i].name
  }

  /** The names with a value worth a flag. */
  function Present(specs: seq<ParamSpec>, fields: seq<Field>): set<string> {
    if specs == [] then {}
    else
      var k := |specs| - 1;
      Present(specs[..k], fields)
      + if Shown(specs[k], Lookup(fields, specs[k].name)) then {specs[k].name} else {}
  }

  function CountPresent(group: seq<string>, present: set<string>): nat {
    if group == [] then 0
    else
      var k := |group| - 1;
      CountPresent(group[..k], present) + if group[k] in present then 1 else 0
  }

  /** When the builder gives a command line at all. */
  ghost predicate Accepts(op: Operation, params: Params) {
    params.Fields?
    && (forall i :: 0 <= i < |params.fields| ==>
      params.fields[i].key == OPERATION_KEY || params.fields[i].key in Names(op.params))
    && (forall i :: 0 <= i < |op.params| ==> Takes(op.params[i], Lookup(params.fields, op.params[i].name)))
    && (forall i :: 0 <= i < |op.required| ==> op.required[i] in Present(op.params, params.fields))
    && (forall i :: 0 <= i < |op.exactlyOneOf| ==>
      CountPresent(op.exactlyOneOf[i], Present(op.params, params.fields)) == 1)
  }

  /** An error names a fault the request has. */
  ghost predicate Explains(op: Operation, params: Params, e: Error) {
    match e
    case ParamsNotAnObject => params.NotAnObject?
    case NotAccepted(key) =>
      params.Fields? && key != OPERATION_KEY && key !in Names(op.params)
      && exists i :: 0 <= i < |params.fields| && params.fields[i].key == key
    case Missing(name) => params.Fields? && name in op.required && name !in Present(op.params, params.fields)
    case NotExactlyOne(group) =>
      params.Fields? && group in op.exactlyOneOf && CountPresent(group, Present(op.params, params.fields)) != 1
    case _ => params.Fields? && SomeProblem(op.params, params.fields, e)
  }

  ghost predicate SomeProblem(specs: seq<ParamSpec>, fields: seq<Field>, e: Error) {
    exists i :: 0 <= i < |specs| && HasProblem(specs[i], Lookup(fields, specs[i].name), e)
  }

  ghost predicate HasProblem(spec: ParamSpec, v: Value, e: Error) {
    !Absent(v) && Problem(spec, v) == Some(e)
  }

  function Argv(op: Operation, fields: seq<Field>, toolInstanceId: string): seq<string> {
    Substitute(op.argv, INSTANCE_PLACEHOLDER, toolInstanceId) + Rendered(op.params, fields)
  }

  method Build(op: Operation, params: Params, toolInstanceId: string) returns (r: Result<seq<string>, Error>)
    ensures r.Ok? <==> Accepts(op, params)
    ensures r.Ok? ==> r.value == Argv(op, params.fields, toolInstanceId)
    ensures r.Err? ==> Explains(op, params, r.error)
  {
    hide Problem, Tokens, Substitute, Lookup, Rendered, Present, CountPresent, ValueText;
    if params.NotAnObject? {
      return Err(ParamsNotAnObject);
    }
    var fields := params.fields;
    var specs := op.params;
    for i := 0 to |fields|
      invariant forall j :: 0 <= j < i ==> fields[j].key == OPERATION_KEY || fields[j].key in Names(specs)
    {
      if fields[i].key != OPERATION_KEY && fields[i].key !in Names(specs) {
        return Err(NotAccepted(fields[i].key));
      }
    }
    var present: set<string> := {};
    NothingPresent(fields);
    for i := 0 to |specs|
      invariant present == Present(specs[..i], fields)
      invariant forall j :: 0 <= j < i ==> Takes(specs[j], Lookup(fields, specs[j].name))
    {
      OneMore(specs, fields, i);
      var value := Lookup(fields, specs[i].name);
      if Absent(value) {
        continue;
      }
      var problem := Problem(specs[i], value);
      if problem.Some? {
        ProblemKinds(specs[i], value);
        assert HasProblem(specs[i], value, problem.value);
        return Err(problem.value);
      }
      BooleanOrString(specs[i], value);
      if specs[i].kind.BooleanParam? {
        if value.value {
          present := present + {specs[i].name};
        }
        continue;
      }
      present := present + {specs[i].name};
    }
    assert specs[..|specs|] == specs;
    for i := 0 to |op.required|
      invariant forall j :: 0 <= j < i ==> op.required[j] in present
    {
      if op.required[i] !in present {
        return Err(Missing(op.required[i]));
      }
    }
    for i := 0 to |op.exactlyOneOf|
      invariant forall j :: 0 <= j < i ==> CountPresent(op.exactlyOneOf[j], present) == 1
    {
      if CountPresent(op.exactlyOneOf[i], present) != 1 {
        return Err(NotExactlyOne(op.exactlyOneOf[i]));
      }
    }
    var argv := Substitute(op.argv, INSTANCE_PLACEHOLDER, toolInstanceId);
    for i := 0 to |specs|
      invariant argv == Substitute(op.argv, INSTANCE_PLACEHOLDER, toolInstanceId) + Rendered(specs[..i], fields)
    {
      OneMore(specs, fields, i);
      PresentIffShown(specs, fields, i);
      var value := Lookup(fields, specs[i].name);
      if specs[i].name !in present {
        NoTokens(specs[i], value);
        continue;
      }
      SomeTokens(specs[i], value);
      ghost var entries := Substitute(specs[i].argv, VALUE_PLACEHOLDER, ValueText(value));
      ghost var before := argv;
      for j := 0 to |specs[i].argv|
        invariant argv == before + entries[..j]
      {
        assert entries[..j + 1] == entries[..j] + [entries[j]];
        argv := argv + [if specs[i].argv[j] == VALUE_PLACEHOLDER then ValueText(value) else specs[i].argv[j]];
      }
      assert entries[..|entries|] == entries;
    }
    return Ok(argv);
  }

  lemma ProblemKinds(spec: ParamSpec, v: Value)
    requires Problem(spec, v).Some?
    ensures var e := Problem(spec, v).value;
      !e.ParamsNotAnObject? && !e.NotAccepted? && !e.Missing? && !e.NotExactlyOne?
  {
  }

  lemma NothingPresent(fields: seq<Field>)
    ensures Present([], fields) == {} && Rendered([], fields) == []
  {
  }

  lemma OneMore(specs: seq<ParamSpec>, fields: seq<Field>, i: nat)
    requires i < |specs|
    ensures var v := Lookup(fields, specs[i].name);
      Rendered(specs[..i + 1], fields) == Rendered(specs[..i], fields) + Tokens(specs[i], v)
      && Present(specs[..i + 1], fields)
        == Present(specs[..i], fields) + if Shown(specs[i], v) then {specs[i].name} else {}
  {
    hide Tokens, Shown;
    assert specs[..i + 1][..i] == specs[..i];
  }

  lemma BooleanOrString(spec: ParamSpec, v: Value)
    requires Problem(spec, v).None?
    ensures if spec.kind.BooleanParam? then v.Boolean? else v.Str?
  {
  }

  lemma NoTokens(spec: ParamSpec, v: Value)
    requires !Shown(spec, v)
    ensures Tokens(spec, v) == []
  {
  }

  lemma SomeTokens(spec: ParamSpec, v: Value)
    requires Shown(spec, v)
    ensures Tokens(spec, v) == Substitute(spec.argv, VALUE_PLACEHOLDER, ValueText(v))
  {
  }

  lemma {:induction false} PresentHolds(specs: seq<ParamSpec>, fields: seq<Field>, name: string)
    ensures name in Present(specs, fields)
      <==> exists i :: 0 <= i < |specs| && specs[i].name == name && Shown(specs[i], Lookup(fields, name))
  {
    if specs != [] {
      var k := |specs| - 1;
      PresentHolds(specs[..k], fields, name);
    }
  }

  lemma PresentIffShown(specs: seq<ParamSpec>, fields: seq<Field>, i: nat)
    requires i < |specs|
    ensures specs[i].name in Present(specs, fields) <==> Shown(specs[i], Lookup(fields, specs[i].name))
  {
    PresentHolds(specs, fields, specs[i].name);
  }

  // ---------- reading a command line back ----------

  predicate IsFlag(s: string) {
    |s| >= 3 && s[0] == '-' && s[1] == '-' && 'a' <= s[2] <= 'z'
    && forall i :: 3 <= i < |s| ==> 'a' <= s[i] <= 'z' || '0' <= s[i] <= '9' || s[i] == '-'
  }

  /** What the template schema demands of a parameter. */
  ghost predicate ShapeOk(spec: ParamSpec) {
    |spec.argv| >= 1 && IsFlag(spec.argv[0])
    && if spec.kind.BooleanParam? then spec.argv == [spec.argv[0]]
       else spec.argv == [spec.argv[0], VALUE_PLACEHOLDER]
  }

  ghost predicate DistinctNames(specs: seq<ParamSpec>) {
    forall i, j :: 0 <= i < j < |specs| ==> specs[i].name != specs[j].name
  }

  ghost predicate SpecsOk(specs: seq<ParamSpec>) {
    DistinctNames(specs) && forall i :: 0 <= i < |specs| ==> ShapeOk(specs[i]) && specs[i].name != OPERATION_KEY
  }

  /** Two parameters that one piece of a command line could stand for. */
  ghost predicate Clash(a: ParamSpec, b: ParamSpec) {
    a.kind == b.kind && a.argv == b.argv
    && exists v :: Shown(a, v) && Takes(a, v) && Takes(b, v)
  }

  ghost predicate NoClash(specs: seq<ParamSpec>) {
    forall i, j :: 0 <= i < j < |specs| ==> !Clash(specs[i], specs[j])
  }

  ghost predicate TakesAll(specs: seq<ParamSpec>, fields: seq<Field>) {
    forall i :: 0 <= i < |specs| ==> Takes(specs[i], Lookup(fields, specs[i].name))
  }

  /** The parameters shown, and what they are. */
  ghost predicate SameShown(specs: seq<ParamSpec>, p: seq<Field>, q: seq<Field>) {
    forall i :: 0 <= i < |specs| ==>
      var v, w := Lookup(p, specs[i].name), Lookup(q, specs[i].name);
      (Shown(specs[i], v) || Shown(specs[i], w)) ==> v == w
  }

  lemma TokensOfShape(spec: ParamSpec, v: Value)
    requires ShapeOk(spec) && Takes(spec, v) && Shown(spec, v)
    ensures spec.kind.BooleanParam? ==> v == Boolean(true) && Tokens(spec, v) == [spec.argv[0]]
    ensures spec.kind.StringParam? ==> v.Str? && Tokens(spec, v) == [spec.argv[0], v.text]
    ensures spec.kind.StringParam? ==> v.text != "" && v.text[0] != '-'
    ensures spec.argv[0][0] == '-'
  {
    assert spec.argv[0] != VALUE_PLACEHOLDER;
  }

  lemma TokensClash(a: ParamSpec, v: Value, b: ParamSpec, w: Value, s: seq<string>, t: seq<string>)
    requires ShapeOk(a) && Takes(a, v) && Shown(a, v) && ShapeOk(b) && Takes(b, w) && Shown(b, w)
    requires s + Tokens(a, v) == t + Tokens(b, w)
    ensures s == t && v == w && a.kind == b.kind && a.argv == b.argv
  {
    TokensOfShape(a, v);
    TokensOfShape(b, w);
    var x, y := s + Tokens(a, v), t + Tokens(b, w);
    var n := |x| - 1;
    assert x[n] == Tokens(a, v)[|Tokens(a, v)| - 1] && y[n] == Tokens(b, w)[|Tokens(b, w)| - 1];
    assert a.kind == b.kind;
    assert |s| == |t| && x[|s|] == a.argv[0] && y[|s|] == b.argv[0];
    assert x[..|s|] == s && y[..|t|] == t;
  }

  lemma TokensNotEmpty(spec: ParamSpec, v: Value)
    requires ShapeOk(spec) && Shown(spec, v)
    ensures Tokens(spec, v) != []
  {
  }

  /** One parameter of a command line, by its place among the declared ones. */
  datatype Given = Given(index: nat, value: Value)

  /** What a request shows of the first n parameters. */
  function Reading(specs: seq<ParamSpec>, fields: seq<Field>, n: nat): seq<Given>
    requires n <= |specs|
  {
    if n == 0 then []
    else
      var v := Lookup(fields, specs[n - 1].name);
      Reading(specs, fields, n - 1) + if Shown(specs[n - 1], v) then [Given(n - 1, v)] else []
  }

  predicate InRange(specs: seq<ParamSpec>, r: seq<Given>) {
    forall i :: 0 <= i < |r| ==> r[i].index < |specs|
  }

  ghost predicate ReadingOk(specs: seq<ParamSpec>, r: seq<Given>) {
    InRange(specs, r)
    && (forall i :: 0 <= i < |r| ==> Shown(specs[r[i].index], r[i].value) && Takes(specs[r[i].index], r[i].value))
    && forall i, j :: 0 <= i < j < |r| ==> r[i].index < r[j].index
  }

  /** The tokens of a reading. */
  function Line(specs: seq<ParamSpec>, r: seq<Given>): seq<string>
    requires InRange(specs, r)
  {
    if r == [] then []
    else
      var k := |r| - 1;
      Line(specs, r[..k]) + Tokens(specs[r[k].index], r[k].value)
  }

  function Indices(r: seq<Given>): (s: seq<nat>)
    ensures |s| == |r| && forall i :: 0 <= i < |s| ==> s[i] == r[i].index
  {
    seq(|r|, i requires 0 <= i < |r| => r[i].index)
  }

  function Chosen(specs: seq<ParamSpec>, s: seq<nat>): set<string> {
    set i | 0 <= i < |s| && s[i] < |specs| :: specs[s[i]].name
  }

  /** The parameters that a request may show together. */
  ghost predicate Permits(op: Operation, s: seq<nat>) {
    (forall i :: 0 <= i < |s| ==> s[i] < |op.params|)
    && (forall i, j :: 0 <= i < j < |s| ==> s[i] < s[j])
    && (forall i :: 0 <= i < |op.required| ==> op.required[i] in Chosen(op.params, s))
    && (forall i :: 0 <= i < |op.exactlyOneOf| ==> CountPresent(op.exactlyOneOf[i], Chosen(op.params, s)) == 1)
  }

  /** Two selections that clash in every place. */
  ghost predicate Alike(specs: seq<ParamSpec>, s: seq<nat>, t: seq<nat>) {
    |s| == |t|
    && forall i :: 0 <= i < |s| ==> s[i] < |specs| && t[i] < |specs| && Clash(specs[s[i]], specs[t[i]])
  }

  ghost predicate NoTwoAlike(op: Operation) {
    forall s, t :: Permits(op, s) && Permits(op, t) && Alike(op.params, s, t) ==> s == t
  }

  lemma {:induction false} ReadingIsOk(specs: seq<ParamSpec>, fields: seq<Field>, n: nat)
    requires n <= |specs| && TakesAll(specs, fields)
    ensures var r := Reading(specs, fields, n);
      ReadingOk(specs, r) && forall i :: 0 <= i < |r| ==> r[i].index < n
  {
    hide Takes, Lookup, Shown;
    if n > 0 {
      ReadingIsOk(specs, fields, n - 1);
    }
  }

  lemma LineSnoc(specs: seq<ParamSpec>, r: seq<Given>, g: Given)
    requires InRange(specs, r) && g.index < |specs|
    ensures InRange(specs, r + [g]) && Line(specs, r + [g]) == Line(specs, r) + Tokens(specs[g.index], g.value)
  {
    hide Tokens;
    assert (r + [g])[..|r|] == r;
  }

  /** What is rendered is the line of what is shown, and the names shown are those chosen. */
  lemma {:induction false} ReadingRenders(specs: seq<ParamSpec>, fields: seq<Field>, n: nat)
    requires n <= |specs| && TakesAll(specs, fields)
    ensures var r := Reading(specs, fields, n);
      InRange(specs, r) && Rendered(specs[..n], fields) == Line(specs, r)
      && Present(specs[..n], fields) == Chosen(specs, Indices(r))
  {
    hide Tokens, Takes, Lookup, Shown, Indices, Chosen;
    if n == 0 {
      NothingPresent(fields);
      assert Chosen(specs, Indices([])) == {} by { NothingChosen(specs); }
    } else {
      var v := Lookup(fields, specs[n - 1].name);
      var r := Reading(specs, fields, n - 1);
      ReadingRenders(specs, fields, n - 1);
      hide Rendered, Present, Line;
      OneMore(specs, fields, n - 1);
      if Shown(specs[n - 1], v) {
        LineSnoc(specs, r, Given(n - 1, v));
        ChosenGrows(specs, r, Given(n - 1, v));
      } else {
        NoTokens(specs[n - 1], v);
        assert r + [] == r && Rendered(specs[..n - 1], fields) + [] == Rendered(specs[..n - 1], fields);
      }
    }
  }

  lemma NothingChosen(specs: seq<ParamSpec>)
    ensures Chosen(specs, Indices([])) == {}
  {
  }

  lemma ChosenGrows(specs: seq<ParamSpec>, r: seq<Given>, g: Given)
    requires g.index < |specs|
    ensures Chosen(specs, Indices(r + [g])) == Chosen(specs, Indices(r)) + {specs[g.index].name}
  {
    var s, t := Indices(r), Indices(r + [g]);
    assert t[|r|] == g.index && forall i :: 0 <= i < |r| ==> t[i] == s[i];
  }

  /** Equal lines have readings with equal values under clashing parameters. */
  lemma {:induction false} SameLineAlike(specs: seq<ParamSpec>, r: seq<Given>, s: seq<Given>)
    requires SpecsOk(specs) && ReadingOk(specs, r) && ReadingOk(specs, s) && Line(specs, r) == Line(specs, s)
    ensures |r| == |s| && forall i :: 0 <= i < |r| ==>
      r[i].value == s[i].value && Clash(specs[r[i].index], specs[s[i].index])
    decreases |r| + |s|
  {
    hide Line, Takes, Shown, SpecsOk, Clash;
    LineIsEmpty(specs, r);
    LineIsEmpty(specs, s);
    if r != [] && s != [] {
      SameEnds(specs, r, s);
      SameLineAlike(specs, r[..|r| - 1], s[..|s| - 1]);
    }
  }

  lemma LineIsEmpty(specs: seq<ParamSpec>, r: seq<Given>)
    requires SpecsOk(specs) && ReadingOk(specs, r)
    ensures Line(specs, r) == [] <==> r == []
  {
    hide Tokens, Takes, ShapeOk, DistinctNames;
    if r != [] {
      TokensNotEmpty(specs[r[|r| - 1].index], r[|r| - 1].value);
    }
  }

  lemma SameEnds(specs: seq<ParamSpec>, r: seq<Given>, s: seq<Given>)
    requires SpecsOk(specs) && ReadingOk(specs, r) && ReadingOk(specs, s) && Line(specs, r) == Line(specs, s)
    requires r != [] && s != []
    ensures var g, h := r[|r| - 1], s[|s| - 1];
      Line(specs, r[..|r| - 1]) == Line(specs, s[..|s| - 1])
      && g.value == h.value && Clash(specs[g.index], specs[h.index])
  {
    hide Tokens, Takes, Shown, ShapeOk, Clash, DistinctNames;
    var g, h := r[|r| - 1], s[|s| - 1];
    TokensClash(specs[g.index], g.value, specs[h.index], h.value, Line(specs, r[..|r| - 1]), Line(specs, s[..|s| - 1]));
    ClashHolds(specs[g.index], specs[h.index], g.value);
  }

  lemma ClashHolds(a: ParamSpec, b: ParamSpec, v: Value)
    requires a.kind == b.kind && a.argv == b.argv && Shown(a, v) && Takes(a, v) && Takes(b, v)
    ensures Clash(a, b)
  {
  }

  /** Two requests show the same exactly when their readings are one. */
  lemma {:induction false} SameShownIff(specs: seq<ParamSpec>, p: seq<Field>, q: seq<Field>, n: nat)
    requires n <= |specs|
    ensures (Reading(specs, p, n) == Reading(specs, q, n)) <==> SameShown(specs[..n], p, q)
  {
    hide Shown, Lookup;
    if n > 0 {
      SameShownIff(specs, p, q, n - 1);
      var v, w := Lookup(p, specs[n - 1].name), Lookup(q, specs[n - 1].name);
      OneMoreSame(specs, p, q, n);
      OneMoreGiven(Reading(specs, p, n - 1), Shown(specs[n - 1], v), v,
        Reading(specs, q, n - 1), Shown(specs[n - 1], w), w, n - 1) by {
        ReadingBelow(specs, p, n - 1);
        ReadingBelow(specs, q, n - 1);
      }
    }
  }

  lemma {:induction false} ReadingBelow(specs: seq<ParamSpec>, fields: seq<Field>, n: nat)
    requires n <= |specs|
    ensures forall i :: 0 <= i < |Reading(specs, fields, n)| ==> Reading(specs, fields, n)[i].index < n
  {
    hide Shown, Lookup;
    if n > 0 {
      ReadingBelow(specs, fields, n - 1);
    }
  }

  lemma OneMoreSame(specs: seq<ParamSpec>, p: seq<Field>, q: seq<Field>, n: nat)
    requires 0 < n <= |specs|
    ensures var v, w := Lookup(p, specs[n - 1].name), Lookup(q, specs[n - 1].name);
      SameShown(specs[..n], p, q) <==>
        (SameShown(specs[..n - 1], p, q) && ((Shown(specs[n - 1], v) || Shown(specs[n - 1], w)) ==> v == w))
  {
    hide Shown, Lookup;
    assert forall i :: 0 <= i < n - 1 ==> specs[..n - 1][i] == specs[..n][i];
    assert specs[..n][n - 1] == specs[n - 1];
  }

  lemma OneMoreGiven(r: seq<Given>, a: bool, v: Value, s: seq<Given>, b: bool, w: Value, k: nat)
    requires (forall i :: 0 <= i < |r| ==> r[i].index < k) && forall i :: 0 <= i < |s| ==> s[i].index < k
    requires v == w ==> a == b
    ensures var x, y := r + (if a then [Given(k, v)] else []), s + (if b then [Given(k, w)] else []);
      x == y <==> (r == s && (a || b ==> v == w))
  {
    var x, y := r + (if a then [Given(k, v)] else []), s + (if b then [Given(k, w)] else []);
    assert a ==> x[..|x| - 1] == r && x[|x| - 1] == Given(k, v);
    assert b ==> y[..|y| - 1] == s && y[|y| - 1] == Given(k, w);
    assert !a ==> x == r;
    assert !b ==> y == s;
  }

  /** Two accepted requests with one command line ask for the same thing. */
  ghost predicate SameRequest(op: Operation, p: seq<Field>, q: seq<Field>, id: string) {
    Accepts(op, Fields(p)) && Accepts(op, Fields(q)) && Argv(op, p, id) == Argv(op, q, id) ==>
      SameShown(op.params, p, q)
  }

  lemma SamePrefix(op: Operation, p: seq<Field>, q: seq<Field>, id: string)
    ensures Argv(op, p, id) == Argv(op, q, id) <==> Rendered(op.params, p) == Rendered(op.params, q)
  {
    var fixed := Substitute(op.argv, INSTANCE_PLACEHOLDER, id);
    assert Argv(op, p, id)[|fixed|..] == Rendered(op.params, p);
    assert Argv(op, q, id)[|fixed|..] == Rendered(op.params, q);
  }

  lemma AcceptedReading(op: Operation, p: seq<Field>)
    requires Accepts(op, Fields(p))
    ensures var r := Reading(op.params, p, |op.params|);
      ReadingOk(op.params, r) && Permits(op, Indices(r)) && Rendered(op.params, p) == Line(op.params, r)
  {
    hide Takes, Reading, Line, Rendered, Present, Chosen;
    assert op.params[..|op.params|] == op.params;
    ReadingIsOk(op.params, p, |op.params|);
    ReadingRenders(op.params, p, |op.params|);
  }

  lemma NoTwoAlikeDecodes(op: Operation, p: seq<Field>, q: seq<Field>, id: string)
    requires SpecsOk(op.params) && NoTwoAlike(op)
    ensures SameRequest(op, p, q, id)
  {
    hide SpecsOk, Permits, Accepts, Argv, Line, Reading, Rendered, SameShown, Clash, Takes, Shown;
    if Accepts(op, Fields(p)) && Accepts(op, Fields(q)) && Argv(op, p, id) == Argv(op, q, id) {
      var r, s := Reading(op.params, p, |op.params|), Reading(op.params, q, |op.params|);
      SamePrefix(op, p, q, id);
      AcceptedReading(op, p);
      AcceptedReading(op, q);
      SameLineAlike(op.params, r, s);
      assert Alike(op.params, Indices(r), Indices(s));
      assert forall i :: 0 <= i < |r| ==> r[i].index == Indices(r)[i] && s[i].index == Indices(s)[i];
      assert r == s;
      assert op.params[..|op.params|] == op.params;
      SameShownIff(op.params, p, q, |op.params|);
    }
  }

  /** A request that shows just this. */
  function Request(specs: seq<ParamSpec>, r: seq<Given>): (fields: seq<Field>)
    requires forall i :: 0 <= i < |r| ==> r[i].index < |specs|
    ensures |fields| == |r| && forall i :: 0 <= i < |r| ==> fields[i] == Field(specs[r[i].index].name, r[i].value)
  {
    seq(|r|, i requires 0 <= i < |r| => Field(specs[r[i].index].name, r[i].value))
  }

  lemma {:induction false} LookupAt(fields: seq<Field>, k: nat)
    requires k < |fields| && forall j :: 0 <= j < k ==> fields[j].key != fields[k].key
    ensures Lookup(fields, fields[k].key) == fields[k].value
  {
    if k > 0 {
      assert fields[0].key != fields[k].key;
      LookupAt(fields[1..], k - 1);
    }
  }

  lemma RequestLookup(specs: seq<ParamSpec>, r: seq<Given>, k: nat)
    requires DistinctNames(specs) && ReadingOk(specs, r) && k < |r|
    ensures Lookup(Request(specs, r), specs[r[k].index].name) == r[k].value
  {
    hide Lookup, Takes, Shown;
    var fields := Request(specs, r);
    forall j | 0 <= j < k ensures fields[j].key != fields[k].key {
      assert r[j].index < r[k].index;
    }
    LookupAt(fields, k);
  }

  lemma RequestMissing(specs: seq<ParamSpec>, r: seq<Given>, i: nat)
    requires DistinctNames(specs) && ReadingOk(specs, r) && i < |specs| && forall k :: 0 <= k < |r| ==> r[k].index != i
    ensures Lookup(Request(specs, r), specs[i].name) == Undefined
  {
    hide Lookup, Takes, Shown;
    LookupMissing(Request(specs, r), specs[i].name);
  }

  lemma {:induction false} RequestReads(specs: seq<ParamSpec>, r: seq<Given>, n: nat, m: nat)
    requires DistinctNames(specs) && ReadingOk(specs, r) && n <= |specs| && m <= |r|
    requires (forall k :: 0 <= k < m ==> r[k].index < n) && forall k :: m <= k < |r| ==> r[k].index >= n
    ensures Reading(specs, Request(specs, r), n) == r[..m]
  {
    hide Lookup, Takes, Shown, DistinctNames;
    if n > 0 {
      if m > 0 && r[m - 1].index == n - 1 {
        RequestReads(specs, r, n - 1, m - 1);
        RequestLookup(specs, r, m - 1);
        assert r[..m - 1] + [r[m - 1]] == r[..m];
      } else {
        RequestReads(specs, r, n - 1, m);
        RequestMissing(specs, r, n - 1);
        NothingShown(specs[n - 1]);
      }
    }
  }

  lemma NothingShown(spec: ParamSpec)
    ensures !Shown(spec, Undefined) && Takes(spec, Undefined)
  {
  }

  lemma RequestTaken(specs: seq<ParamSpec>, r: seq<Given>)
    requires DistinctNames(specs) && ReadingOk(specs, r)
    ensures TakesAll(specs, Request(specs, r))
  {
    hide Lookup, Takes, Shown, DistinctNames;
    var fields := Request(specs, r);
    forall i | 0 <= i < |specs| ensures Takes(specs[i], Lookup(fields, specs[i].name)) {
      if k :| 0 <= k < |r| && r[k].index == i {
        RequestLookup(specs, r, k);
      } else {
        RequestMissing(specs, r, i);
        NothingShown(specs[i]);
      }
    }
  }

  /** Every permitted reading is the reading of an accepted request. */
  lemma RequestAccepted(op: Operation, r: seq<Given>)
    requires SpecsOk(op.params) && ReadingOk(op.params, r) && Permits(op, Indices(r))
    ensures var fields := Request(op.params, r);
      Accepts(op, Fields(fields)) && Reading(op.params, fields, |op.params|) == r
      && Rendered(op.params, fields) == Line(op.params, r)
  {
    hide Lookup, Takes, Shown, DistinctNames, ShapeOk, Reading, Line, Rendered, Present, CountPresent;
    var specs, fields := op.params, Request(op.params, r);
    RequestTaken(specs, r);
    RequestReads(specs, r, |specs|, |r|);
    ReadingRenders(specs, fields, |specs|);
    assert specs[..|specs|] == specs && r[..|r|] == r;
    forall k | 0 <= k < |fields| ensures fields[k].key in Names(specs) {
      assert r[k].index < |specs|;
    }
  }

  ghost function CommonValue(a: ParamSpec, b: ParamSpec): (v: Value)
    requires Clash(a, b)
    ensures Shown(a, v) && Takes(a, v) && Takes(b, v)
  {
    var v :| Shown(a, v) && Takes(a, v) && Takes(b, v);
    v
  }

  lemma {:induction false} SameValuesSameLine(specs: seq<ParamSpec>, r: seq<Given>, s: seq<Given>)
    requires InRange(specs, r) && InRange(specs, s) && |r| == |s|
    requires forall i :: 0 <= i < |r| ==> r[i].value == s[i].value && specs[r[i].index].argv == specs[s[i].index].argv
    ensures Line(specs, r) == Line(specs, s)
  {
    hide Takes, Substitute;
    if r != [] {
      SameValuesSameLine(specs, r[..|r| - 1], s[..|s| - 1]);
    }
  }

  /** Two permitted readings with one line are two requests that cannot be told apart. */
  lemma TwoReadings(op: Operation, r: seq<Given>, u: seq<Given>, id: string)
    requires SpecsOk(op.params) && ReadingOk(op.params, r) && ReadingOk(op.params, u) && r != u
    requires Permits(op, Indices(r)) && Permits(op, Indices(u)) && Line(op.params, r) == Line(op.params, u)
    ensures !SameRequest(op, Request(op.params, r), Request(op.params, u), id)
  {
    hide SpecsOk, Permits, Reading, Line, Rendered, Accepts, Argv, SameShown, Takes, Shown;
    var p, q := Request(op.params, r), Request(op.params, u);
    RequestAccepted(op, r);
    RequestAccepted(op, u);
    SamePrefix(op, p, q, id);
    SameShownIff(op.params, p, q, |op.params|);
    assert op.params[..|op.params|] == op.params;
  }

  lemma AlikeAmbiguous(op: Operation, s: seq<nat>, t: seq<nat>, id: string)
    requires SpecsOk(op.params) && Permits(op, s) && Permits(op, t) && Alike(op.params, s, t) && s != t
    ensures exists p, q :: !SameRequest(op, p, q, id)
  {
    hide SpecsOk, Takes, Shown, Clash, Chosen, Line, CountPresent, SameRequest;
    var specs := op.params;
    var values := seq(|s|, i requires 0 <= i < |s| => CommonValue(specs[s[i]], specs[t[i]]));
    var r := seq(|s|, i requires 0 <= i < |s| => Given(s[i], values[i]));
    var u := seq(|t|, i requires 0 <= i < |t| => Given(t[i], values[i]));
    assert Indices(r) == s && Indices(u) == t;
    forall i | 0 <= i < |s|
      ensures Shown(specs[s[i]], values[i]) && Shown(specs[t[i]], values[i]) && specs[s[i]].argv == specs[t[i]].argv
      ensures Takes(specs[s[i]], values[i]) && Takes(specs[t[i]], values[i])
    {
      ClashGives(specs[s[i]], specs[t[i]]);
    }
    SameValuesSameLine(specs, r, u);
    TwoReadings(op, r, u, id);
  }

  lemma ClashGives(a: ParamSpec, b: ParamSpec)
    requires Clash(a, b)
    ensures a.argv == b.argv && Shown(a, CommonValue(a, b)) && Shown(b, CommonValue(a, b))
    ensures Takes(a, CommonValue(a, b)) && Takes(b, CommonValue(a, b))
  {
  }

  /** Every command line of an operation tells exactly which parameters were given and with which values, exactly when no
      two of the selections it permits clash in every place. */
  lemma DecodesIffNoTwoAlike(op: Operation, id: string)
    requires SpecsOk(op.params)
    ensures (forall p, q :: SameRequest(op, p, q, id)) <==> NoTwoAlike(op)
  {
    hide SpecsOk, SameRequest, Permits, Alike;
    if NoTwoAlike(op) {
      forall p, q ensures SameRequest(op, p, q, id) {
        NoTwoAlikeDecodes(op, p, q, id);
      }
    } else {
      var s, t :| Permits(op, s) && Permits(op, t) && Alike(op.params, s, t) && s != t;
      AlikeAmbiguous(op, s, t, id);
    }
  }

  /** In particular when no two parameters clash. */
  lemma ArgvDecodes(op: Operation, p: seq<Field>, q: seq<Field>, id: string)
    requires SpecsOk(op.params) && NoClash(op.params)
    ensures SameRequest(op, p, q, id)
  {
    hide Takes, Permits, SameRequest, SpecsOk;
    forall s, t | Permits(op, s) && Permits(op, t) && Alike(op.params, s, t) ensures s == t {
      forall i | 0 <= i < |s| ensures s[i] == t[i] {
        ClashIsSymmetric(op.params[s[i]], op.params[t[i]]);
      }
    }
    NoTwoAlikeDecodes(op, p, q, id);
  }

  lemma ClashIsSymmetric(a: ParamSpec, b: ParamSpec)
    requires Clash(a, b)
    ensures Clash(b, a)
  {
    var v :| Shown(a, v) && Takes(a, v) && Takes(b, v);
    ClashHolds(b, a, v);
  }

  function Switch(name: string): ParamSpec {
    ParamSpec(name, BooleanParam, None, None, None, ["--now"])
  }

  function StopOperation(): Operation {
    Operation("stop", ["stop"], [Switch("hard"), Switch("soon")], [], [])
  }

  lemma StopIsOk()
    ensures SpecsOk(StopOperation().params)
  {
    assert IsFlag("--now");
    assert "hard"[0] == 'h' && "soon"[0] == 's' && OPERATION_KEY[0] == 'o';
  }

  lemma StopReading(i: nat)
    requires i < 2
    ensures var r := [Given(i, Boolean(true))];
      ReadingOk(StopOperation().params, r) && Permits(StopOperation(), Indices(r))
  {
    hide CountPresent, Chosen;
  }

  /** The schema lets two parameters share a flag: a command line with it has two readings when the operation demands
      neither. */
  lemma SharedFlagHasTwoReadings(id: string)
    ensures SpecsOk(StopOperation().params)
    ensures !SameRequest(StopOperation(), [Field("hard", Boolean(true))], [Field("soon", Boolean(true))], id)
  {
    hide SameRequest, SpecsOk, Permits, ReadingOk, Tokens;
    var op, r, u := StopOperation(), [Given(0, Boolean(true))], [Given(1, Boolean(true))];
    StopIsOk();
    StopReading(0);
    StopReading(1);
    SameValuesSameLine(op.params, r, u);
    TwoReadings(op, r, u, id);
    assert Request(op.params, r) == [Field("hard", Boolean(true))];
    assert Request(op.params, u) == [Field("soon", Boolean(true))];
  }

  // ---------- rebuilding at confirm time ----------

  /** What is stored of a request: the declared parameters that have a value. */
  function Declared(specs: seq<ParamSpec>, fields: seq<Field>): seq<Field> {
    if specs == [] then []
    else
      var k := |specs| - 1;
      var v := Lookup(fields, specs[k].name);
      Declared(specs[..k], fields) + if Absent(v) then [] else [Field(specs[k].name, v)]
  }

  lemma {:induction false} LookupAppend(p: seq<Field>, q: seq<Field>, key: string)
    ensures Lookup(p + q, key) ==
      if exists i :: 0 <= i < |p| && p[i].key == key then Lookup(p, key) else Lookup(q, key)
  {
    if p == [] {
      assert p + q == q;
    } else {
      LookupAppend(p[1..], q, key);
      assert (p + q)[1..] == p[1..] + q;
      if p[0].key != key {
        assert forall i :: 0 <= i < |p[1..]| ==> p[1..][i] == p[i + 1];
        assert forall i :: 0 < i < |p| ==> p[i] == p[1..][i - 1];
      }
    }
  }

  lemma {:induction false} DeclaredKeys(specs: seq<ParamSpec>, fields: seq<Field>)
    ensures forall i :: 0 <= i < |Declared(specs, fields)| ==>
      Declared(specs, fields)[i].key in Names(specs)
  {
    if specs != [] {
      var k := |specs| - 1;
      DeclaredKeys(specs[..k], fields);
      assert specs[k].name in Names(specs);
      assert forall i :: 0 <= i < k ==> specs[..k][i].name == specs[i].name;
    }
  }

  lemma {:induction false} DeclaredLookup(specs: seq<ParamSpec>, fields: seq<Field>, i: nat)
    requires DistinctNames(specs) && i < |specs|
    ensures var v := Lookup(fields, specs[i].name);
      Lookup(Declared(specs, fields), specs[i].name) == if Absent(v) then Undefined else v
    decreases |specs|
  {
    hide Lookup, Absent;
    var k := |specs| - 1;
    var before := Declared(specs[..k], fields);
    var name := specs[i].name;
    var v := Lookup(fields, specs[k].name);
    var last := if Absent(v) then [] else [Field(specs[k].name, v)];
    LookupAppend(before, last, name);
    LastLookup(specs[k].name, v, name);
    if i < k {
      DeclaredLookup(specs[..k], fields, i);
      if !(exists j :: 0 <= j < |before| && before[j].key == name) {
        LookupMissing(before, name);
      }
    } else {
      DeclaredKeys(specs[..k], fields);
      forall j | 0 <= j < |before| ensures before[j].key != name {
        assert before[j].key in Names(specs[..k]);
      }
    }
  }

  lemma LastLookup(key: string, v: Value, name: string)
    ensures Lookup([], name) == Undefined
    ensures Lookup([Field(key, v)], name) == if key == name then v else Undefined
  {
  }

  lemma {:induction false} LookupMissing(fields: seq<Field>, key: string)
    requires forall j :: 0 <= j < |fields| ==> fields[j].key != key
    ensures Lookup(fields, key) == Undefined
  {
    if fields != [] {
      LookupMissing(fields[1..], key);
    }
  }

  ghost predicate Agree(specs: seq<ParamSpec>, p: seq<Field>, q: seq<Field>) {
    forall i :: 0 <= i < |specs| ==>
      var v, w := Lookup(p, specs[i].name), Lookup(q, specs[i].name);
      v == w || (Absent(v) && Absent(w))
  }

  lemma {:induction false} AgreeingRender(specs: seq<ParamSpec>, p: seq<Field>, q: seq<Field>)
    requires Agree(specs, p, q)
    ensures Rendered(specs, p) == Rendered(specs, q) && Present(specs, p) == Present(specs, q)
  {
    if specs != [] {
      AgreeingRender(specs[..|specs| - 1], p, q);
    }
  }

  /** A change is carried out with the command line it was proposed with: the stored parameters and the operation name
      are accepted again and give the same arguments. */
  lemma StoredParamsRebuild(op: Operation, fields: seq<Field>, toolInstanceId: string)
    requires SpecsOk(op.params) && Accepts(op, Fields(fields))
    ensures var stored := Declared(op.params, fields) + [Field(OPERATION_KEY, Str(op.name))];
      Accepts(op, Fields(stored)) && Argv(op, stored, toolInstanceId) == Argv(op, fields, toolInstanceId)
  {
    hide Problem, Tokens;
    var specs := op.params;
    var declared := Declared(specs, fields);
    var stored := declared + [Field(OPERATION_KEY, Str(op.name))];
    DeclaredKeys(specs, fields);
    forall i | 0 <= i < |specs|
      ensures var v := Lookup(fields, specs[i].name);
        Lookup(stored, specs[i].name) == if Absent(v) then Undefined else v
    {
      DeclaredLookup(specs, fields, i);
      LookupAppend(declared, [Field(OPERATION_KEY, Str(op.name))], specs[i].name);
      if !(exists j :: 0 <= j < |declared| && declared[j].key == specs[i].name) {
        LookupMissing(declared, specs[i].name);
      }
    }
    assert Agree(specs, stored, fields);
    AgreeingRender(specs, stored, fields);
  }
}
