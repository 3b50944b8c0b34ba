/** Reconciling the exec approvals of a node with the set it wants. */
module ExecApprovals {

  /** The allowlist patterns of one agent; a snapshot names each agent once. */
  datatype Agent = Agent(name: string, patterns: seq<string>)

  datatype Change = Change(agent: string, pattern: string)

  datatype Plan = Plan(remove: seq<Change>, add: seq<Change>)

  function PatternsOf(agents: seq<Agent>, name: string): seq<string> {
    if agents == [] then []
    else if agents[0].name == name then agents[0].patterns
    else PatternsOf(agents[1..], name)
  }

  /** What an approvals snapshot allows. */
  ghost predicate Allows(agents: seq<Agent>, c: Change) {
    exists a :: a in agents && a.name == c.agent && c.pattern in a.patterns
  }

  ghost predicate NamesDistinct(agents: seq<Agent>) {
    forall i, j :: 0 <= i < j < |agents| ==> agents[i].name != agents[j].name
  }

  /** The patterns not in `known`, each once when `unique` is asked for. */
  function Missing(agent: string, patterns: seq<string>, known: seq<string>, unique: bool): (r: seq<Change>)
    ensures forall c :: c in r <==> c.agent == agent && c.pattern in patterns && c.pattern !in known
    ensures unique ==> forall i, j :: 0 <= i < j < |r| ==> r[i] != r[j]
  {
    if patterns == [] then []
    else
      var n := |patterns| - 1;
      assert patterns == patterns[..n] + [patterns[n]];
      var rest := Missing(agent, patterns[..n], known, unique);
      var c := Change(agent, patterns[n]);
      if patterns[n] in known || (unique && c in rest) then rest else rest + [c]
  }

  function MissingFrom(agents: seq<Agent>, others: seq<Agent>, unique: bool): (r: seq<Change>)
    ensures forall c :: c in r <==> Allows(agents, c) && c.pattern !in PatternsOf(others, c.agent)
  {
    if agents == [] then []
    else
      var n := |agents| - 1;
      assert agents == agents[..n] + [agents[n]];
      MissingFrom(agents[..n], others, unique) + Missing(agents[n].name, agents[n].patterns, PatternsOf(others, agents[n].name), unique)
  }

  function PlanReconciliation(current: seq<Agent>, expected: seq<Agent>): Plan {
    Plan(MissingFrom(current, expected, false), MissingFrom(expected, current, true))
  }

  lemma {:induction false} PatternsAreAllowed(agents: seq<Agent>, c: Change)
    requires NamesDistinct(agents)
    ensures c.pattern in PatternsOf(agents, c.agent) <==> Allows(agents, c)
  {
    if agents != [] {
      assert agents == [agents[0]] + agents[1..];
      PatternsAreAllowed(agents[1..], c);
      if agents[0].name == c.agent {
        forall a | a in agents[1..] ensures a.name != c.agent {
          var i :| 0 <= i < |agents[1..]| && agents[1..][i] == a;
          assert agents[i + 1] == a;
        }
      }
    }
  }

  /** Applying the plan turns what is allowed into exactly what is expected: every entry nobody asked for goes,
      every missing one comes, and nothing else is touched. */
  lemma PlanReachesExpected(current: seq<Agent>, expected: seq<Agent>, c: Change)
    requires NamesDistinct(current) && NamesDistinct(expected)
    ensures var plan := PlanReconciliation(current, expected);
      && ((Allows(current, c) && c !in plan.remove) || c in plan.add <==> Allows(expected, c))
      && (c in plan.remove ==> Allows(current, c))
      && (c in plan.add ==> !Allows(current, c))
  {
    PatternsAreAllowed(current, c);
    PatternsAreAllowed(expected, c);
  }
}
