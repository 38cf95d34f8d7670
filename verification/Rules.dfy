/** Which rule decides about a redirected connection: rules without an
    application constraint first, then the application rules that proxy,
    preferring those with a destination criterion. */
module Rules {
  import opened Bytes

  datatype Action = Direct | Proxy | Chain | Block | Reject

  /** Empty text and port 0 mean "any". */
  datatype Rule = Rule(
    id: nat,
    enabled: bool,
    app: seq<byte>,
    domain: seq<byte>,
    ip: seq<byte>,
    port: nat,
    action: Action,
    proxyId: nat)

  /** The pattern matchers (pattern first); selection does not depend on how they work. */
  datatype Matchers = Matchers(
    app: (seq<byte>, seq<byte>) -> bool,
    domain: (seq<byte>, seq<byte>) -> bool,
    ip: (seq<byte>, seq<byte>) -> bool)

  /** A destination; parts may be unknown. */
  datatype Destination = Destination(domain: Option<seq<byte>>, ip: Option<seq<byte>>, port: int)

  predicate TextOk(pattern: seq<byte>, subject: Option<seq<byte>>, matches: (seq<byte>, seq<byte>) -> bool) {
    pattern == [] || (subject.Some? && matches(pattern, subject.value))
  }

  /** All destination criteria the rule has are met. */
  predicate Covers(m: Matchers, r: Rule, d: Destination) {
    && TextOk(r.domain, d.domain, m.domain)
    && TextOk(r.ip, d.ip, m.ip)
    && (r.port == 0 || d.port == r.port)
  }

  predicate HasCriterion(r: Rule) {
    r.domain != [] || r.ip != [] || r.port != 0
  }

  // ----- The decision

  /** The first index from `from` on with a property, or `|rules|`. */
  function Position(rules: seq<Rule>, p: Rule -> bool, from: nat): (i: nat)
    requires from <= |rules|
    ensures from <= i <= |rules|
    ensures forall j :: from <= j < i ==> !p(rules[j])
    ensures i < |rules| ==> p(rules[i])
    decreases |rules| - from
  {
    if from == |rules| || p(rules[from]) then from else Position(rules, p, from + 1)
  }

  /** The index of the first rule with a property. */
  function First(rules: seq<Rule>, p: Rule -> bool): (r: Option<nat>)
    ensures r.Some? ==> r.value < |rules| && p(rules[r.value]) && forall j :: 0 <= j < r.value ==> !p(rules[j])
    ensures r.None? ==> forall i :: 0 <= i < |rules| ==> !p(rules[i])
  {
    var i := Position(rules, p, 0);
    if i == |rules| then None else Some(i)
  }

  /** Enabled rules all of whose criteria match; an unknown application
      matches only rules without an application criterion. */
  function Full(m: Matchers, app: Option<seq<byte>>, d: Destination): Rule -> bool {
    (r: Rule) => r.enabled && TextOk(r.app, app, m.app) && Covers(m, r, d)
  }

  /** Application-less rules for the destination. */
  function General(m: Matchers, d: Destination): Rule -> bool {
    (r: Rule) => r.enabled && r.app == [] && Covers(m, r, d)
  }

  /** Application rules that proxy the destination, with or without a criterion of their own. */
  function AppProxy(m: Matchers, d: Destination, criterion: bool): Rule -> bool {
    (r: Rule) =>
      r.enabled && r.app != [] && r.action.Proxy? && r.proxyId != 0 && Covers(m, r, d) && HasCriterion(r) == criterion
  }

  /** The deciding rule: the first general one unless it says direct, else
      the first specific application rule, else the first catch-all one. */
  function Decision(m: Matchers, rules: seq<Rule>, d: Destination): (r: Option<nat>)
    ensures r.Some? ==> r.value < |rules|
  {
    var general := First(rules, General(m, d));
    if general.Some? && !rules[general.value].action.Direct? then general
    else
      var specific := First(rules, AppProxy(m, d, true));
      if specific.Some? then specific else First(rules, AppProxy(m, d, false))
  }

  // ----- The code

  /** First enabled rule whose every criterion matches. */
  method RulesMatch(m: Matchers, rules: seq<Rule>, app: Option<seq<byte>>, d: Destination) returns (r: Option<nat>)
    ensures r == First(rules, Full(m, app, d))
    ensures r.Some? ==> r.value < |rules| && FullMatch(m, rules[r.value], app, d)
                        && forall j :: 0 <= j < r.value ==> !FullMatch(m, rules[j], app, d)
    ensures r.None? ==> forall j :: 0 <= j < |rules| ==> !FullMatch(m, rules[j], app, d)
  {
    ghost var p := Full(m, app, d);
    var i := 0;
    while i < |rules|
      invariant 0 <= i <= |rules| && Position(rules, p, 0) == Position(rules, p, i)
      invariant forall j :: 0 <= j < i ==> !FullMatch(m, rules[j], app, d)
    {
      var x := rules[i];
      if x.enabled
         && (x.app == [] || (app.Some? && m.app(x.app, app.value)))
         && (x.domain == [] || (d.domain.Some? && m.domain(x.domain, d.domain.value)))
         && (x.ip == [] || (d.ip.Some? && m.ip(x.ip, d.ip.value)))
         && (x.port == 0 || d.port == x.port)
      {
        return Some(i);
      }
      i := i + 1;
    }
    return None;
  }

  /** The rule selection of the transparent proxy's connect callback. */
  method Select(m: Matchers, rules: seq<Rule>, d: Destination) returns (rule: Option<nat>)
    ensures rule == Decision(m, rules, d)
  {
    rule := RulesMatch(m, rules, None, d);
    SameFirst(rules, Full(m, None, d), General(m, d));
    if rule.None? || rules[rule.value].action.Direct? {
      var specific, catchAll := ScanAppRules(m, rules, d);
      rule := if specific.Some? then specific else catchAll;
    }
  }

  /** One pass that remembers the first match of either sort. */
  method ScanAppRules(m: Matchers, rules: seq<Rule>, d: Destination)
      returns (specific: Option<nat>, catchAll: Option<nat>)
    ensures specific == First(rules, AppProxy(m, d, true))
    ensures catchAll == First(rules, AppProxy(m, d, false))
  {
    specific, catchAll := None, None;
    var i := 0;
    while i < |rules|
      invariant 0 <= i <= |rules|
      invariant Remembers(rules, AppProxy(m, d, true), specific, i)
      invariant Remembers(rules, AppProxy(m, d, false), catchAll, i)
    {
      var r := rules[i];
      if r.enabled && r.action.Proxy? && r.app != [] && r.proxyId != 0 && Covers(m, r, d) {
        if HasCriterion(r) {
          if specific.None? {
            specific := Some(i);
          }
        } else if catchAll.None? {
          catchAll := Some(i);
        }
      }
      i := i + 1;
    }
  }

  /** What a scan that keeps the first match knows in front of index i. */
  ghost predicate Remembers(rules: seq<Rule>, p: Rule -> bool, found: Option<nat>, i: nat)
    requires i <= |rules|
  {
    if found.Some? then found.value < i && Position(rules, p, 0) == found.value
    else Position(rules, p, 0) == Position(rules, p, i)
  }

  lemma {:induction false} PositionIs(rules: seq<Rule>, p: Rule -> bool, from: nat, i: nat)
    requires from <= i <= |rules|
    requires forall j :: from <= j < i ==> !p(rules[j])
    requires i < |rules| ==> p(rules[i])
    ensures Position(rules, p, from) == i
  {
  }

  lemma SameFirst(rules: seq<Rule>, p: Rule -> bool, q: Rule -> bool)
    requires forall r :: p(r) == q(r)
    ensures First(rules, p) == First(rules, q)
  {
    PositionIs(rules, p, 0, Position(rules, q, 0));
  }

  // ----- What the decision is

  /** All criteria of an enabled rule match. */
  ghost predicate FullMatch(m: Matchers, r: Rule, app: Option<seq<byte>>, d: Destination) {
    && r.enabled
    && (r.app != [] ==> app.Some? && m.app(r.app, app.value))
    && (r.domain != [] ==> d.domain.Some? && m.domain(r.domain, d.domain.value))
    && (r.ip != [] ==> d.ip.Some? && m.ip(r.ip, d.ip.value))
    && (r.port != 0 ==> d.port == r.port)
  }

  /** An enabled rule for any application whose domain, address and port match. */
  ghost predicate GeneralMatch(m: Matchers, r: Rule, d: Destination) {
    && r.enabled && r.app == []
    && (r.domain != [] ==> d.domain.Some? && m.domain(r.domain, d.domain.value))
    && (r.ip != [] ==> d.ip.Some? && m.ip(r.ip, d.ip.value))
    && (r.port != 0 ==> d.port == r.port)
  }

  /** An enabled application rule with a proxy and at least one criterion, all of which match. */
  ghost predicate SpecificMatch(m: Matchers, r: Rule, d: Destination) {
    && r.enabled && r.app != [] && r.action == Proxy && r.proxyId != 0
    && (r.domain != [] || r.ip != [] || r.port != 0)
    && (r.domain != [] ==> d.domain.Some? && m.domain(r.domain, d.domain.value))
    && (r.ip != [] ==> d.ip.Some? && m.ip(r.ip, d.ip.value))
    && (r.port != 0 ==> d.port == r.port)
  }

  /** An enabled application rule with a proxy and no criterion. */
  ghost predicate CatchAll(r: Rule) {
    r.enabled && r.app != [] && r.action == Proxy && r.proxyId != 0 && r.domain == [] && r.ip == [] && r.port == 0
  }

  /** There is no general match, or the first one says direct. */
  ghost predicate NotDiverted(m: Matchers, rules: seq<Rule>, d: Destination) {
    forall g | 0 <= g < |rules| && GeneralMatch(m, rules[g], d) && rules[g].action != Direct ::
      exists j :: 0 <= j < g && GeneralMatch(m, rules[j], d)
  }

  /** Rule i decides if and only if it is the first general match and not
      direct; or the first general match is absent or direct, and i is the
      first specific match; or there is neither, and i is the first catch-all.
      Otherwise no rule decides. */
  lemma DecisionIff(m: Matchers, rules: seq<Rule>, d: Destination)
    ensures forall i :: 0 <= i < |rules| ==>
              (Decision(m, rules, d) == Some(i) <==>
                 || (&& GeneralMatch(m, rules[i], d) && rules[i].action != Direct
                     && forall j :: 0 <= j < i ==> !GeneralMatch(m, rules[j], d))
                 || (&& NotDiverted(m, rules, d) && SpecificMatch(m, rules[i], d)
                     && forall j :: 0 <= j < i ==> !SpecificMatch(m, rules[j], d))
                 || (&& NotDiverted(m, rules, d) && (forall j :: 0 <= j < |rules| ==> !SpecificMatch(m, rules[j], d))
                     && CatchAll(rules[i]) && forall j :: 0 <= j < i ==> !CatchAll(rules[j])))
    ensures Decision(m, rules, d).None? <==>
              && NotDiverted(m, rules, d)
              && forall j :: 0 <= j < |rules| ==> !SpecificMatch(m, rules[j], d) && !CatchAll(rules[j])
  {
    assert forall r :: General(m, d)(r) == GeneralMatch(m, r, d);
    assert forall r :: AppProxy(m, d, true)(r) == SpecificMatch(m, r, d);
    assert forall r :: AppProxy(m, d, false)(r) == CatchAll(r);
    hide General, AppProxy, GeneralMatch, SpecificMatch, CatchAll;
  }

  // ----- What the decision depends on

  function EnabledOnly(rules: seq<Rule>): seq<Rule> {
    if rules == [] then []
    else (if rules[0].enabled then [rules[0]] else []) + EnabledOnly(rules[1..])
  }

  /** The rule at a position, if there is one. */
  function RuleAt(rules: seq<Rule>, i: Option<nat>): Option<Rule>
    requires i.Some? ==> i.value < |rules|
  {
    if i.None? then None else Some(rules[i.value])
  }

  function FirstRule(rules: seq<Rule>, p: Rule -> bool): Option<Rule> {
    RuleAt(rules, First(rules, p))
  }

  lemma FirstRuleStep(rules: seq<Rule>, p: Rule -> bool)
    requires rules != []
    ensures FirstRule(rules, p) == if p(rules[0]) then Some(rules[0]) else FirstRule(rules[1..], p)
  {
    if p(rules[0]) {
      PositionIs(rules, p, 0, 0);
    } else {
      PositionIs(rules, p, 0, 1 + Position(rules[1..], p, 0));
    }
  }

  lemma {:induction false} FirstOfEnabled(rules: seq<Rule>, p: Rule -> bool)
    requires forall r :: p(r) ==> r.enabled
    ensures FirstRule(rules, p) == FirstRule(EnabledOnly(rules), p)
    decreases |rules|
  {
    hide FirstRule;
    if rules != [] {
      FirstRuleStep(rules, p);
      FirstOfEnabled(rules[1..], p);
      if rules[0].enabled {
        FirstRuleStep(EnabledOnly(rules), p);
        assert EnabledOnly(rules)[1..] == EnabledOnly(rules[1..]);
      } else {
        assert EnabledOnly(rules) == EnabledOnly(rules[1..]);
      }
    }
  }

  lemma DecisionRule(m: Matchers, rules: seq<Rule>, d: Destination)
    ensures RuleAt(rules, Decision(m, rules, d)) ==
            var general := FirstRule(rules, General(m, d));
            if general.Some? && !general.value.action.Direct? then general
            else
              var specific := FirstRule(rules, AppProxy(m, d, true));
              if specific.Some? then specific else FirstRule(rules, AppProxy(m, d, false))
  {
    hide First, General, AppProxy;
  }

  /** Disabled rules never matter: rulesets with the same enabled rules in the
      same order decide alike, for every destination and every matcher. */
  lemma DisabledRulesIrrelevant(m: Matchers, a: seq<Rule>, b: seq<Rule>, d: Destination)
    requires EnabledOnly(a) == EnabledOnly(b)
    ensures RuleAt(a, Decision(m, a, d)) == RuleAt(b, Decision(m, b, d))
  {
    FirstOfEnabled(a, General(m, d));
    FirstOfEnabled(b, General(m, d));
    FirstOfEnabled(a, AppProxy(m, d, true));
    FirstOfEnabled(b, AppProxy(m, d, true));
    FirstOfEnabled(a, AppProxy(m, d, false));
    FirstOfEnabled(b, AppProxy(m, d, false));
    DecisionRule(m, a, d);
    DecisionRule(m, b, d);
  }
}
