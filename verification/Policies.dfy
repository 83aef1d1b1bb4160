/** Policy documents: loading a directory of them, and the three decisions taken from what was loaded. */
module Policies {
  import opened Wrappers
  import opened Disclosure
  import opened Vault

  datatype GovernanceContext = GovernanceContext(
    domain: string, purpose: string, requesterRole: Option<string>, requesterId: Option<string>, providerClass: string,
    policyVersion: string, requestedPseudonymScope: Scope, requestId: Option<string>, documentId: Option<string>,
    sessionId: Option<string>)

  /** The vault partition key, or `None` when the scope needs an identifier the context lacks. */
  function ScopeKey(scope: Scope, c: GovernanceContext): Option<string> {
    if scope == OrganizationScope then Some("organization:" + c.domain)
    else
      var identifier := match scope case RequestScope => c.requestId case DocumentScope => c.documentId case _ => c.sessionId;
      if identifier.None? then None else Some(ScopeCode(scope) + ":" + c.domain + ":" + identifier.value)
  }

  /** Partitions of different scopes never coincide, and within a domain two contexts share one only
      if they agree on the identifier their scope goes by; without it there is none. */
  lemma ScopeKeysApart(s: Scope, c: GovernanceContext, t: Scope, d: GovernanceContext)
    requires ScopeKey(s, c).Some? && ScopeKey(t, d) == ScopeKey(s, c)
    ensures s == t
    ensures c.domain == d.domain ==>
              match s
              case RequestScope => c.requestId.Some? && c.requestId == d.requestId
              case DocumentScope => c.documentId.Some? && c.documentId == d.documentId
              case SessionScope => c.sessionId.Some? && c.sessionId == d.sessionId
              case OrganizationScope => true
  {
    var k, l := ScopeKey(s, c).value, ScopeKey(t, d).value;
    assert "request"[0] == 'r' && "document"[0] == 'd' && "session"[0] == 's' && "organization:"[0] == 'o';
    assert k[0] == ScopeCode(s)[0] && l[0] == ScopeCode(t)[0];
    if c.domain == d.domain && s != OrganizationScope {
      var head := ScopeCode(s) + ":" + c.domain + ":";
      assert k == head + k[|head|..] && k[|head|..] == l[|head|..];
    }
  }

  /** The key: the scope, the domain and the scope's own identifier, of which the organization has none. */
  lemma ScopeKeyText(s: Scope, c: GovernanceContext)
    ensures ScopeKey(s, c) ==
            match s
            case OrganizationScope => Some("organization:" + c.domain)
            case RequestScope => (match c.requestId case None => None case Some(id) => Some("request:" + c.domain + ":" + id))
            case DocumentScope => (match c.documentId case None => None case Some(id) => Some("document:" + c.domain + ":" + id))
            case SessionScope => (match c.sessionId case None => None case Some(id) => Some("session:" + c.domain + ":" + id))
  {
    assert "request" + ":" == "request:" && "document" + ":" == "document:" && "session" + ":" == "session:";
  }

  function ScopeRank(s: Scope): nat {
    match s case RequestScope => 0 case DocumentScope => 1 case SessionScope => 2 case OrganizationScope => 3
  }

  // ----- documents -----

  datatype PolicyOverride = PolicyOverride(
    action: Action, purpose: Option<string>, requesterRole: Option<string>, providerClass: Option<string>,
    allowedActions: seq<Action>)

  datatype PolicyRule = PolicyRule(
    default: Action, allowedActions: seq<Action>, purposeActions: map<string, seq<Action>>, overrides: seq<PolicyOverride>)

  datatype ScopePolicy = ScopePolicy(default: Scope, roleMax: map<string, Scope>, userMax: map<string, Scope>)

  datatype PolicyDocument = PolicyDocument(
    version: string, domain: string, rules: map<string, PolicyRule>, pseudonymScope: ScopePolicy)

  /** A `*.yaml` file, and the document or the error that reading and validating it gave. */
  datatype File = File(name: string, content: Result<PolicyDocument, string>)

  datatype PolicyRepository = PolicyRepository(policies: map<string, PolicyDocument>, loadErrors: map<string, string>)

  // ----- loading -----

  predicate Declares(f: File, version: string) { f.content.Ok? && f.content.value.version == version }

  /** How many valid documents declare the version. */
  function Declarations(files: seq<File>, version: string): nat {
    if |files| == 0 then 0
    else Declarations(files[..|files| - 1], version) + (if Declares(files[|files| - 1], version) then 1 else 0)
  }

  /** The last valid document that declares the version. */
  function LastDeclared(files: seq<File>, version: string): Option<PolicyDocument> {
    if |files| == 0 then None
    else if Declares(files[|files| - 1], version) then Some(files[|files| - 1].content.value)
    else LastDeclared(files[..|files| - 1], version)
  }

  predicate DistinctNames(files: seq<File>) { forall i, j :: 0 <= i < j < |files| ==> files[i].name != files[j].name }

  /** The file is reported: it is no valid document, or it repeats a version loaded at that point. */
  predicate Faulty(files: seq<File>, i: nat)
    requires i < |files|
  {
    files[i].content.Err? || Declarations(files[..i], files[i].content.value.version) % 2 == 1
  }

  ghost predicate LoadedExactly(files: seq<File>, r: PolicyRepository) {
    && (forall v :: v in r.policies <==> Declarations(files, v) % 2 == 1)
    && (forall v :: v in r.policies ==> LastDeclared(files, v) == Some(r.policies[v]) && r.policies[v].version == v)
  }

  ghost predicate ReportedExactly(files: seq<File>, r: PolicyRepository) {
    && (forall i :: 0 <= i < |files| ==> (files[i].name in r.loadErrors <==> Faulty(files, i)))
    && (forall name :: name in r.loadErrors ==> exists i :: 0 <= i < |files| && files[i].name == name)
  }

  /** What is reported of each file is its own error, or the version it repeats. */
  ghost predicate ReportedAs(files: seq<File>, r: PolicyRepository) {
    forall i :: 0 <= i < |files| && files[i].name in r.loadErrors ==>
      r.loadErrors[files[i].name] == match files[i].content
                                     case Err(message) => message
                                     case Ok(doc) => "duplicate policy version: " + doc.version
  }

  function ErrorOf(f: File): string {
    match f.content
    case Err(message) => message
    case Ok(doc) => "duplicate policy version: " + doc.version
  }

  lemma LoadStep(files: seq<File>, f: File, r: PolicyRepository, s: PolicyRepository)
    requires LoadedExactly(files, r)
    requires s.policies == if f.content.Err? then r.policies
                           else if f.content.value.version in r.policies then r.policies - {f.content.value.version}
                           else r.policies[f.content.value.version := f.content.value]
    ensures LoadedExactly(files + [f], s)
  {
    assert (files + [f])[..|files|] == files;
    forall v
      ensures Declarations(files + [f], v) == Declarations(files, v) + (if Declares(f, v) then 1 else 0)
      ensures LastDeclared(files + [f], v) == if Declares(f, v) then Some(f.content.value) else LastDeclared(files, v)
    {
    }
  }

  lemma ReportStep(files: seq<File>, f: File, r: PolicyRepository, s: PolicyRepository)
    requires LoadedExactly(files, r) && ReportedExactly(files, r) && DistinctNames(files + [f])
    requires s.loadErrors == if f.content.Err? || f.content.value.version in r.policies
                             then r.loadErrors[f.name := ErrorOf(f)] else r.loadErrors
    ensures ReportedExactly(files + [f], s)
  {
    var all := files + [f];
    forall name | name in r.loadErrors ensures name != f.name {
      var k :| 0 <= k < |files| && files[k].name == name;
      assert all[k].name != all[|files|].name;
    }
    forall i | 0 <= i < |all| ensures all[i].name in s.loadErrors <==> Faulty(all, i) {
      assert all[..i] == files[..i];
      if i < |files| {
        assert all[i] == files[i] && all[i].name != all[|files|].name;
        assert Faulty(files, i) == Faulty(all, i);
      }
    }
    forall name | name in s.loadErrors ensures exists i :: 0 <= i < |all| && all[i].name == name {
      if name in r.loadErrors {
        var k :| 0 <= k < |files| && files[k].name == name;
        assert all[k].name == name;
      } else {
        assert all[|files|].name == name;
      }
    }
  }

  lemma ReportedAsStep(files: seq<File>, f: File, r: PolicyRepository, s: PolicyRepository)
    requires ReportedAs(files, r) && ReportedExactly(files, r) && DistinctNames(files + [f])
    requires s.loadErrors == r.loadErrors || s.loadErrors == r.loadErrors[f.name := ErrorOf(f)]
    ensures ReportedAs(files + [f], s)
  {
    var all := files + [f];
    forall k | 0 <= k < |files| ensures files[k].name != f.name { assert all[k].name != all[|files|].name; }
    assert f.name !in r.loadErrors;
    hide ReportedExactly;
    forall i | 0 <= i < |all| && all[i].name in s.loadErrors
      ensures s.loadErrors[all[i].name] == ErrorOf(all[i])
    {
      if i < |files| { assert all[i] == files[i] && all[i].name != all[|files|].name; }
    }
  }

  lemma NothingLoaded(files: seq<File>)
    ensures var r := PolicyRepository(map[], map[]);
            LoadedExactly(files[..0], r) && ReportedExactly(files[..0], r) && ReportedAs(files[..0], r)
  {
  }

  /** `from_directory`, over the sorted files: a version ends up loaded exactly when an odd number of
      valid documents declare it, as the last of them. */
  method FromDirectory(files: seq<File>) returns (repository: PolicyRepository)
    requires DistinctNames(files)
    ensures LoadedExactly(files, repository) && ReportedExactly(files, repository) && ReportedAs(files, repository)
  {
    var policies: map<string, PolicyDocument> := map[];
    var errors: map<string, string> := map[];
    NothingLoaded(files);
    hide LoadedExactly, ReportedExactly, ReportedAs;
    for i := 0 to |files|
      invariant LoadedExactly(files[..i], PolicyRepository(policies, errors))
      invariant ReportedExactly(files[..i], PolicyRepository(policies, errors))
      invariant ReportedAs(files[..i], PolicyRepository(policies, errors))
    {
      ghost var before := PolicyRepository(policies, errors);
      assert files[..i + 1] == files[..i] + [files[i]];
      match files[i].content {
        case Err(message) =>
          errors := errors[files[i].name := message];
        case Ok(policy) =>
          if policy.version in policies {
            errors := errors[files[i].name := "duplicate policy version: " + policy.version];
            policies := policies - {policy.version};
          } else {
            policies := policies[policy.version := policy];
          }
      }
      LoadStep(files[..i], files[i], before, PolicyRepository(policies, errors));
      ReportStep(files[..i], files[i], before, PolicyRepository(policies, errors));
      ReportedAsStep(files[..i], files[i], before, PolicyRepository(policies, errors));
    }
    assert files[..|files|] == files;
    repository := PolicyRepository(policies, errors);
  }

  // ----- deciding -----

  predicate Matches(o: PolicyOverride, c: GovernanceContext) {
    && (o.purpose == None || o.purpose == Some(c.purpose))
    && (o.requesterRole == None || o.requesterRole == c.requesterRole)
    && (o.providerClass == None || o.providerClass == Some(c.providerClass))
  }

  function Matching(overrides: seq<PolicyOverride>, c: GovernanceContext): seq<PolicyOverride> {
    if |overrides| == 0 then []
    else (if Matches(overrides[0], c) then [overrides[0]] else []) + Matching(overrides[1..], c)
  }

  datatype PolicyDecision = PolicyDecision(
    category: string, action: Action, reason: string, allowedActions: seq<Action>, policyVersion: string)

  function Block(category: string, c: GovernanceContext, reason: string): PolicyDecision {
    PolicyDecision(category, BlockRequest, reason, [], c.policyVersion)
  }

  function Decide(r: PolicyRepository, c: GovernanceContext, category: string): PolicyDecision {
    if c.policyVersion !in r.policies then Block(category, c, "Policy version is missing or failed to load")
    else
      var policy := r.policies[c.policyVersion];
      if policy.domain != c.domain then Block(category, c, "Policy domain does not match governance context")
      else if category !in policy.rules then Block(category, c, "Missing rule for sensitive category")
      else DecideByRule(policy.version, policy.rules[category], c, category)
  }

  function DecideByRule(version: string, rule: PolicyRule, c: GovernanceContext, category: string): PolicyDecision {
    var matching := Matching(rule.overrides, c);
    if |matching| > 1 then Block(category, c, "Ambiguous policy overrides")
    else
      var action := if matching != [] then matching[0].action else rule.default;
      var allowed := if matching != [] then matching[0].allowedActions else rule.allowedActions;
      if action == TaskDependent then
        var space := if c.purpose in rule.purposeActions then rule.purposeActions[c.purpose] else allowed;
        if space == [] then Block(category, c, "Task-dependent rule has no permitted action space")
        else PolicyDecision(category, action, "Task-dependent decision constrained to policy-permitted actions", space, version)
      else
        PolicyDecision(category, action,
          if matching != [] then "Matched explicit contextual policy override" else "Applied deterministic default policy rule",
          allowed, version)
  }

  predicate IsReconstructionAuthorized(r: PolicyRepository, c: GovernanceContext) {
    c.policyVersion in r.policies && r.policies[c.policyVersion].domain == c.domain
  }

  function Ceiling(p: ScopePolicy, c: GovernanceContext): Scope {
    var byRole :=
      if c.requesterRole.Some? && c.requesterRole.value in p.roleMax then p.roleMax[c.requesterRole.value] else p.default;
    if c.requesterId.Some? && c.requesterId.value in p.userMax then p.userMax[c.requesterId.value] else byRole
  }

  function ResolvePseudonymScope(r: PolicyRepository, c: GovernanceContext): Scope {
    if c.policyVersion !in r.policies || r.policies[c.policyVersion].domain != c.domain then RequestScope
    else
      var ceiling := Ceiling(r.policies[c.policyVersion].pseudonymScope, c);
      if ScopeRank(c.requestedPseudonymScope) <= ScopeRank(ceiling) then c.requestedPseudonymScope else ceiling
  }

  // ----- what the decisions keep -----

  /** The three fail closed together: where reconstruction is refused, every category is blocked and
      the scope is the narrowest. */
  lemma UnresolvedFailsClosed(r: PolicyRepository, c: GovernanceContext, category: string)
    requires !IsReconstructionAuthorized(r, c)
    ensures c.policyVersion !in r.policies || r.policies[c.policyVersion].domain != c.domain
    ensures Decide(r, c, category)
         == PolicyDecision(category, BlockRequest,
                           if c.policyVersion !in r.policies then "Policy version is missing or failed to load"
                           else "Policy domain does not match governance context", [], c.policyVersion)
    ensures ResolvePseudonymScope(r, c) == RequestScope
  {
  }

  /** Where the version in force is loaded for the domain of the context, reconstruction is allowed, and
      a category is decided by its rule, blocked without one. */
  lemma ResolvedDecides(r: PolicyRepository, c: GovernanceContext, category: string)
    requires c.policyVersion in r.policies && r.policies[c.policyVersion].domain == c.domain
    ensures IsReconstructionAuthorized(r, c)
    ensures var policy := r.policies[c.policyVersion];
            Decide(r, c, category) ==
            if category in policy.rules then DecideByRule(policy.version, policy.rules[category], c, category)
            else PolicyDecision(category, BlockRequest, "Missing rule for sensitive category", [], c.policyVersion)
  {
  }

  /** Over any directory: an even number of declarations of the version in force - an exact pair, or
      none - loads nothing, and everything fails closed. A third copy loads again: the duplicate is
      refused only as long as the copies are even in number. */
  lemma EvenCopiesFailClosed(files: seq<File>, r: PolicyRepository, c: GovernanceContext, category: string)
    requires LoadedExactly(files, r)
    ensures c.policyVersion in r.policies <==> Declarations(files, c.policyVersion) % 2 == 1
    ensures Declarations(files, c.policyVersion) % 2 == 0 ==>
              && Decide(r, c, category).action == BlockRequest && ResolvePseudonymScope(r, c) == RequestScope
              && !IsReconstructionAuthorized(r, c)
    ensures Decide(r, c, category).action != BlockRequest ==>
              var last := LastDeclared(files, c.policyVersion);
              last.Some? && last.value.domain == c.domain && category in last.value.rules
  {
  }

  /** The promise fails at three files: the second copy takes the version out, the third brings it back,
      and only the second is reported. */
  lemma ThirdCopyLoads(a: PolicyDocument, b: PolicyDocument, c: PolicyDocument, r: PolicyRepository)
    requires a.version == b.version == c.version
    requires var files := [File("a.yaml", Ok(a)), File("b.yaml", Ok(b)), File("c.yaml", Ok(c))];
             LoadedExactly(files, r) && ReportedExactly(files, r)
    ensures c.version in r.policies && r.policies[c.version] == c
    ensures "b.yaml" in r.loadErrors && "a.yaml" !in r.loadErrors && "c.yaml" !in r.loadErrors
  {
    var files := [File("a.yaml", Ok(a)), File("b.yaml", Ok(b)), File("c.yaml", Ok(c))];
    assert files[..2][..1] == files[..1] && files[..1][..0] == [] && files[..0] == [];
    assert Declarations(files[..1], c.version) == 1 && Declarations(files[..2], c.version) == 2;
    assert Declarations(files, c.version) == 3 && LastDeclared(files, c.version) == Some(c);
    assert !Faulty(files, 0) && Faulty(files, 1) && !Faulty(files, 2);
    assert files[0].name == "a.yaml" && files[1].name == "b.yaml" && files[2].name == "c.yaml";
  }

  lemma {:induction false} CountMatching(overrides: seq<PolicyOverride>, c: GovernanceContext, o: PolicyOverride)
    ensures multiset(Matching(overrides, c))[o] == if Matches(o, c) then multiset(overrides)[o] else 0
  {
    if |overrides| > 0 {
      CountMatching(overrides[1..], c, o);
      assert overrides == [overrides[0]] + overrides[1..];
    }
  }

  /** The order of the overrides of a rule decides nothing. */
  lemma OverrideOrderIrrelevant(version: string, rule: PolicyRule, overrides: seq<PolicyOverride>, c: GovernanceContext,
                                category: string)
    requires multiset(overrides) == multiset(rule.overrides)
    ensures DecideByRule(version, rule.(overrides := overrides), c, category) == DecideByRule(version, rule, c, category)
  {
    hide Matching, Matches;
    SameMatching(overrides, rule.overrides, c);
  }

  lemma SameMatching(a: seq<PolicyOverride>, b: seq<PolicyOverride>, c: GovernanceContext)
    requires multiset(a) == multiset(b)
    ensures var one, two := Matching(a, c), Matching(b, c); |one| == |two| && (|one| == 1 ==> one == two)
  {
    hide Matching, Matches;
    forall o ensures multiset(Matching(a, c))[o] == multiset(Matching(b, c))[o] {
      CountMatching(a, c, o);
      CountMatching(b, c, o);
    }
    SameMultiset(Matching(a, c), Matching(b, c));
  }

  lemma SameMultiset(one: seq<PolicyOverride>, two: seq<PolicyOverride>)
    requires forall o :: multiset(one)[o] == multiset(two)[o]
    ensures |one| == |two| && (|one| == 1 ==> one == two)
  {
    assert multiset(one) == multiset(two);
    assert |one| == |multiset(one)| && |two| == |multiset(two)|;
    if |one| == 1 { assert one[0] in multiset(one) && one[0] in two; }
  }

  /** The override is about this context: what it names is what the context has. */
  predicate Applies(o: PolicyOverride, c: GovernanceContext) {
    && (match o.purpose case Some(x) => c.purpose == x case None => true)
    && (match o.requesterRole case Some(x) => c.requesterRole == Some(x) case None => true)
    && (match o.providerClass case Some(x) => c.providerClass == x case None => true)
  }

  lemma AppliesIs(overrides: seq<PolicyOverride>, c: GovernanceContext)
    ensures forall i :: 0 <= i < |overrides| ==> (Applies(overrides[i], c) <==> Matches(overrides[i], c))
  {
  }

  /** Two overrides that apply block, whatever else the rule says. */
  lemma AmbiguityBlocks(version: string, rule: PolicyRule, c: GovernanceContext, category: string, i: nat, j: nat)
    requires i < j < |rule.overrides| && Applies(rule.overrides[i], c) && Applies(rule.overrides[j], c)
    ensures DecideByRule(version, rule, c, category)
         == PolicyDecision(category, BlockRequest, "Ambiguous policy overrides", [], c.policyVersion)
  {
    AppliesIs(rule.overrides, c);
    TwoMatch(rule.overrides, c, i, j);
  }

  /** What an action with its own action space comes to for one purpose: a task-dependent action is
      confined to what the purpose allows, and blocked when that is nothing. */
  predicate Settles(d: PolicyDecision, version: string, category: string, action: Action, allowed: seq<Action>, reason: string,
                    rule: PolicyRule, c: GovernanceContext)
  {
    if action != TaskDependent then d == PolicyDecision(category, action, reason, allowed, version)
    else
      var space := if c.purpose in rule.purposeActions then rule.purposeActions[c.purpose] else allowed;
      if space == [] then
        d == PolicyDecision(category, BlockRequest, "Task-dependent rule has no permitted action space", [], c.policyVersion)
      else
        d == PolicyDecision(category, TaskDependent, "Task-dependent decision constrained to policy-permitted actions", space,
                            version)
  }

  /** Exactly one override that applies decides, wherever it stands in the list. */
  lemma OneOverrideDecides(version: string, rule: PolicyRule, c: GovernanceContext, category: string, i: nat)
    requires i < |rule.overrides| && Applies(rule.overrides[i], c)
    requires forall j :: 0 <= j < |rule.overrides| && j != i ==> !Applies(rule.overrides[j], c)
    ensures var o := rule.overrides[i];
            Settles(DecideByRule(version, rule, c, category), version, category, o.action, o.allowedActions,
                    "Matched explicit contextual policy override", rule, c)
  {
    AppliesIs(rule.overrides, c);
    OnlyMatch(rule.overrides, c, i);
  }

  /** Without one, the rule's default decides. */
  lemma DefaultDecides(version: string, rule: PolicyRule, c: GovernanceContext, category: string)
    requires forall j :: 0 <= j < |rule.overrides| ==> !Applies(rule.overrides[j], c)
    ensures Settles(DecideByRule(version, rule, c, category), version, category, rule.default, rule.allowedActions,
                    "Applied deterministic default policy rule", rule, c)
  {
    AppliesIs(rule.overrides, c);
    NoMatch(rule.overrides, c);
  }

  lemma {:induction false} NoMatch(overrides: seq<PolicyOverride>, c: GovernanceContext)
    requires forall j :: 0 <= j < |overrides| ==> !Matches(overrides[j], c)
    ensures Matching(overrides, c) == []
  {
    if |overrides| > 0 { NoMatch(overrides[1..], c); }
  }

  lemma {:induction false} OnlyMatch(overrides: seq<PolicyOverride>, c: GovernanceContext, i: nat)
    requires i < |overrides| && Matches(overrides[i], c)
    requires forall j :: 0 <= j < |overrides| && j != i ==> !Matches(overrides[j], c)
    ensures Matching(overrides, c) == [overrides[i]]
  {
    if i > 0 { OnlyMatch(overrides[1..], c, i - 1); } else { NoMatch(overrides[1..], c); }
  }

  lemma {:induction false} TwoMatch(overrides: seq<PolicyOverride>, c: GovernanceContext, i: nat, j: nat)
    requires i < j < |overrides| && Matches(overrides[i], c) && Matches(overrides[j], c)
    ensures |Matching(overrides, c)| > 1
  {
    if i > 0 { TwoMatch(overrides[1..], c, i - 1, j - 1); } else { OneMatches(overrides[1..], c, j - 1); }
  }

  lemma {:induction false} OneMatches(overrides: seq<PolicyOverride>, c: GovernanceContext, i: nat)
    requires i < |overrides| && Matches(overrides[i], c)
    ensures |Matching(overrides, c)| > 0
  {
    if i > 0 { OneMatches(overrides[1..], c, i - 1); }
  }

  /** `a` is no wider than `b`: request, document, session, organization. */
  predicate Within(a: Scope, b: Scope) {
    match b
    case RequestScope => a == RequestScope
    case DocumentScope => a == RequestScope || a == DocumentScope
    case SessionScope => a != OrganizationScope
    case OrganizationScope => true
  }

  predicate HasUserMax(p: ScopePolicy, c: GovernanceContext) { c.requesterId.Some? && c.requesterId.value in p.userMax }

  predicate HasRoleMax(p: ScopePolicy, c: GovernanceContext) { c.requesterRole.Some? && c.requesterRole.value in p.roleMax }

  /** The scope is what is requested within the maximum, and the maximum where more is requested. */
  predicate Limited(scope: Scope, requested: Scope, maximum: Scope) {
    scope == if Within(requested, maximum) then requested else maximum
  }

  /** The resolved scope exactly: limited by the user's own maximum if there is one, else by the role's,
      else by the default. */
  lemma ScopeIsLimited(r: PolicyRepository, c: GovernanceContext)
    requires c.policyVersion in r.policies && r.policies[c.policyVersion].domain == c.domain
    ensures var scope, p := ResolvePseudonymScope(r, c), r.policies[c.policyVersion].pseudonymScope;
            && (HasUserMax(p, c) ==> Limited(scope, c.requestedPseudonymScope, p.userMax[c.requesterId.value]))
            && (!HasUserMax(p, c) && HasRoleMax(p, c) ==>
                  Limited(scope, c.requestedPseudonymScope, p.roleMax[c.requesterRole.value]))
            && (!HasUserMax(p, c) && !HasRoleMax(p, c) ==> Limited(scope, c.requestedPseudonymScope, p.default))
  {
  }

  /** So it is never wider than what is requested, nor than the maximum that applies. */
  lemma ScopeNeverWider(r: PolicyRepository, c: GovernanceContext)
    requires IsReconstructionAuthorized(r, c)
    ensures var scope, p := ResolvePseudonymScope(r, c), r.policies[c.policyVersion].pseudonymScope;
            && Within(scope, c.requestedPseudonymScope)
            && match c.requesterId
               case Some(id) =>
                 if id in p.userMax then Within(scope, p.userMax[id])
                 else if HasRoleMax(p, c) then Within(scope, p.roleMax[c.requesterRole.value])
                 else Within(scope, p.default)
               case None =>
                 if HasRoleMax(p, c) then Within(scope, p.roleMax[c.requesterRole.value]) else Within(scope, p.default)
  {
    hide ResolvePseudonymScope;
    ScopeIsLimited(r, c);
  }
}
