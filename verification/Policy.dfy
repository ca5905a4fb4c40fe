/** Governance policies: the local evaluator, and the evaluation through OPA. */
module Policy {
  import opened Wrappers

  datatype Effect = AllowOnpremOnly | DenyCloud | AllowAll | DenyAll

  datatype Condition = Condition(sensitivity: Option<string>, tenant: Option<string>)

  datatype Policy = Policy(id: string, description: Option<string>, condition: Condition, effect: Effect)

  /** A canonicalized request context. */
  datatype Context = Context(sensitivity: Option<string>, tenant: Option<string>, serviceType: string)

  datatype EvalResult = EvalResult(policyId: string, effect: Effect, denied: bool, description: Option<string>)

  datatype Outcome =
    | Allowed(results: seq<EvalResult>)
    | Violation(policyId: string, description: string, results: seq<EvalResult>)
    | EvaluationError

  predicate Matches(p: Policy, ctx: Context) {
    && (p.condition.sensitivity.Some? ==> ctx.sensitivity == p.condition.sensitivity)
    && (p.condition.tenant.Some? ==> ctx.tenant == p.condition.tenant)
  }

  predicate ShouldBlock(p: Policy, ctx: Context) {
    || p.effect.DenyAll?
    || (p.effect.DenyCloud? && ctx.serviceType == "cloud")
    || (p.effect.AllowOnpremOnly? && ctx.serviceType != "on-prem")
  }

  predicate Blocks(p: Policy, ctx: Context) { Matches(p, ctx) && ShouldBlock(p, ctx) }

  /** `description or "No description provided"` */
  function Described(p: Policy): string {
    if p.description.Some? && p.description.value != "" then p.description.value else "No description provided"
  }

  function ResultOf(p: Policy, denied: bool): EvalResult { EvalResult(p.id, p.effect, denied, p.description) }

  /** The first policy that blocks, or the number of policies. */
  function FirstBlocking(policies: seq<Policy>, ctx: Context): (k: nat)
    ensures k <= |policies|
    ensures k < |policies| ==> Blocks(policies[k], ctx)
    ensures forall j :: 0 <= j < k ==> !Blocks(policies[j], ctx)
  {
    if policies == [] || Blocks(policies[0], ctx) then 0 else 1 + FirstBlocking(policies[1..], ctx)
  }

  /** The first policy that OPA lists, or the number of policies. */
  function FirstListed(policies: seq<Policy>, ids: set<string>): (k: nat)
    ensures k <= |policies|
    ensures k < |policies| ==> policies[k].id in ids
    ensures forall j :: 0 <= j < k ==> policies[j].id !in ids
  {
    if policies == [] || policies[0].id in ids then 0 else 1 + FirstListed(policies[1..], ids)
  }

  /** The local verdicts of the policies that match. */
  function LocalResults(policies: seq<Policy>, ctx: Context): seq<EvalResult> {
    if policies == [] then []
    else
      var p := policies[|policies|-1];
      LocalResults(policies[..|policies|-1], ctx) + if Matches(p, ctx) then [ResultOf(p, ShouldBlock(p, ctx))] else []
  }

  /** The verdicts OPA's block set leads to. */
  function OpaResults(policies: seq<Policy>, ctx: Context, ids: set<string>): seq<EvalResult> {
    if policies == [] then []
    else
      var p := policies[|policies|-1];
      OpaResults(policies[..|policies|-1], ctx, ids) +
      if p.id in ids then [ResultOf(p, true)] else if Matches(p, ctx) then [ResultOf(p, false)] else []
  }

  /** The first blocking policy decides, and ends the list of results. */
  function LocalOutcome(policies: seq<Policy>, ctx: Context): Outcome {
    var k := FirstBlocking(policies, ctx);
    if k == |policies| then Allowed(LocalResults(policies, ctx))
    else Violation(policies[k].id, Described(policies[k]), LocalResults(policies[..k+1], ctx))
  }

  /** OPA denies when it says so and a listed policy is known; all results are kept. */
  function OpaOutcome(policies: seq<Policy>, ctx: Context, allow: bool, ids: set<string>): Outcome {
    var k := FirstListed(policies, ids);
    if allow || k == |policies| then Allowed(OpaResults(policies, ctx, ids))
    else Violation(policies[k].id, Described(policies[k]), OpaResults(policies, ctx, ids))
  }

  /** `_evaluate_local` */
  method EvaluateLocal(policies: seq<Policy>, ctx: Context) returns (outcome: Outcome)
    ensures outcome == LocalOutcome(policies, ctx)
    ensures LocalMeans(policies, ctx, outcome)
  {
    LocalIsMeant(policies, ctx);
    var results := [];
    for i := 0 to |policies|
      invariant results == LocalResults(policies[..i], ctx)
      invariant i <= FirstBlocking(policies, ctx)
    {
      assert policies[..i+1][..i] == policies[..i];
      var p := policies[i];
      if !Matches(p, ctx) { continue; }
      var denied := ShouldBlock(p, ctx);
      results := results + [ResultOf(p, denied)];
      if denied {
        return Violation(p.id, Described(p), results);
      }
    }
    assert policies[..|policies|] == policies;
    outcome := Allowed(results);
  }

  /** The decision loop of `_evaluate_with_opa`. */
  method EvaluateWithOpa(policies: seq<Policy>, ctx: Context, allow: bool, blockIds: set<string>)
    returns (outcome: Outcome)
    ensures outcome == OpaOutcome(policies, ctx, allow, blockIds)
    ensures OpaMeans(policies, ctx, allow, blockIds, outcome)
  {
    OpaIsMeant(policies, ctx, allow, blockIds);
    var evaluation: seq<EvalResult> := [];
    var denied: seq<Policy> := [];
    for i := 0 to |policies|
      invariant evaluation == OpaResults(policies[..i], ctx, blockIds)
      invariant denied == [] <==> i <= FirstListed(policies, blockIds)
      invariant denied != [] ==> denied[0] == policies[FirstListed(policies, blockIds)]
    {
      assert policies[..i+1][..i] == policies[..i];
      var p := policies[i];
      if p.id in blockIds {
        evaluation := evaluation + [ResultOf(p, true)];
        denied := denied + [p];
      } else if Matches(p, ctx) {
        evaluation := evaluation + [ResultOf(p, false)];
      }
    }
    assert policies[..|policies|] == policies;
    if !allow && denied != [] {
      return Violation(denied[0].id, Described(denied[0]), evaluation);
    }
    outcome := Allowed(evaluation);
  }

  // ----- what the answers mean, in the fields of policy and context -----

  /** The policy names a sensitivity or a tenant that is not the request's. */
  ghost predicate NamesOther(p: Policy, ctx: Context) {
    match p.condition
    case Condition(sensitivity, tenant) =>
      || (sensitivity.Some? && sensitivity != ctx.sensitivity)
      || (tenant.Some? && tenant != ctx.tenant)
  }

  /** The effect forbids the kind of service. */
  ghost predicate Forbids(effect: Effect, serviceType: string) {
    match effect
    case DenyAll => true
    case DenyCloud => serviceType == "cloud"
    case AllowOnpremOnly => serviceType != "on-prem"
    case AllowAll => false
  }

  ghost predicate Denies(p: Policy, ctx: Context) { !NamesOther(p, ctx) && Forbids(p.effect, ctx.serviceType) }

  lemma DeniesIsBlocks(p: Policy, ctx: Context)
    ensures Blocks(p, ctx) <==> Denies(p, ctx)
    ensures Matches(p, ctx) <==> !NamesOther(p, ctx)
  {
  }

  lemma {:induction false} FirstSkips(a: seq<Policy>, p: Policy, b: seq<Policy>, ctx: Context)
    requires NamesOther(p, ctx)
    ensures var k := FirstBlocking(a + b, ctx);
            FirstBlocking(a + [p] + b, ctx) == if k < |a| then k else k + 1
  {
    DeniesIsBlocks(p, ctx);
    if a == [] {
      assert ([] + [p] + b)[1..] == b && [] + b == b;
    } else {
      assert (a + [p] + b)[1..] == a[1..] + [p] + b && (a + b)[1..] == a[1..] + b;
      FirstSkips(a[1..], p, b, ctx);
    }
  }

  lemma {:induction false} ResultsSkip(a: seq<Policy>, p: Policy, b: seq<Policy>, ctx: Context)
    requires NamesOther(p, ctx)
    ensures LocalResults(a + [p] + b, ctx) == LocalResults(a + b, ctx)
  {
    DeniesIsBlocks(p, ctx);
    if b == [] {
      assert (a + [p] + b)[..|a|] == a && a + b == a && a + [p] + b == a + [p];
    } else {
      var init := b[..|b|-1];
      assert (a + [p] + b)[..|a| + |b|] == a + [p] + init && (a + b)[..|a + b|-1] == a + init;
      ResultsSkip(a, p, init, ctx);
    }
  }

  /** A policy that names another sensitivity or tenant makes no difference: with it or without
      it the local answer is the same. */
  lemma OthersDoNotCount(a: seq<Policy>, p: Policy, b: seq<Policy>, ctx: Context)
    requires NamesOther(p, ctx)
    ensures LocalOutcome(a + [p] + b, ctx) == LocalOutcome(a + b, ctx)
  {
    FirstSkips(a, p, b, ctx);
    var k := FirstBlocking(a + b, ctx);
    if k < |a + b| {
      FrontSkips(a, p, b, ctx, k);
    } else {
      ResultsSkip(a, p, b, ctx);
    }
  }

  /** The results up to policy `k`, which is one further on in the longer list if it stands behind `p`. */
  lemma FrontSkips(a: seq<Policy>, p: Policy, b: seq<Policy>, ctx: Context, k: nat)
    requires NamesOther(p, ctx) && k < |a + b|
    ensures var j := if k < |a| then k else k + 1;
            && (a + [p] + b)[j] == (a + b)[k]
            && LocalResults((a + [p] + b)[..j+1], ctx) == LocalResults((a + b)[..k+1], ctx)
  {
    if k < |a| {
      assert (a + [p] + b)[..k+1] == (a + b)[..k+1];
    } else {
      var back := b[..k + 1 - |a|];
      assert (a + [p] + b)[..k+2] == a + [p] + back && (a + b)[..k+1] == a + back;
      ResultsSkip(a, p, back, ctx);
    }
  }

  /** Through OPA it makes none either, unless OPA lists it. */
  lemma {:induction false} OthersDoNotCountInOpa(a: seq<Policy>, p: Policy, b: seq<Policy>, ctx: Context, ids: set<string>)
    requires NamesOther(p, ctx) && p.id !in ids
    ensures OpaResults(a + [p] + b, ctx, ids) == OpaResults(a + b, ctx, ids)
  {
    DeniesIsBlocks(p, ctx);
    if b == [] {
      assert (a + [p] + b)[..|a|] == a && a + b == a && a + [p] + b == a + [p];
    } else {
      var init := b[..|b|-1];
      assert (a + [p] + b)[..|a| + |b|] == a + [p] + init && (a + b)[..|a + b|-1] == a + init;
      OthersDoNotCountInOpa(a, p, init, ctx, ids);
    }
  }

  /** The policies that name nothing else, in order. */
  ghost function InForce(policies: seq<Policy>, ctx: Context): seq<Policy> {
    if policies == [] then []
    else InForce(policies[..|policies|-1], ctx) + if NamesOther(policies[|policies|-1], ctx) then [] else [policies[|policies|-1]]
  }

  /** Each of them has its verdict, with its own id, effect and description, and nothing else has one. */
  lemma {:induction false} ResultsMean(policies: seq<Policy>, ctx: Context)
    ensures var r, f := LocalResults(policies, ctx), InForce(policies, ctx);
            && |r| == |f|
            && forall i :: 0 <= i < |r| ==>
                 r[i] == EvalResult(f[i].id, f[i].effect, Forbids(f[i].effect, ctx.serviceType), f[i].description)
  {
    if policies == [] {
    } else {
      ResultsMean(policies[..|policies|-1], ctx);
      DeniesIsBlocks(policies[|policies|-1], ctx);
    }
  }

  /** The local evaluator denies if and only if some policy in force forbids the service; it
      names the first of these, with its own description if it has one, and lists the policies
      in force up to it. Otherwise it lists all that are in force. */
  ghost predicate LocalMeans(policies: seq<Policy>, ctx: Context, outcome: Outcome) {
    match outcome
    case Allowed(results) =>
      && (forall i :: 0 <= i < |policies| ==> !Denies(policies[i], ctx))
      && Verdicts(results, InForce(policies, ctx), ctx)
    case Violation(id, description, results) =>
      exists k :: 0 <= k < |policies| && NamedBy(policies, ctx, k, id, description, results)
    case EvaluationError => false
  }

  ghost predicate Verdicts(results: seq<EvalResult>, policies: seq<Policy>, ctx: Context) {
    && |results| == |policies|
    && forall i :: 0 <= i < |results| ==>
         results[i] == EvalResult(policies[i].id, policies[i].effect, Forbids(policies[i].effect, ctx.serviceType), policies[i].description)
  }

  ghost predicate NamedBy(policies: seq<Policy>, ctx: Context, k: nat, id: string, description: string, results: seq<EvalResult>)
    requires k < |policies|
  {
    && Denies(policies[k], ctx) && (forall i :: 0 <= i < k ==> !Denies(policies[i], ctx))
    && id == policies[k].id && Names(policies[k], description)
    && Verdicts(results, InForce(policies[..k+1], ctx), ctx)
  }

  /** The policy's own description when it has one that is not empty. */
  ghost predicate Names(p: Policy, description: string) {
    match p.description
    case None => description == "No description provided"
    case Some(own) => if own == "" then description == "No description provided" else description == own
  }

  lemma LocalIsMeant(policies: seq<Policy>, ctx: Context)
    ensures LocalMeans(policies, ctx, LocalOutcome(policies, ctx))
  {
    var k := FirstBlocking(policies, ctx);
    forall i | 0 <= i < |policies| ensures Blocks(policies[i], ctx) <==> Denies(policies[i], ctx) {
      DeniesIsBlocks(policies[i], ctx);
    }
    if k == |policies| {
      ResultsMean(policies, ctx);
    } else {
      ResultsMean(policies[..k+1], ctx);
      assert NamedBy(policies, ctx, k, policies[k].id, Described(policies[k]), LocalResults(policies[..k+1], ctx));
    }
  }

  /** The verdicts through OPA: denied for what OPA lists, allowed for the other policies in
      force, none for the rest. */
  ghost predicate OpaVerdicts(results: seq<EvalResult>, policies: seq<Policy>, ctx: Context, ids: set<string>) {
    var shown := Shown(policies, ctx, ids);
    && |results| == |shown|
    && forall i :: 0 <= i < |results| ==>
         results[i] == EvalResult(shown[i].id, shown[i].effect, shown[i].id in ids, shown[i].description)
  }

  /** The policies that OPA lists or that name nothing else, in order. */
  ghost function Shown(policies: seq<Policy>, ctx: Context, ids: set<string>): seq<Policy> {
    if policies == [] then []
    else
      var p := policies[|policies|-1];
      Shown(policies[..|policies|-1], ctx, ids) + if p.id !in ids && NamesOther(p, ctx) then [] else [p]
  }

  lemma {:induction false} OpaResultsMean(policies: seq<Policy>, ctx: Context, ids: set<string>)
    ensures OpaVerdicts(OpaResults(policies, ctx, ids), policies, ctx, ids)
  {
    if policies == [] {
    } else {
      OpaResultsMean(policies[..|policies|-1], ctx, ids);
      DeniesIsBlocks(policies[|policies|-1], ctx);
    }
  }

  /** The OPA path denies if and only if OPA does not allow and lists a known policy; it names
      the first of these. */
  ghost predicate OpaMeans(policies: seq<Policy>, ctx: Context, allow: bool, ids: set<string>, outcome: Outcome) {
    match outcome
    case Allowed(results) =>
      && (allow || forall i :: 0 <= i < |policies| ==> policies[i].id !in ids)
      && OpaVerdicts(results, policies, ctx, ids)
    case Violation(id, description, results) =>
      && !allow && OpaVerdicts(results, policies, ctx, ids)
      && exists k :: 0 <= k < |policies| && FirstNamed(policies, ids, k, id, description)
    case EvaluationError => false
  }

  ghost predicate FirstNamed(policies: seq<Policy>, ids: set<string>, k: nat, id: string, description: string)
    requires k < |policies|
  {
    && id == policies[k].id && id in ids && Names(policies[k], description)
    && forall i :: 0 <= i < k ==> policies[i].id !in ids
  }

  lemma OpaIsMeant(policies: seq<Policy>, ctx: Context, allow: bool, ids: set<string>)
    ensures OpaMeans(policies, ctx, allow, ids, OpaOutcome(policies, ctx, allow, ids))
  {
    var k := FirstListed(policies, ids);
    OpaResultsMean(policies, ctx, ids);
    if !allow && k < |policies| {
      assert FirstNamed(policies, ids, k, policies[k].id, Described(policies[k]));
    }
  }

  // ----- when the two paths agree -----

  predicate UniqueIds(policies: seq<Policy>) {
    forall i, j :: 0 <= i < j < |policies| ==> policies[i].id != policies[j].id
  }

  /** Both allow with identical results, or both deny naming the same policy, the local
      results being the first of the OPA ones. */
  predicate SameVerdict(local: Outcome, opa: Outcome) {
    match (local, opa)
    case (Allowed(r), Allowed(s)) => r == s
    case (Violation(id, d, r), Violation(id', d', s)) => id == id' && d == d' && r <= s
    case _ => false
  }

  lemma {:induction false} OpaPrefix(policies: seq<Policy>, ctx: Context, ids: set<string>, k: nat)
    requires k <= |policies|
    ensures OpaResults(policies[..k], ctx, ids) <= OpaResults(policies, ctx, ids)
  {
    if k == |policies| {
      assert policies[..k] == policies;
    } else {
      var init := policies[..|policies|-1];
      assert init[..k] == policies[..k];
      OpaPrefix(init, ctx, ids, k);
    }
  }

  /** As long as nothing blocks and nothing is listed the two result lists are the same. */
  lemma {:induction false} SameResults(policies: seq<Policy>, ctx: Context, ids: set<string>)
    requires forall i :: 0 <= i < |policies| ==> !Blocks(policies[i], ctx) && policies[i].id !in ids
    ensures LocalResults(policies, ctx) == OpaResults(policies, ctx, ids)
    ensures forall i :: 0 <= i < |LocalResults(policies, ctx)| ==> !LocalResults(policies, ctx)[i].denied
  {
    if policies == [] {
    } else {
      SameResults(policies[..|policies|-1], ctx, ids);
    }
  }

  lemma {:induction false} NoneDenied(policies: seq<Policy>, ctx: Context)
    requires forall i :: 0 <= i < |policies| ==> !Blocks(policies[i], ctx)
    ensures forall i :: 0 <= i < |LocalResults(policies, ctx)| ==> !LocalResults(policies, ctx)[i].denied
  {
    if policies == [] {
    } else {
      NoneDenied(policies[..|policies|-1], ctx);
    }
  }

  /** A listed policy shows up as denied. */
  lemma ListedShows(policies: seq<Policy>, ctx: Context, ids: set<string>, j: nat) returns (i: nat)
    requires j < |policies| && policies[j].id in ids
    ensures i < |OpaResults(policies, ctx, ids)| && OpaResults(policies, ctx, ids)[i].denied
  {
    OpaPrefix(policies, ctx, ids, j + 1);
    assert policies[..j+1][..j] == policies[..j];
    i := |OpaResults(policies[..j+1], ctx, ids)| - 1;
  }

  lemma UpToFirst(policies: seq<Policy>, ctx: Context, ids: set<string>, k: nat)
    requires k < |policies| && Blocks(policies[k], ctx) && policies[k].id in ids
    requires forall i :: 0 <= i < k ==> !Blocks(policies[i], ctx) && policies[i].id !in ids
    ensures LocalResults(policies[..k+1], ctx) <= OpaResults(policies, ctx, ids)
  {
    SameResults(policies[..k], ctx, ids);
    assert policies[..k+1][..k] == policies[..k];
    OpaPrefix(policies, ctx, ids, k + 1);
  }

  /** The two paths agree exactly when the first policy OPA lists is the first that blocks,
      and OPA does not allow when there is one. */
  lemma AgreeIff(policies: seq<Policy>, ctx: Context, allow: bool, ids: set<string>)
    requires UniqueIds(policies)
    ensures var b, l := FirstBlocking(policies, ctx), FirstListed(policies, ids);
            SameVerdict(LocalOutcome(policies, ctx), OpaOutcome(policies, ctx, allow, ids))
            <==> b == l && (b < |policies| ==> !allow)
  {
    var b, l := FirstBlocking(policies, ctx), FirstListed(policies, ids);
    if b == l < |policies| {
      UpToFirst(policies, ctx, ids, b);
    } else if b == l {
      SameResults(policies, ctx, ids);
    } else if b == |policies| {
      NoneDenied(policies, ctx);
      var i := ListedShows(policies, ctx, ids, l);
    }
  }

  /** OPA's answer is right: it lists the matching policies that block, and allows when there are none. */
  predicate Faithful(policies: seq<Policy>, ctx: Context, allow: bool, ids: set<string>) {
    && (forall i :: 0 <= i < |policies| ==> (policies[i].id in ids <==> Blocks(policies[i], ctx)))
    && (allow <==> forall i :: 0 <= i < |policies| ==> policies[i].id !in ids)
  }

  /** A faithful answer makes the OPA path and the local path agree. */
  lemma FaithfulAgrees(policies: seq<Policy>, ctx: Context, allow: bool, ids: set<string>)
    requires UniqueIds(policies) && Faithful(policies, ctx, allow, ids)
    ensures SameVerdict(LocalOutcome(policies, ctx), OpaOutcome(policies, ctx, allow, ids))
  {
    AgreeIff(policies, ctx, allow, ids);
  }
}
