/** `PolicyService` as a state machine: syncs from the database, pushes to OPA, evaluations. */
module PolicySync {
  import opened Fingerprint
  import opened Policy
  import opened Wrappers

  datatype Settings = Settings(opaEnabled: bool, strictSync: bool, allowLocalFallback: bool, failClosed: bool)

  /** A database row; `parsed` is None where the schema rejects it. */
  datatype Row = Row(parsed: Option<Policy>, isActive: bool, version: string)

  /** What becomes of a push: accepted, or failed, after which OPA may hold the document or not. */
  datatype Push = Accepted | Failed(stored: bool)

  /** The document OPA holds. */
  datatype Document = Document(policies: seq<Policy>, version: string)

  /** OPA's answer to a query: none usable, one of the wrong shape, or a decision. */
  datatype Reply = Unreachable | Malformed | Decision(allow: bool, blockIds: set<string>)

  /** The active rows that parse, in order. */
  function ActivePolicies(rows: seq<Row>): seq<Policy> {
    if rows == [] then []
    else
      var r := rows[|rows|-1];
      ActivePolicies(rows[..|rows|-1]) + if r.isActive && r.parsed.Some? then [r.parsed.value] else []
  }

  lemma {:induction false} ActiveAppend(a: seq<Row>, b: seq<Row>)
    ensures ActivePolicies(a + b) == ActivePolicies(a) + ActivePolicies(b)
  {
    if b == [] {
      assert a + b == a;
    } else {
      assert (a + b)[..|a + b|-1] == a + b[..|b|-1];
      ActiveAppend(a, b[..|b|-1]);
    }
  }

  /** A row that is not active, or that the schema rejects, makes no difference; any other adds
      its policy at its place. */
  lemma RowCounts(a: seq<Row>, row: Row, b: seq<Row>)
    ensures ActivePolicies(a + [row] + b) ==
            ActivePolicies(a)
            + (match row
               case Row(Some(p), true, _) => [p]
               case Row(Some(_), false, _) => []
               case Row(None, _, _) => [])
            + ActivePolicies(b)
    ensures ActivePolicies([]) == []
  {
    ActiveAppend(a + [row], b);
    ActiveAppend(a, [row]);
    assert [row][..0] == [];
  }

  /** Being right about one list is being right about any list with the same policies. */
  lemma FaithfulTransfers(policies: seq<Policy>, others: seq<Policy>, ctx: Context, allow: bool, ids: set<string>)
    requires multiset(policies) == multiset(others) && Faithful(policies, ctx, allow, ids)
    ensures Faithful(others, ctx, allow, ids)
  {
    forall i | 0 <= i < |others| ensures others[i].id in ids <==> Blocks(others[i], ctx) {
      assert others[i] in multiset(policies);
    }
    forall i | 0 <= i < |policies| ensures policies[i] in others {
      assert policies[i] in multiset(others);
    }
    forall i | 0 <= i < |others| ensures others[i] in policies {
      assert others[i] in multiset(policies);
    }
  }

  class PolicyService {
    const settings: Settings
    const codec: Codec
    var policies: seq<Policy>
    var version: string
    var localHash: Option<string>
    var lastPushedHash: Option<string>
    var lastPushedVersion: Option<string>
    var lastSyncOk: Option<bool>

    /** OPA itself: it keeps what was pushed last. */
    var opa: Option<Document>

    /** A sync is waiting for OPA to answer its push. */
    var pushing: bool

    /** What OPA held when it last accepted a push. */
    ghost var accepted: Option<Document>

    predicate IsInSync()
      reads this
    {
      lastSyncOk == Some(true) && localHash.Some? && localHash == lastPushedHash
    }

    ghost function Cached(): Document
      reads this
    {
      Document(policies, version)
    }

    /** After an accepted push the recorded hash is that of OPA's document, until the next
        push, which replaces the document before OPA's answer arrives. */
    ghost predicate Valid()
      reads this
    {
      && (localHash.Some? ==> localHash.value == Hash(codec, policies, version))
      && (lastSyncOk == Some(true) ==>
            && accepted.Some?
            && lastPushedHash == Some(Hash(codec, accepted.value.policies, accepted.value.version))
            && lastPushedVersion == Some(accepted.value.version)
            && (opa == accepted || (pushing && opa == Some(Cached()))))
      && (lastSyncOk.Some? ==> settings.opaEnabled)
      && (pushing ==> settings.opaEnabled && localHash.Some?)
    }

    /** OPA decides over the same policies and the same version as the local cache. */
    ghost predicate SameDocument()
      reads this
    {
      opa.Some? && opa.value.version == version && multiset(opa.value.policies) == multiset(policies)
    }

    /** The hash tells the document in the cache from the one that was accepted last. */
    ghost predicate HashTells()
      reads this
    {
      && IsEncoding(codec)
      && (accepted.Some? ==> NoCollision(codec, Text(codec, policies, version),
                                         Text(codec, accepted.value.policies, accepted.value.version)))
    }

    /** In sync means what it says, also while a push is waiting for its answer. */
    lemma InSyncIsSame()
      requires Valid() && IsInSync() && HashTells()
      ensures SameDocument()
    {
      EqualHashes(codec, policies, version, accepted.value.policies, accepted.value.version);
    }

    constructor (settings: Settings, codec: Codec)
      ensures Valid() && this.settings == settings && this.codec == codec
      ensures !IsInSync() && policies == [] && opa == None && !pushing
    {
      this.settings, this.codec := settings, codec;
      policies, version, localHash := [], "1.0.0", None;
      lastPushedHash, lastPushedVersion, lastSyncOk := None, None, None;
      opa, pushing, accepted := None, false, None;
    }

    /** `sync_from_db` up to the point where it waits for OPA: what counts as in sync from now
        on is what was pushed before. */
    method BeginSync(rows: seq<Row>)
      requires Valid() && !pushing
      modifies this`policies, this`version, this`localHash, this`pushing
      ensures Valid() && pushing == settings.opaEnabled
      ensures policies == ActivePolicies(rows)
      ensures version == if rows == [] then old(version) else rows[0].version
      ensures localHash.Some?
      ensures IsInSync() <==>
              (lastSyncOk == Some(true) &&
               Hash(codec, policies, version) == Hash(codec, accepted.value.policies, accepted.value.version))
    {
      var newPolicies := [];
      for i := 0 to |rows|
        invariant newPolicies == ActivePolicies(rows[..i])
      {
        assert rows[..i+1][..i] == rows[..i];
        if !rows[i].isActive { continue; }
        if rows[i].parsed.Some? { newPolicies := newPolicies + [rows[i].parsed.value]; }
      }
      assert rows[..|rows|] == rows;
      policies := newPolicies;
      if rows != [] { version := rows[0].version; }
      localHash := Some(Hash(codec, policies, version));
      pushing := settings.opaEnabled;
    }

    /** OPA stores the document of a push that it has not answered yet. */
    method OpaStores()
      requires Valid() && pushing
      modifies this`opa
      ensures Valid() && opa == Some(Cached())
      ensures HashTells() && IsInSync() ==> SameDocument()
    {
      opa := Some(Document(policies, version));
      ghost var tells := HashTells();
      if tells && IsInSync() { InSyncIsSame(); }
    }

    /** The rest of `sync_from_db`, once the push has been answered or has failed; `raised`
        is the `PolicySyncError` of strict mode. */
    method FinishSync(push: Push) returns (raised: bool)
      requires Valid() && pushing
      modifies this`lastPushedHash, this`lastPushedVersion, this`lastSyncOk, this`opa, this`pushing, this`accepted
      ensures Valid() && !pushing
      ensures IsInSync() <==> push.Accepted?
      ensures push.Accepted? ==> opa == Some(Cached())
      ensures push == Failed(false) ==> opa == old(opa)
      ensures push == Failed(true) ==> opa == Some(Cached())
      ensures lastSyncOk == Some(push.Accepted?)
      ensures lastPushedHash == if push.Accepted? then localHash else old(lastPushedHash)
      ensures lastPushedVersion == if push.Accepted? then Some(version) else old(lastPushedVersion)
      ensures raised <==> push.Failed? && settings.strictSync
    {
      pushing := false;
      if push.Accepted? {
        opa := Some(Document(policies, version));
        accepted := opa;
        lastPushedHash, lastPushedVersion := localHash, Some(version);
        lastSyncOk := Some(true);
      } else {
        if push.stored { opa := Some(Document(policies, version)); }
        lastSyncOk := Some(false);
      }
      raised := push.Failed? && settings.strictSync;
    }

    /** `sync_from_db` with nothing in between. */
    method SyncFromDb(rows: seq<Row>, push: Push) returns (raised: bool)
      requires Valid() && !pushing
      modifies this
      ensures Valid() && !pushing
      ensures policies == ActivePolicies(rows)
      ensures version == if rows == [] then old(version) else rows[0].version
      ensures localHash.Some?
      ensures settings.opaEnabled ==> (IsInSync() <==> push.Accepted?)
      ensures settings.opaEnabled && push.Accepted? ==> opa == Some(Cached())
      ensures settings.opaEnabled ==> lastSyncOk == Some(push.Accepted?)
      ensures !settings.opaEnabled ==> opa == old(opa) && lastSyncOk == old(lastSyncOk)
      ensures raised <==> settings.opaEnabled && push.Failed? && settings.strictSync
    {
      BeginSync(rows);
      raised := false;
      if settings.opaEnabled { raised := FinishSync(push); }
    }

    /** The outcome once OPA has been asked: a decision, a refusal, or the fallback. */
    function Answered(ctx: Context, reply: Reply): Outcome
      reads this
    {
      match reply
      case Decision(allow, ids) => OpaOutcome(policies, ctx, allow, ids)
      case Malformed => EvaluationError
      case Unreachable => if settings.allowLocalFallback then LocalOutcome(policies, ctx) else EvaluationError
    }

    /** In sync, an OPA that decides rightly over its own document gives the verdict the
        local evaluator would give over the local cache. */
    lemma InSyncAgrees(ctx: Context, allow: bool, ids: set<string>)
      requires Valid() && IsInSync() && HashTells() && UniqueIds(policies)
      requires opa.Some? && Faithful(opa.value.policies, ctx, allow, ids)
      ensures SameVerdict(LocalOutcome(policies, ctx), Answered(ctx, Decision(allow, ids)))
    {
      InSyncIsSame();
      FaithfulTransfers(opa.value.policies, policies, ctx, allow, ids);
      FaithfulAgrees(policies, ctx, allow, ids);
    }

    /** `evaluate_async` up to the query: None says that OPA is asked. */
    method AskOpa(ctx: Context) returns (decided: Option<Outcome>)
      requires Valid()
      ensures decided.None? <==> settings.opaEnabled && (settings.failClosed ==> IsInSync())
      ensures decided.None? && settings.failClosed && HashTells() ==> SameDocument()
      ensures decided.Some? ==> decided.value == if settings.opaEnabled then EvaluationError else LocalOutcome(policies, ctx)
    {
      if !settings.opaEnabled {
        var outcome := EvaluateLocal(policies, ctx);
        return Some(outcome);
      }
      if settings.failClosed && !IsInSync() { return Some(EvaluationError); }
      ghost var tells := HashTells();
      if tells && IsInSync() { InSyncIsSame(); }
      decided := None;
    }

    /** The rest of it: the answer is applied to the policies of this moment. */
    method TakeReply(ctx: Context, reply: Reply) returns (outcome: Outcome)
      ensures outcome == Answered(ctx, reply)
      ensures outcome.Allowed? ==> reply.Decision? || (reply.Unreachable? && settings.allowLocalFallback)
    {
      match reply {
        case Decision(allow, ids) => outcome := EvaluateWithOpa(policies, ctx, allow, ids);
        case Malformed => outcome := EvaluationError;
        case Unreachable =>
          if settings.allowLocalFallback {
            outcome := EvaluateLocal(policies, ctx);
          } else {
            outcome := EvaluationError;
          }
      }
    }

    /** `evaluate_async` with nothing in between; `queried` says whether OPA was asked. */
    method EvaluateAsync(ctx: Context, reply: Reply) returns (outcome: Outcome, queried: bool)
      requires Valid()
      ensures queried ==> settings.opaEnabled
      ensures queried && settings.failClosed ==> IsInSync() && (HashTells() ==> SameDocument())
      ensures settings.opaEnabled && settings.failClosed && !IsInSync() ==> outcome == EvaluationError
      ensures !settings.opaEnabled ==> outcome == LocalOutcome(policies, ctx)
      ensures queried ==> outcome == Answered(ctx, reply)
      ensures queried <==> settings.opaEnabled && (settings.failClosed ==> IsInSync())
    {
      var decided := AskOpa(ctx);
      if decided.Some? { return decided.value, false; }
      outcome := TakeReply(ctx, reply);
      queried := true;
    }
  }
}
