/**
 The rule evaluator of Security-55471/authd/engine.c: delegation with k-of-n
 counting and early abort, and user rules decided by credential sets that the
 evaluation itself writes to. This is the part of an authorization without
 interaction and without least-privileged mode; group membership, entitlements
 and the clock are parameters.
 */
module RuleEngine {

  // ----- rules, credentials, statuses -----

  datatype Class = Allow | Deny | User | Delegate | Invalid

  datatype Status = Success | Denied | InteractionNotAllowed | Canceled | Internal

  /** A fetched rule; rules of class `Delegate` have their delegates attached. */
  datatype Rule = Rule(
    cls: Class,
    entitled: bool,
    requireAppleSigned: bool,
    entitledAndGroup: bool,
    vpnEntitledAndGroup: bool,
    allowRoot: bool,
    authenticateUser: bool,
    sessionOwner: bool,
    shared: bool,
    group: Group,
    timeout: int,
    kofn: int,
    delegates: seq<Rule>)

  datatype Group = NoGroup | Group(name: string)

  /** What the credential sets compare by: uid or right name, and the shared flag. */
  datatype Identity = UserIdentity(uid: nat, isShared: bool) | RightIdentity(name: string, isShared: bool)

  datatype Credential = Credential(id: Identity, valid: bool, created: real) {
    function Uid(): nat {
      match id
      case UserIdentity(uid, _) => uid
      case RightIdentity(_, _) => NOBODY
    }
  }

  /** (uid_t)-2 */
  const NOBODY: nat := 0xffff_fffe

  type Credentials = m: map<Identity, Credential> | forall id :: id in m ==> m[id].id == id

  /** Everything an evaluation reads and does not change. */
  datatype Env = Env(
    now: real,
    creatorUid: nat,
    sessionUid: nat,
    sessionCredential: Credential,
    memberOf: (nat, string) -> bool,
    creatorMemberOf: string -> bool,
    hasEntitlement: bool,
    hasVpnEntitlement: bool,
    appleSigned: bool,
    extendRights: bool,
    preAuthorize: bool)

  // ----- one credential against one user rule -----

  /** The part of the decision that depends only on rule and identity. */
  predicate IdentityFits(env: Env, id: Identity, rule: Rule) {
    var uid := Credential(id, true, 0.0).Uid();
    || uid == 0
    || (rule.sessionOwner && uid == env.sessionUid)
    || (&& rule.group.Group?
        && (rule.authenticateUser || !(rule.entitledAndGroup || rule.vpnEntitledAndGroup))
        && id.UserIdentity? && env.memberOf(uid, rule.group.name))
  }

  /** _evaluate_user_credential_for_rule */
  function EvaluateCredential(env: Env, cred: Credential, rule: Rule, ignoreShared: bool): Status {
    if !rule.cls.User? then Denied
    else if !cred.valid then Denied
    else if env.now - cred.created > rule.timeout as real then Denied
    else if !ignoreShared && !rule.shared && cred.id.isShared then Denied
    else if IdentityFits(env, cred.id, rule) then Success
    else Denied
  }

  predicate Satisfies(env: Env, cred: Credential, rule: Rule) {
    EvaluateCredential(env, cred, rule, false) == Success
  }

  /** Some credential of either set satisfies the rule. */
  predicate Satisfiable(env: Env, creds: Credentials, effective: Credentials, rule: Rule) {
    || (exists id :: id in creds && Satisfies(env, creds[id], rule))
    || (exists id :: id in effective && Satisfies(env, effective[id], rule))
  }

  // ----- evaluation as a value -----

  function Entitled(env: Env, rule: Rule): bool {
    || (rule.entitledAndGroup && env.hasEntitlement && rule.group.Group? && env.creatorMemberOf(rule.group.name))
    || (rule.vpnEntitledAndGroup && env.hasVpnEntitlement && rule.group.Group? && env.creatorMemberOf(rule.group.name))
  }

  /** A user rule, given whether some credential satisfies it. */
  function UserStatus(env: Env, rule: Rule, satisfiable: bool): Status {
    if Entitled(env, rule) then Success
    else if rule.allowRoot && env.creatorUid == 0 then Success
    else if !rule.authenticateUser then
      if EvaluateCredential(env, env.sessionCredential, rule, true) == Success then Success else Denied
    else if satisfiable then Success
    else if !env.extendRights then Denied
    else if env.preAuthorize && rule.timeout == 0 then Success
    else InteractionNotAllowed
  }

  predicate Aborts(s: Status) {
    s == Canceled || s == Internal
  }

  /**
   The delegate loop: `i` delegates evaluated so far, `successes` of them
   successful, `status` the last status.
   */
  function DelegateLoop(statuses: seq<Status>, kofn: int, i: nat, successes: nat, status: Status): Status
    requires i <= |statuses|
    decreases |statuses| - i
  {
    if i == |statuses| then status
    else if kofn != 0 && successes == kofn then Success
    else
      var s := statuses[i];
      if Aborts(s) then s
      else if s == Success then DelegateLoop(statuses, kofn, i + 1, successes + 1, s)
      else if kofn == 0 then s
      else if |statuses| - (i + 1) < kofn - successes then s
      else DelegateLoop(statuses, kofn, i + 1, successes, s)
  }

  function Combine(statuses: seq<Status>, kofn: int): Status {
    DelegateLoop(statuses, kofn, 0, 0, Denied)
  }

  /** The status of a rule when the credential sets decide by `sat`. */
  function Evaluate(env: Env, rule: Rule, sat: Rule -> bool): Status
    decreases rule, 1
  {
    if rule.entitled && env.hasEntitlement then Success
    else if rule.requireAppleSigned && !env.appleSigned then Denied
    else match rule.cls
         case Allow => Success
         case Deny => Denied
         case User => UserStatus(env, rule, sat(rule))
         case Delegate => Combine(EvaluateAll(env, rule.delegates, sat), rule.kofn)
         case Invalid => Internal
  }

  function EvaluateAll(env: Env, rules: seq<Rule>, sat: Rule -> bool): (r: seq<Status>)
    ensures |r| == |rules|
    ensures forall i :: 0 <= i < |rules| ==> r[i] == Evaluate(env, rules[i], sat)
    decreases rules, 0
  {
    if rules == [] then [] else [Evaluate(env, rules[0], sat)] + EvaluateAll(env, rules[1..], sat)
  }

  // ----- k of n -----

  function CountSuccess(statuses: seq<Status>): nat {
    if statuses == [] then 0
    else CountSuccess(statuses[..|statuses| - 1]) + (if statuses[|statuses| - 1] == Success then 1 else 0)
  }

  predicate NoAbort(statuses: seq<Status>) {
    forall i :: 0 <= i < |statuses| ==> !Aborts(statuses[i])
  }

  predicate AllSucceed(statuses: seq<Status>) {
    forall i :: 0 <= i < |statuses| ==> statuses[i] == Success
  }

  /** Some prefix has k successes and nothing in it that aborts. */
  predicate Reaches(statuses: seq<Status>, k: nat) {
    exists n :: 0 <= n <= |statuses| && CountSuccess(statuses[..n]) == k && NoAbort(statuses[..n])
  }

  lemma {:induction false} CountBetween(statuses: seq<Status>, a: nat, b: nat)
    requires a <= b <= |statuses|
    ensures CountSuccess(statuses[..a]) <= CountSuccess(statuses[..b]) <= CountSuccess(statuses[..a]) + (b - a)
    decreases b
  {
    if a < b {
      CountBetween(statuses, a, b - 1);
      CountNext(statuses, b - 1);
    }
  }

  lemma CountNext(statuses: seq<Status>, i: nat)
    requires i < |statuses|
    ensures CountSuccess(statuses[..i + 1]) == CountSuccess(statuses[..i]) + (if statuses[i] == Success then 1 else 0)
  {
    assert statuses[..i + 1][..i] == statuses[..i];
  }

  lemma {:induction false} LoopReaches(statuses: seq<Status>, k: int, i: nat, c: nat, status: Status)
    requires 1 <= k && i <= |statuses| && c == CountSuccess(statuses[..i]) && NoAbort(statuses[..i])
    requires c <= k <= c + |statuses| - i && (c == k ==> status == Success)
    ensures DelegateLoop(statuses, k, i, c, status) == Success <==> Reaches(statuses, k)
    decreases |statuses| - i
  {
    if c == k {
    } else {
      var s := statuses[i];
      CountNext(statuses, i);
      forall n | 0 <= n <= |statuses| && CountSuccess(statuses[..n]) == k && NoAbort(statuses[..n])
        ensures n > i && !Aborts(s) && k <= CountSuccess(statuses[..i + 1]) + |statuses| - (i + 1)
      {
        if n <= i {
          CountBetween(statuses, n, i);
        } else {
          assert statuses[..n][i] == s;
          CountBetween(statuses, i + 1, n);
        }
      }
      if !Aborts(s) && k <= CountSuccess(statuses[..i + 1]) + |statuses| - (i + 1) {
        assert NoAbort(statuses[..i + 1]);
        LoopReaches(statuses, k, i + 1, CountSuccess(statuses[..i + 1]), s);
      }
    }
  }

  /** Loops that have to go through every delegate: k = 0 and k > n. */
  lemma {:induction false} LoopNeedsAll(statuses: seq<Status>, k: int, i: nat)
    requires i <= |statuses| && (k == 0 || k > |statuses|) && AllSucceed(statuses[..i])
    ensures DelegateLoop(statuses, k, i, i, if i == 0 then Denied else Success) == Success
            <==> statuses != [] && AllSucceed(statuses)
    decreases |statuses| - i
  {
    if i == |statuses| {
      assert statuses[..i] == statuses;
    } else if statuses[i] == Success {
      LoopNeedsAll(statuses, k, i + 1);
    }
  }

  /** A negative k is never met: the last status decides. */
  lemma {:induction false} LoopTakesLast(statuses: seq<Status>, k: int, i: nat, c: nat, status: Status)
    requires k < 0 && i <= |statuses| && NoAbort(statuses[..i])
    requires status == if i == 0 then Denied else statuses[i - 1]
    ensures DelegateLoop(statuses, k, i, c, status) == Success
            <==> statuses != [] && NoAbort(statuses) && statuses[|statuses| - 1] == Success
    decreases |statuses| - i
  {
    if i == |statuses| {
      assert statuses[..i] == statuses;
    } else if !Aborts(statuses[i]) {
      LoopTakesLast(statuses, k, i + 1, if statuses[i] == Success then c + 1 else c, statuses[i]);
    }
  }

  /** The early-aborting loop, in terms of counting, for every k. */
  lemma CombineCounts(statuses: seq<Status>, k: int)
    ensures Combine(statuses, k) == Success <==>
            if k == 0 || k > |statuses| then statuses != [] && AllSucceed(statuses)
            else if k < 0 then statuses != [] && NoAbort(statuses) && statuses[|statuses| - 1] == Success
            else Reaches(statuses, k)
  {
    if k == 0 || k > |statuses| {
      LoopNeedsAll(statuses, k, 0);
    } else if k < 0 {
      LoopTakesLast(statuses, k, 0, 0, Denied);
    } else {
      LoopReaches(statuses, k, 0, 0, Denied);
    }
  }

  lemma {:induction false} ReachesCount(statuses: seq<Status>, k: nat)
    requires NoAbort(statuses)
    ensures Reaches(statuses, k) <==> k <= CountSuccess(statuses)
  {
    forall n | 0 <= n <= |statuses| && CountSuccess(statuses[..n]) == k
      ensures k <= CountSuccess(statuses)
    {
      CountBetween(statuses, n, |statuses|);
      assert statuses[..|statuses|] == statuses;
    }
    if k <= CountSuccess(statuses) {
      var n := |statuses|;
      assert statuses[..n] == statuses;
      while CountSuccess(statuses[..n]) > k
        invariant 0 <= n <= |statuses| && CountSuccess(statuses[..n]) >= k
        decreases n
      {
        CountNext(statuses, n - 1);
        n := n - 1;
      }
      assert NoAbort(statuses[..n]);
    }
  }

  /** A failing loop reports a delegate: the one it aborted at, the one that made k unreachable, or the last. */
  lemma {:induction false} LoopFailure(statuses: seq<Status>, k: int, i: nat, c: nat, status: Status)
    requires i <= |statuses| && c == CountSuccess(statuses[..i]) && NoAbort(statuses[..i])
    requires status == if i == 0 then Denied else statuses[i - 1]
    requires DelegateLoop(statuses, k, i, c, status) != Success
    ensures var r := DelegateLoop(statuses, k, i, c, status);
            || (statuses == [] && r == Denied)
            || exists j :: 0 <= j < |statuses| && r == statuses[j] && StopsAt(statuses, k, j)
    decreases |statuses| - i
  {
    if i < |statuses| {
      var s := statuses[i];
      CountNext(statuses, i);
      assert statuses[..i + 1] == statuses[..i] + [s];
      if Aborts(s) || (s != Success && (k == 0 || |statuses| - (i + 1) < k - c)) {
        assert StopsAt(statuses, k, i);
      } else {
        LoopFailure(statuses, k, i + 1, if s == Success then c + 1 else c, s);
      }
    } else if statuses != [] {
      assert statuses[..i - 1] == statuses[..i][..i - 1];
      assert StopsAt(statuses, k, i - 1);
    }
  }

  /** Nothing before `j` aborts, and at `j` something does, k is out of reach, or the delegates end. */
  ghost predicate StopsAt(statuses: seq<Status>, k: int, j: nat) {
    && j < |statuses| && NoAbort(statuses[..j])
    && (|| Aborts(statuses[j])
        || (k == 0 && statuses[j] != Success)
        || |statuses| - (j + 1) < k - CountSuccess(statuses[..j])
        || j == |statuses| - 1)
  }

  lemma CombineFailure(statuses: seq<Status>, k: int)
    requires Combine(statuses, k) != Success
    ensures || (statuses == [] && Combine(statuses, k) == Denied)
            || exists j :: 0 <= j < |statuses| && Combine(statuses, k) == statuses[j] && StopsAt(statuses, k, j)
  {
    hide StopsAt;
    LoopFailure(statuses, k, 0, 0, Denied);
  }

  // ----- what a credential must be, and what success needs -----

  /**
   A credential satisfies a user rule exactly when it is valid, not older than the
   timeout, not a shared one where sharing is off, and of root, of the session's
   owner where that counts, or of a member of the rule's group.
   */
  lemma SatisfiesExactly(env: Env, cred: Credential, rule: Rule)
    ensures Satisfies(env, cred, rule) <==>
            && rule.cls == User && cred.valid && env.now <= cred.created + rule.timeout as real
            && (cred.id.isShared ==> rule.shared)
            && (match cred.id
                case UserIdentity(uid, _) =>
                  uid == 0 || (rule.sessionOwner && uid == env.sessionUid) || GroupAdmits(env, uid, rule)
                case RightIdentity(_, _) => rule.sessionOwner && env.sessionUid == 0xffff_fffe)
  {
  }

  /** Membership in the group counts, unless entitled members alone are meant and nobody is to authenticate. */
  predicate GroupAdmits(env: Env, uid: nat, rule: Rule) {
    match rule.group
    case NoGroup => false
    case Group(name) =>
      env.memberOf(uid, name) && (rule.entitledAndGroup || rule.vpnEntitledAndGroup ==> rule.authenticateUser)
  }

  /** Sharing matters to nothing but the shared flag. */
  lemma IgnoringShared(env: Env, cred: Credential, rule: Rule)
    ensures EvaluateCredential(env, cred, rule, true) == Success <==>
            Satisfies(env, cred.(id := cred.id.(isShared := false)), rule)
    ensures EvaluateCredential(env, cred, rule, true) in {Success, Denied}
  {
  }

  /** The creator holds an entitlement that the rule honours and is in the rule's group. */
  predicate EntitledMember(env: Env, rule: Rule) {
    match rule.group
    case NoGroup => false
    case Group(name) =>
      && env.creatorMemberOf(name)
      && ((rule.entitledAndGroup && env.hasEntitlement) || (rule.vpnEntitledAndGroup && env.hasVpnEntitlement))
  }

  /** What a user rule grants by, without agents. */
  predicate UserGrants(env: Env, rule: Rule, satisfiable: bool) {
    || EntitledMember(env, rule)
    || (rule.allowRoot && env.creatorUid == 0)
    || (!rule.authenticateUser
        && Satisfies(env, env.sessionCredential.(id := env.sessionCredential.id.(isShared := false)), rule))
    || (rule.authenticateUser && (satisfiable || (env.extendRights && env.preAuthorize && rule.timeout == 0)))
  }

  /** A user rule succeeds exactly when it grants; otherwise it denies, unless only interaction is missing. */
  lemma UserStatusExactly(env: Env, rule: Rule, satisfiable: bool)
    ensures UserStatus(env, rule, satisfiable) ==
            if UserGrants(env, rule, satisfiable) then Success
            else if rule.authenticateUser && env.extendRights then InteractionNotAllowed
            else Denied
  {
    hide Satisfies, EvaluateCredential;
    IgnoringShared(env, env.sessionCredential, rule);
  }

  /**
   What a tree of rules grants: an entitlement that the rule honours, and otherwise, if
   an Apple signature is not missing, the class decides; k of the delegates must grant,
   or all of them when k is 0 or more than there are, or the last when k is negative.
   */
  predicate Grants(env: Env, rule: Rule, sat: Rule -> bool)
    decreases rule
  {
    || (rule.entitled && env.hasEntitlement)
    || (&& (rule.requireAppleSigned ==> env.appleSigned)
        && match rule.cls
           case Allow => true
           case Deny => false
           case Invalid => false
           case User => UserGrants(env, rule, sat(rule))
           case Delegate =>
             KofN(|rule.delegates|, rule.kofn, set i | 0 <= i < |rule.delegates| && Grants(env, rule.delegates[i], sat)))
  }

  /** Among `n` delegates those at `which` positions suffice. */
  predicate KofN(n: nat, k: int, which: set<int>) {
    if k == 0 || k > n then n > 0 && forall i :: 0 <= i < n ==> i in which
    else if k < 0 then n > 0 && n - 1 in which
    else k <= |which|
  }

  lemma CombineKofN(statuses: seq<Status>, k: int)
    requires NoAbort(statuses)
    ensures Combine(statuses, k) == Success <==>
            KofN(|statuses|, k, set i | 0 <= i < |statuses| && statuses[i] == Success)
  {
    hide Combine, Reaches, CountSuccess;
    var which := SuccessPositions(statuses);
    CombineCounts(statuses, k);
    CountAsSet(statuses);
    if k >= 0 {
      ReachesCount(statuses, k);
    }
    assert forall i :: 0 <= i < |statuses| ==> (statuses[i] == Success <==> i in which);
    assert AllSucceed(statuses) <==> forall i :: 0 <= i < |statuses| ==> i in which;
  }

  ghost function SuccessPositions(statuses: seq<Status>): set<int> {
    set i | 0 <= i < |statuses| && statuses[i] == Success
  }

  lemma {:induction false} CountAsSet(statuses: seq<Status>)
    ensures CountSuccess(statuses) == |SuccessPositions(statuses)|
  {
    hide SuccessPositions;
    if statuses == [] {
      NoPositions(statuses);
    } else {
      CountAsSet(statuses[..|statuses| - 1]);
      LastPosition(statuses);
    }
  }

  lemma NoPositions(statuses: seq<Status>)
    requires statuses == []
    ensures SuccessPositions(statuses) == {}
  {
  }

  lemma LastPosition(statuses: seq<Status>)
    requires statuses != []
    ensures var n := |statuses| - 1;
            |SuccessPositions(statuses)| == |SuccessPositions(statuses[..n])| + (if statuses[n] == Success then 1 else 0)
  {
    var n := |statuses| - 1;
    var before := SuccessPositions(statuses[..n]);
    if statuses[n] == Success {
      assert SuccessPositions(statuses) == before + {n};
    } else {
      assert SuccessPositions(statuses) == before;
    }
  }

  /** Evaluation of a tree without invalid classes succeeds exactly when the tree grants. */
  lemma {:induction false} GrantsExactly(env: Env, rule: Rule, sat: Rule -> bool)
    requires WellFormed(rule)
    ensures Evaluate(env, rule, sat) == Success <==> Grants(env, rule, sat)
    decreases rule
  {
    hide UserStatus, UserGrants, Combine, KofN, NoAbort;
    if rule.cls == User {
      UserStatusExactly(env, rule, sat(rule));
    } else if rule.cls == Delegate {
      var s := EvaluateAll(env, rule.delegates, sat);
      forall i | 0 <= i < |s|
        ensures !Aborts(s[i]) && (s[i] == Success <==> Grants(env, rule.delegates[i], sat))
      {
        EvaluateNoAbort(env, rule.delegates[i], sat);
        GrantsExactly(env, rule.delegates[i], sat);
      }
      NoneAborts(s);
      CombineKofN(s, rule.kofn);
      assert (set i | 0 <= i < |s| && s[i] == Success)
          == (set i | 0 <= i < |rule.delegates| && Grants(env, rule.delegates[i], sat));
    }
  }

  lemma NoneAborts(s: seq<Status>)
    requires forall i :: 0 <= i < |s| ==> !Aborts(s[i])
    ensures NoAbort(s)
  {
  }

  /** How the rules without delegates fail, when no entitlement decides. */
  lemma LeafFailures(env: Env, rule: Rule, sat: Rule -> bool)
    requires !(rule.entitled && env.hasEntitlement)
    ensures rule.requireAppleSigned && !env.appleSigned ==> Evaluate(env, rule, sat) == Denied
    ensures (rule.requireAppleSigned ==> env.appleSigned) ==>
              && (rule.cls == Deny ==> Evaluate(env, rule, sat) == Denied)
              && (rule.cls == Invalid ==> Evaluate(env, rule, sat) == Internal)
              && (rule.cls == User && !UserGrants(env, rule, sat(rule)) ==>
                    Evaluate(env, rule, sat)
                    == if rule.authenticateUser && env.extendRights then InteractionNotAllowed else Denied)
  {
    hide UserStatus, UserGrants;
    UserStatusExactly(env, rule, sat(rule));
  }

  /** In any tree, success needs a rule that grants: one entitled, of class allow, or a user rule that grants. */
  predicate SomeGrant(env: Env, rule: Rule, sat: Rule -> bool)
    decreases rule
  {
    || (rule.entitled && env.hasEntitlement)
    || (&& (rule.requireAppleSigned ==> env.appleSigned)
        && match rule.cls
           case Allow => true
           case Deny => false
           case Invalid => false
           case User => UserGrants(env, rule, sat(rule))
           case Delegate => exists r :: r in rule.delegates && SomeGrant(env, r, sat))
  }

  lemma {:induction false} SuccessNeedsGrant(env: Env, rule: Rule, sat: Rule -> bool)
    requires Evaluate(env, rule, sat) == Success
    ensures SomeGrant(env, rule, sat)
    decreases rule
  {
    if rule.cls == User {
      UserStatusExactly(env, rule, sat(rule));
    } else if rule.cls == Delegate && Combine(EvaluateAll(env, rule.delegates, sat), rule.kofn) == Success {
      var s := EvaluateAll(env, rule.delegates, sat);
      LoopNeedsSuccess(s, rule.kofn, 0, 0, Denied);
      var i :| 0 <= i < |s| && s[i] == Success;
      SuccessNeedsGrant(env, rule.delegates[i], sat);
      assert rule.delegates[i] in rule.delegates;
    }
  }

  lemma {:induction false} LoopNeedsSuccess(statuses: seq<Status>, k: int, i: nat, c: nat, status: Status)
    requires i <= |statuses| && (c > 0 || status == Success ==> exists j :: 0 <= j < |statuses| && statuses[j] == Success)
    requires DelegateLoop(statuses, k, i, c, status) == Success
    ensures exists j :: 0 <= j < |statuses| && statuses[j] == Success
    decreases |statuses| - i
  {
    if i < |statuses| && !(k != 0 && c == k) && !Aborts(statuses[i]) && statuses[i] != Success {
      if k != 0 && |statuses| - (i + 1) >= k - c {
        LoopNeedsSuccess(statuses, k, i + 1, c, statuses[i]);
      }
    }
  }

  // ----- more credentials -----

  /** The loop makes up no status but success and denial. */
  lemma {:induction false} LoopAmong(statuses: seq<Status>, k: int, i: nat, c: nat, status: Status)
    requires i <= |statuses|
    ensures var r := DelegateLoop(statuses, k, i, c, status);
            r == status || r == Success || r in statuses
    decreases |statuses| - i
  {
    if i < |statuses| {
      LoopAmong(statuses, k, i + 1, c + 1, statuses[i]);
      LoopAmong(statuses, k, i + 1, c, statuses[i]);
    }
  }

  /** No rule in the tree has an invalid class. */
  predicate WellFormed(rule: Rule)
    decreases rule
  {
    !rule.cls.Invalid? && forall r :: r in rule.delegates ==> WellFormed(r)
  }

  /** Evaluation is never canceled, and ends in an internal error only through an invalid class. */
  lemma {:induction false} EvaluateNoAbort(env: Env, rule: Rule, sat: Rule -> bool)
    ensures Evaluate(env, rule, sat) != Canceled
    ensures WellFormed(rule) ==> Evaluate(env, rule, sat) != Internal
    decreases rule
  {
    var statuses := EvaluateAll(env, rule.delegates, sat);
    forall i | 0 <= i < |statuses|
      ensures statuses[i] != Canceled && (WellFormed(rule) ==> statuses[i] != Internal)
    {
      EvaluateNoAbort(env, rule.delegates[i], sat);
    }
    LoopAmong(statuses, rule.kofn, 0, 0, Denied);
  }

  /**
   Two runs of the loop side by side. Where the first one's delegate succeeds the
   second one's succeeds or aborts; then so does the whole.
   */
  lemma {:induction false} LoopKeeps(s: seq<Status>, t: seq<Status>, k: int, i: nat, c: nat, d: nat, last: Status, last': Status)
    requires |s| == |t| && i <= |s| && c <= d && (k >= 1 ==> d <= k)
    requires forall j :: 0 <= j < |s| && s[j] == Success ==> t[j] == Success || t[j] == Internal
    requires forall j :: 0 <= j < |t| ==> t[j] != Canceled
    requires last == Success ==> last' == Success
    requires DelegateLoop(s, k, i, c, last) == Success
    ensures var r := DelegateLoop(t, k, i, d, last');
            r == Success || r == Internal
    decreases |s| - i
  {
    if i < |s| && !(k != 0 && d == k) && !Aborts(t[i]) {
      LoopKeeps(s, t, k, i + 1, if s[i] == Success then c + 1 else c, if t[i] == Success then d + 1 else d, s[i], t[i]);
    }
  }

  lemma CombineMonotone(s: seq<Status>, t: seq<Status>, k: int)
    requires |s| == |t| && NoAbort(t)
    requires forall i :: 0 <= i < |s| && s[i] == Success ==> t[i] == Success
    ensures Combine(s, k) == Success ==> Combine(t, k) == Success
  {
    if Combine(s, k) == Success {
      LoopKeeps(s, t, k, 0, 0, 0, Denied, Denied);
      LoopAmong(t, k, 0, 0, Denied);
    }
  }

  /** Over every tree: when more user rules are satisfiable, a success stays one or becomes an internal error. */
  lemma {:induction false} EvaluateKeeps(env: Env, rule: Rule, sat: Rule -> bool, sat': Rule -> bool)
    requires forall r :: sat(r) ==> sat'(r)
    requires Evaluate(env, rule, sat) == Success
    ensures Evaluate(env, rule, sat') == Success || Evaluate(env, rule, sat') == Internal
    decreases rule
  {
    var s, t := EvaluateAll(env, rule.delegates, sat), EvaluateAll(env, rule.delegates, sat');
    forall i | 0 <= i < |s|
      ensures t[i] != Canceled && (s[i] == Success ==> t[i] == Success || t[i] == Internal)
    {
      EvaluateNoAbort(env, rule.delegates[i], sat');
      if s[i] == Success {
        EvaluateKeeps(env, rule.delegates[i], sat, sat');
      }
    }
    if rule.cls == Delegate && Combine(s, rule.kofn) == Success {
      LoopKeeps(s, t, rule.kofn, 0, 0, 0, Denied, Denied);
    }
  }

  lemma EvaluateMonotone(env: Env, rule: Rule, sat: Rule -> bool, sat': Rule -> bool)
    requires WellFormed(rule) && forall r :: sat(r) ==> sat'(r)
    ensures Evaluate(env, rule, sat) == Success ==> Evaluate(env, rule, sat') == Success
  {
    hide Evaluate;
    if Evaluate(env, rule, sat) == Success {
      EvaluateKeeps(env, rule, sat, sat');
      EvaluateNoAbort(env, rule, sat');
    }
  }

  function Sat(env: Env, creds: Credentials, effective: Credentials): Rule -> bool {
    rule => Satisfiable(env, creds, effective, rule)
  }

  /** `m` with possibly more credentials, of identities it did not hold. */
  predicate Extends(m: Credentials, m': Credentials) {
    forall id :: id in m ==> id in m' && m'[id] == m[id]
  }

  /**
   Adding credentials of new identities, to either set, never turns success into
   anything else.
   */
  lemma MoreCredentials(env: Env, rule: Rule, creds: Credentials, effective: Credentials, creds': Credentials, effective': Credentials)
    requires WellFormed(rule) && Extends(creds, creds') && Extends(effective, effective')
    requires Evaluate(env, rule, Sat(env, creds, effective)) == Success
    ensures Evaluate(env, rule, Sat(env, creds', effective')) == Success
  {
    hide Satisfies, Evaluate;
    EvaluateMonotone(env, rule, Sat(env, creds, effective), Sat(env, creds', effective'));
  }

  /**
   In a tree with invalid classes anywhere, adding credentials turns success into
   success or into an internal error, and into nothing else.
   */
  lemma MoreCredentialsAnyTree(env: Env, rule: Rule, creds: Credentials, effective: Credentials, creds': Credentials, effective': Credentials)
    requires Extends(creds, creds') && Extends(effective, effective')
    requires Evaluate(env, rule, Sat(env, creds, effective)) == Success
    ensures var r := Evaluate(env, rule, Sat(env, creds', effective'));
            r == Success || r == Internal
  {
    hide Satisfies, Evaluate;
    EvaluateKeeps(env, rule, Sat(env, creds, effective), Sat(env, creds', effective'));
  }

  /** A rule of the given class with nothing set. */
  function Plain(cls: Class, kofn: int, delegates: seq<Rule>): Rule {
    Rule(cls, false, false, false, false, false, true, false, false, NoGroup, 300, kofn, delegates)
  }

  /** [user, invalid] required in full, inside a one-of choice with an allow rule. */
  function Choice(): Rule {
    var both := Plain(Delegate, 2, [Plain(User, 0, []), Plain(Invalid, 0, [])]);
    Plain(Delegate, 1, [both, Plain(Allow, 0, [])])
  }

  lemma ChoiceStatus(env: Env, sat: Rule -> bool)
    requires !env.extendRights
    ensures Evaluate(env, Choice(), sat) == if sat(Plain(User, 0, [])) then Internal else Success
  {
    var user, invalid, allow := Plain(User, 0, []), Plain(Invalid, 0, []), Plain(Allow, 0, []);
    var both := Plain(Delegate, 2, [user, invalid]);
    if sat(user) {
      assert EvaluateAll(env, both.delegates, sat) == [Success, Internal];
      assert DelegateLoop([Success, Internal], 2, 1, 1, Success) == Internal;
      assert EvaluateAll(env, [both, allow], sat) == [Internal, Success];
    } else {
      assert EvaluateAll(env, both.delegates, sat) == [Denied, Internal];
      assert Combine([Denied, Internal], 2) == Denied;
      assert EvaluateAll(env, [both, allow], sat) == [Denied, Success];
      assert DelegateLoop([Denied, Success], 1, 1, 0, Denied) == Success;
    }
  }

  /** The first credential ever, fresh and for root, turns success into an internal error. */
  lemma InvalidClassNotMonotone(env: Env, effective: Credentials)
    requires !env.extendRights
    requires forall id :: id in effective ==> !Satisfies(env, effective[id], Plain(User, 0, []))
    ensures var id := UserIdentity(0, false);
            var creds: Credentials := map[id := Credential(id, true, env.now)];
            && Extends(map[], creds)
            && Evaluate(env, Choice(), Sat(env, map[], effective)) == Success
            && Evaluate(env, Choice(), Sat(env, creds, effective)) == Internal
  {
    var id, user := UserIdentity(0, false), Plain(User, 0, []);
    var creds: Credentials := map[id := Credential(id, true, env.now)];
    assert id in creds && Satisfies(env, creds[id], user);
    ChoiceStatus(env, Sat(env, map[], effective));
    ChoiceStatus(env, Sat(env, creds, effective));
    hide Choice;
  }

  // ----- the engine -----

  /**
   A credential that satisfies a rule outdoes a credential of the same identity that
   does not: it is valid and newer, so it satisfies whatever the other one does.
   */
  lemma Outdoes(env: Env, c: Credential, former: Credential, rule: Rule, other: Rule)
    requires c.id == former.id && Satisfies(env, c, rule) && !Satisfies(env, former, rule)
    ensures Satisfies(env, former, other) ==> Satisfies(env, c, other)
  {
  }

  lemma {:induction false} EvaluateExtensional(env: Env, rule: Rule, sat: Rule -> bool, sat': Rule -> bool)
    requires forall r :: sat(r) == sat'(r)
    ensures Evaluate(env, rule, sat) == Evaluate(env, rule, sat')
    decreases rule
  {
    var s, t := EvaluateAll(env, rule.delegates, sat), EvaluateAll(env, rule.delegates, sat');
    forall i | 0 <= i < |s|
      ensures s[i] == t[i]
    {
      EvaluateExtensional(env, rule.delegates[i], sat, sat');
    }
    assert s == t;
  }

  /** Two states of the credential set that satisfy the same rules. */
  ghost predicate SameSat(env: Env, creds: Credentials, creds': Credentials, effective: Credentials) {
    forall r :: Satisfiable(env, creds, effective, r) == Satisfiable(env, creds', effective, r)
  }

  lemma WriteKeepsSat(env: Env, creds: Credentials, effective: Credentials, id: Identity, rule: Rule)
    requires id in effective && Satisfies(env, effective[id], rule)
    requires forall i :: i in creds ==> !Satisfies(env, creds[i], rule)
    ensures SameSat(env, creds, creds[id := effective[id]], effective)
  {
    hide Satisfies;
    var creds' := creds[id := effective[id]];
    forall r
      ensures Satisfiable(env, creds, effective, r) == Satisfiable(env, creds', effective, r)
    {
      if id in creds {
        Outdoes(env, effective[id], creds[id], rule, r);
      }
      assert forall i :: i in creds && i != id ==> i in creds' && creds'[i] == creds[i];
      assert creds'[id] == effective[id];
    }
  }

  /** The state of an engine that evaluation reads and writes. */
  class Engine {
    const env: Env
    const effective: Credentials
    var credentials: Credentials

    constructor (env: Env, credentials: Credentials, effective: Credentials)
      ensures this.env == env && this.credentials == credentials && this.effective == effective
    {
      this.env, this.credentials, this.effective := env, credentials, effective;
    }

    /** _engine_set_credential: replaces a credential of the same identity; `shared` adds a shared copy. */
    method SetCredential(cred: Credential, shared: bool)
      modifies this
      ensures var plain, id := old(credentials)[cred.id := cred], cred.id.(isShared := true);
              credentials == if shared then plain[id := Credential(id, cred.valid, env.now)] else plain
    {
      credentials := credentials[cred.id := cred];
      if shared {
        var copy := Credential(cred.id.(isShared := true), cred.valid, env.now);
        credentials := credentials[copy.id := copy];
      }
    }

    /** Looks through a credential set, in whatever order it comes. */
    method Find(creds: Credentials, rule: Rule) returns (found: bool, id: Identity)
      ensures found ==> id in creds && Satisfies(env, creds[id], rule)
      ensures !found ==> forall i :: i in creds ==> !Satisfies(env, creds[i], rule)
    {
      hide Satisfies;
      found, id := false, UserIdentity(0, false);
      var todo := creds.Keys;
      while todo != {}
        invariant todo <= creds.Keys
        invariant forall i :: i in creds && i !in todo ==> !Satisfies(env, creds[i], rule)
        decreases todo
      {
        id :| id in todo;
        if Satisfies(env, creds[id], rule) {
          found := true;
          return;
        }
        todo := todo - {id};
      }
    }

    /** _evaluate_class_user */
    method EvaluateUser(rule: Rule) returns (status: Status)
      modifies this
      ensures status == UserStatus(env, rule, Satisfiable(env, old(credentials), effective, rule))
      ensures SameSat(env, old(credentials), credentials, effective)
    {
      hide Satisfies, IdentityFits, EvaluateCredential;
      if Entitled(env, rule) {
        return Success;
      }
      if rule.allowRoot && env.creatorUid == 0 {
        return Success;
      }
      if !rule.authenticateUser {
        status := EvaluateCredential(env, env.sessionCredential, rule, true);
        if status == Success {
          return Success;
        }
        return Denied;
      }
      var found, id := Find(credentials, rule);
      if found {
        return Success;
      }
      found, id := Find(effective, rule);
      if found {
        WriteKeepsSat(env, credentials, effective, id, rule);
        SetCredential(effective[id], false);
        return Success;
      }
      if !env.extendRights {
        return Denied;
      }
      if env.preAuthorize && rule.timeout == 0 {
        return Success;
      }
      return InteractionNotAllowed;
    }

    /**
     _evaluate_rule: the credentials written on the way, and the order in which the
     sets are searched, do not matter to the status.
     */
    method EvaluateRule(rule: Rule) returns (status: Status)
      modifies this
      ensures status == Evaluate(env, rule, Sat(env, old(credentials), effective))
      ensures SameSat(env, old(credentials), credentials, effective)
      decreases rule, 1
    {
      hide Satisfiable, UserStatus, Combine;
      if rule.entitled && env.hasEntitlement {
        return Success;
      }
      if rule.requireAppleSigned && !env.appleSigned {
        return Denied;
      }
      match rule.cls {
        case Allow => return Success;
        case Deny => return Denied;
        case User => status := EvaluateUser(rule);
        case Delegate => status := EvaluateDelegates(rule);
        case Invalid => return Internal;
      }
    }

    /** _evaluate_class_rule */
    method EvaluateDelegates(rule: Rule) returns (status: Status)
      modifies this
      ensures status == Combine(EvaluateAll(env, rule.delegates, Sat(env, old(credentials), effective)), rule.kofn)
      ensures SameSat(env, old(credentials), credentials, effective)
      decreases rule, 0
    {
      hide Satisfiable, Evaluate, Sat;
      ghost var sat := Sat(env, credentials, effective);
      ghost var all := EvaluateAll(env, rule.delegates, sat);
      status := Denied;
      var kofn, total, successes, count := rule.kofn, |rule.delegates|, 0, 0;
      while count < total
        invariant 0 <= count <= total && 0 <= successes
        invariant SameSat(env, old(credentials), credentials, effective)
        invariant DelegateLoop(all, kofn, count, successes, status) == Combine(all, kofn)
      {
        if kofn != 0 && successes == kofn {
          return Success;
        }
        SatSame(env, old(credentials), credentials, effective);
        EvaluateExtensional(env, rule.delegates[count], sat, Sat(env, credentials, effective));
        status := EvaluateRule(rule.delegates[count]);
        count := count + 1;
        if status == Canceled || status == Internal {
          return;
        }
        if status != Success {
          if kofn == 0 || total - count < kofn - successes {
            return;
          }
        } else {
          successes := successes + 1;
        }
      }
    }
  }

  lemma SatSame(env: Env, creds: Credentials, creds': Credentials, effective: Credentials)
    requires SameSat(env, creds, creds', effective)
    ensures forall r :: Sat(env, creds, effective)(r) == Sat(env, creds', effective)(r)
  {
  }
}
