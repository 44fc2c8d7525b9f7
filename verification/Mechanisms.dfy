/**
 The mechanism loop of Security-55471/authd/engine.c. Agents run outside the engine,
 so what each run returns and which agents ask for an interruption is a schedule of
 events, of any length and content. A builtin mechanism has no agent: it allows or
 denies by the entitlements of the caller.
 */
module Mechanisms {

  datatype Result = Allow | Deny | Undefined | UserCanceled | Other

  datatype Status = Success | Denied | Canceled | Internal

  datatype Kind = Agent | Builtin(allows: bool)

  /**
   One agent's round: it could not be created, or it ran, returned `result`, and left
   `interrupting` as the mechanisms whose agents ask to be restarted.
   */
  datatype Event<M> = NoAgent | Ran(result: Result, interrupting: set<M>)

  /** One result that a mechanism has returned. */
  datatype Returned<M> = Returned(mech: M, result: Result)

  /**
   Where a run of the loop stands, with every result so far. It has faulted when it
   asked a builtin mechanism for the state of its agent, which there is not.
   */
  datatype Outcome<M> =
    | Running(i: nat, runs: seq<Returned<M>>)
    | Finished(status: Status, runs: seq<Returned<M>>)
    | Faulted(runs: seq<Returned<M>>)

  function StatusOf(result: Result): Status {
    match result
    case Deny => Denied
    case UserCanceled => Canceled
    case Allow => Success
    case Undefined => Internal
    case Other => Internal
  }

  /** The first mechanism before `i` that is builtin or interrupts, or `i` when there is none. */
  function Interrupter<M(==)>(mechs: seq<M>, kind: M -> Kind, i: nat, interrupting: set<M>, from: nat): (r: nat)
    requires from <= i <= |mechs|
    ensures from <= r <= i
    ensures r < i ==> kind(mechs[r]).Builtin? || mechs[r] in interrupting
    ensures forall j :: from <= j < r ==> kind(mechs[j]).Agent? && mechs[j] !in interrupting
    decreases i - from
  {
    if from == i || kind(mechs[from]).Builtin? || mechs[from] in interrupting then from
    else Interrupter(mechs, kind, i, interrupting, from + 1)
  }

  /** What the loop does from position `i` on. */
  function Run<M(==)>(mechs: seq<M>, kind: M -> Kind, i: nat, runs: seq<Returned<M>>, schedule: seq<Event<M>>): Outcome<M>
    requires i <= |mechs|
    decreases |schedule|, |mechs| - i
  {
    if i == |mechs| then Finished(Success, runs)
    else match kind(mechs[i])
         case Builtin(allows) =>
           if allows then Run(mechs, kind, i + 1, runs + [Returned(mechs[i], Allow)], schedule)
           else Finished(Denied, runs + [Returned(mechs[i], Deny)])
         case Agent =>
           if schedule == [] then Running(i, runs)
           else match schedule[0]
                case NoAgent => Finished(Internal, runs)
                case Ran(result, interrupting) =>
                  var runs' := runs + [Returned(mechs[i], result)];
                  var i2 := Interrupter(mechs, kind, i, interrupting, 0);
                  if i2 != i then
                    if kind(mechs[i2]).Builtin? then Faulted(runs') else Run(mechs, kind, i2, runs', schedule[1..])
                  else if result == Allow then Run(mechs, kind, i + 1, runs', schedule[1..])
                  else Finished(StatusOf(result), runs')
  }

  /** How the loop fails: by an agent that cannot be created, a builtin mechanism that denies, or a result that is not overruled. */
  lemma RunFailures<M>(mechs: seq<M>, kind: M -> Kind, i: nat, runs: seq<Returned<M>>, schedule: seq<Event<M>>)
    requires i < |mechs|
    ensures var out := Run(mechs, kind, i, runs, schedule);
            && (kind(mechs[i]) == Builtin(false) ==> out == Finished(Denied, runs + [Returned(mechs[i], Deny)]))
            && (kind(mechs[i]) == Agent && schedule != [] && schedule[0].NoAgent? ==> out == Finished(Internal, runs))
            && (kind(mechs[i]) == Agent && schedule != [] && schedule[0].Ran? && schedule[0].result != Allow
                && NoneBefore(mechs, kind, i, schedule[0].interrupting) ==>
                  out.Finished? && out.status == match schedule[0].result
                                                 case Deny => Denied
                                                 case UserCanceled => Canceled
                                                 case _ => Internal)
  {
  }

  /** Every mechanism before `j` has an agent, and none of these interrupts. */
  predicate NoneBefore<M>(mechs: seq<M>, kind: M -> Kind, j: nat, interrupting: set<M>)
    requires j <= |mechs|
  {
    forall k :: 0 <= k < j ==> kind(mechs[k]) == Agent && mechs[k] !in interrupting
  }

  /** How it goes on: at the first agent that interrupts, whatever the result was, or with the next mechanism. */
  lemma RunGoesOn<M>(mechs: seq<M>, kind: M -> Kind, i: nat, j: nat, runs: seq<Returned<M>>, schedule: seq<Event<M>>)
    requires j <= i < |mechs| && kind(mechs[i]) == Agent && schedule != [] && schedule[0].Ran?
    requires NoneBefore(mechs, kind, j, schedule[0].interrupting)
    ensures var out, runs' := Run(mechs, kind, i, runs, schedule), runs + [Returned(mechs[i], schedule[0].result)];
            && (j < i && kind(mechs[j]) == Agent && mechs[j] in schedule[0].interrupting ==>
                  out == Run(mechs, kind, j, runs', schedule[1..]))
            && (j == i && schedule[0].result == Allow ==> out == Run(mechs, kind, i + 1, runs', schedule[1..]))
  {
    var i2 := Interrupter(mechs, kind, i, schedule[0].interrupting, 0);
    assert j < i && kind(mechs[j]) == Agent && mechs[j] in schedule[0].interrupting ==> i2 == j;
  }

  // ----- what success means -----

  /** The most recent result of `m` was Allow. */
  ghost predicate LastAllowed<M(!new)>(runs: seq<Returned<M>>, m: M) {
    exists k :: 0 <= k < |runs| && runs[k] == Returned(m, Allow) && forall j :: k < j < |runs| ==> runs[j].mech != m
  }

  /** Every mechanism before `i` last returned Allow, or is still to be run again. */
  ghost predicate Progress<M(!new)>(mechs: seq<M>, i: nat, runs: seq<Returned<M>>)
    requires i <= |mechs|
  {
    forall j :: 0 <= j < i ==> LastAllowed(runs, mechs[j]) || mechs[j] in mechs[i..]
  }

  lemma ProgressStep<M(!new)>(mechs: seq<M>, i: nat, runs: seq<Returned<M>>, result: Result, next: nat)
    requires i < |mechs| && Progress(mechs, i, runs)
    requires next <= i || (next == i + 1 && result == Allow)
    ensures Progress(mechs, next, runs + [Returned(mechs[i], result)])
  {
    var runs' := runs + [Returned(mechs[i], result)];
    assert result == Allow ==> runs'[|runs|] == Returned(mechs[i], Allow);
    assert next <= i ==> mechs[next..][i - next] == mechs[i];
    forall j | 0 <= j < next
      ensures LastAllowed(runs', mechs[j]) || mechs[j] in mechs[next..]
    {
      if mechs[j] != mechs[i] {
        if LastAllowed(runs, mechs[j]) {
          var k :| 0 <= k < |runs| && runs[k] == Returned(mechs[j], Allow) && forall l :: k < l < |runs| ==> runs[l].mech != mechs[j];
          assert runs'[k] == runs[k];
        } else {
          var k :| 0 <= k < |mechs[i..]| && mechs[i..][k] == mechs[j];
          assert k != 0 && mechs[next..][i + k - next] == mechs[j];
        }
      }
    }
  }

  /**
   Whatever the schedule of results and interruptions: when the loop succeeds, the
   most recent result of every mechanism in the list was Allow.
   */
  lemma {:induction false} SuccessMeansAllowed<M(!new)>(mechs: seq<M>, kind: M -> Kind, i: nat, runs: seq<Returned<M>>, schedule: seq<Event<M>>)
    requires i <= |mechs| && Progress(mechs, i, runs)
    ensures var out := Run(mechs, kind, i, runs, schedule);
            out.Finished? && out.status == Success ==> forall m :: m in mechs ==> LastAllowed(out.runs, m)
    decreases |schedule|, |mechs| - i
  {
    hide LastAllowed;
    if i == |mechs| {
      assert mechs[i..] == [];
    } else if kind(mechs[i]).Builtin? {
      if kind(mechs[i]).allows {
        ProgressStep(mechs, i, runs, Allow, i + 1);
        SuccessMeansAllowed(mechs, kind, i + 1, runs + [Returned(mechs[i], Allow)], schedule);
      }
    } else if schedule != [] && schedule[0].Ran? {
      var Ran(result, interrupting) := schedule[0];
      var runs' := runs + [Returned(mechs[i], result)];
      var i2 := Interrupter(mechs, kind, i, interrupting, 0);
      if i2 != i {
        if kind(mechs[i2]).Agent? {
          ProgressStep(mechs, i, runs, result, i2);
          SuccessMeansAllowed(mechs, kind, i2, runs', schedule[1..]);
        }
      } else if result == Allow {
        ProgressStep(mechs, i, runs, result, i + 1);
        SuccessMeansAllowed(mechs, kind, i + 1, runs', schedule[1..]);
      }
    }
  }

  // ----- when the loop can fault -----

  /** An agent-backed mechanism comes after a builtin one, and all builtin ones before it allow. */
  ghost predicate AgentAfterBuiltin<M(!new)>(mechs: seq<M>, kind: M -> Kind, i: nat) {
    && i < |mechs| && kind(mechs[i]).Agent?
    && (exists j :: 0 <= j < i && kind(mechs[j]).Builtin?)
    && Passable(mechs, kind, i)
  }

  /** All builtin mechanisms before `i` allow. */
  ghost predicate Passable<M(!new)>(mechs: seq<M>, kind: M -> Kind, i: nat) {
    forall j :: 0 <= j < i && j < |mechs| && kind(mechs[j]).Builtin? ==> kind(mechs[j]).allows
  }

  lemma {:induction false} FaultNeeds<M(!new)>(mechs: seq<M>, kind: M -> Kind, i: nat, runs: seq<Returned<M>>, schedule: seq<Event<M>>)
    requires i <= |mechs| && Passable(mechs, kind, i) && Run(mechs, kind, i, runs, schedule).Faulted?
    ensures exists k :: AgentAfterBuiltin(mechs, kind, k)
    decreases |schedule|, |mechs| - i
  {
    if kind(mechs[i]).Builtin? {
      FaultNeeds(mechs, kind, i + 1, runs + [Returned(mechs[i], Allow)], schedule);
    } else {
      var Ran(result, interrupting) := schedule[0];
      var runs' := runs + [Returned(mechs[i], result)];
      var i2 := Interrupter(mechs, kind, i, interrupting, 0);
      if i2 == i {
        FaultNeeds(mechs, kind, i + 1, runs', schedule[1..]);
      } else if kind(mechs[i2]).Agent? {
        FaultNeeds(mechs, kind, i2, runs', schedule[1..]);
      } else {
        assert AgentAfterBuiltin(mechs, kind, i);
      }
    }
  }

  /** With every agent allowing and none interrupting, the loop gets as far as the builtin mechanisms let it. */
  lemma {:induction false} AllowedRun<M(!new)>(mechs: seq<M>, kind: M -> Kind, i: nat, k: nat, runs: seq<Returned<M>>, schedule: seq<Event<M>>)
    requires i <= k && AgentAfterBuiltin(mechs, kind, k) && |schedule| > k - i
    requires forall n :: 0 <= n < |schedule| ==> schedule[n] == Ran(Allow, {})
    ensures Run(mechs, kind, i, runs, schedule).Faulted?
    decreases k - i
  {
    if kind(mechs[i]).Builtin? {
      AllowedRun(mechs, kind, i + 1, k, runs + [Returned(mechs[i], Allow)], schedule);
    } else {
      assert schedule[0] == Ran(Allow, {});
      var i2 := Interrupter(mechs, kind, i, {}, 0);
      if i2 == i {
        assert i != k;
        AllowedRun(mechs, kind, i + 1, k, runs + [Returned(mechs[i], Allow)], schedule[1..]);
      }
    }
  }

  /** Some schedule makes the loop fault exactly when an agent-backed mechanism comes after builtin ones that all allow. */
  lemma FaultsExactly<M(!new)>(mechs: seq<M>, kind: M -> Kind)
    ensures (exists schedule: seq<Event<M>> :: Run(mechs, kind, 0, [], schedule).Faulted?) <==>
            exists k :: AgentAfterBuiltin(mechs, kind, k)
  {
    if schedule: seq<Event<M>> :| Run(mechs, kind, 0, [], schedule).Faulted? {
      FaultNeeds(mechs, kind, 0, [], schedule);
    }
    if k :| AgentAfterBuiltin(mechs, kind, k) {
      var schedule: seq<Event<M>> := seq(k + 1, _ => Ran(Allow, {}));
      AllowedRun(mechs, kind, 0, k, [], schedule);
    }
  }

  // ----- the loop -----

  /** How the loop ended: with a status, at the end of the schedule, or at an agent that is not there. */
  datatype End = Status(status: Status) | OutOfEvents | NullAgent

  function EndOf<M>(out: Outcome<M>): End {
    match out
    case Finished(status, _) => End.Status(status)
    case Running(_, _) => OutOfEvents
    case Faulted(_) => NullAgent
  }

  /** _evaluate_mechanisms */
  method EvaluateMechanisms<M(==, !new)>(mechs: seq<M>, kind: M -> Kind, schedule: seq<Event<M>>) returns (end: End)
    ensures end == EndOf(Run(mechs, kind, 0, [], schedule))
    ensures end == End.Status(Success) ==> forall m :: m in mechs ==> LastAllowed(Run(mechs, kind, 0, [], schedule).runs, m)
  {
    SuccessMeansAllowed(mechs, kind, 0, [], schedule);
    hide LastAllowed;
    var result := Allow;
    var i, at := 0, 0;
    ghost var runs := [];
    while i < |mechs|
      invariant 0 <= i <= |mechs| && 0 <= at <= |schedule| && result == Allow
      invariant Run(mechs, kind, i, runs, schedule[at..]) == Run(mechs, kind, 0, [], schedule)
      decreases |schedule| - at, |mechs| - i
    {
      if kind(mechs[i]).Builtin? {
        result := if kind(mechs[i]).allows then Allow else Deny;
        runs := runs + [Returned(mechs[i], result)];
      } else {
        if at == |schedule| {
          return OutOfEvents;
        }
        var event := schedule[at];
        assert schedule[at..][1..] == schedule[at + 1..];
        at := at + 1;
        if event.NoAgent? {
          result := Undefined;
          break;
        }
        result := event.result;
        runs := runs + [Returned(mechs[i], result)];
        var i2 := FindInterrupter(mechs, kind, i, event.interrupting);
        if i2 != i {
          if kind(mechs[i2]).Builtin? {
            return NullAgent;
          }
          i, result := i2, Allow;
          continue;
        }
      }
      if result != Allow {
        break;
      }
      i := i + 1;
    }
    return End.Status(StatusOf(result));
  }

  /** The loop over the earlier mechanisms' agents. */
  method FindInterrupter<M(==)>(mechs: seq<M>, kind: M -> Kind, i: nat, interrupting: set<M>) returns (i2: nat)
    requires i <= |mechs|
    ensures i2 == Interrupter(mechs, kind, i, interrupting, 0)
  {
    i2 := 0;
    while i2 != i && kind(mechs[i2]).Agent? && mechs[i2] !in interrupting
      invariant 0 <= i2 <= i
      invariant Interrupter(mechs, kind, i, interrupting, i2) == Interrupter(mechs, kind, i, interrupting, 0)
    {
      i2 := i2 + 1;
    }
  }
}
