/** The mutable check table of `internal/checks/state.go` and `state_report.go`.

    Every report method performs exactly the corresponding step on the snapshot of the table, so the laws
    about runs of steps are laws about runs of calls. Calls that would panic are excluded by precondition,
    which is what the code demands of its callers.
 */
module CheckTable {
  import opened Addrs
  import opened Ordering
  import opened CheckState

  /** Counts over the lists of one object which statuses occur. */
  method CountStatuses(checks: Checks) returns (errorCount: nat, failCount: nat, unknownCount: nat)
    ensures errorCount > 0 <==> Holds(checks, Error)
    ensures failCount > 0 <==> Holds(checks, Fail)
    ensures unknownCount > 0 <==> Holds(checks, Unknown)
  {
    errorCount, failCount, unknownCount := 0, 0, 0;
    var pending := checks.Keys;
    while pending != {}
      invariant pending <= checks.Keys
      invariant errorCount > 0 <==> exists t | t in checks && t !in pending :: Error in checks[t]
      invariant failCount > 0 <==> exists t | t in checks && t !in pending :: Fail in checks[t]
      invariant unknownCount > 0 <==> exists t | t in checks && t !in pending :: Unknown in checks[t]
      decreases pending
    {
      var t :| t in pending;
      var e, f, u := CountList(checks[t]);
      errorCount, failCount, unknownCount := errorCount + e, failCount + f, unknownCount + u;
      pending := pending - {t};
    }
  }

  method CountList(statuses: seq<Status>) returns (errorCount: nat, failCount: nat, unknownCount: nat)
    ensures errorCount > 0 <==> Error in statuses
    ensures failCount > 0 <==> Fail in statuses
    ensures unknownCount > 0 <==> Unknown in statuses
  {
    errorCount, failCount, unknownCount := 0, 0, 0;
    for i := 0 to |statuses|
      invariant errorCount > 0 <==> Error in statuses[..i]
      invariant failCount > 0 <==> Fail in statuses[..i]
      invariant unknownCount > 0 <==> Unknown in statuses[..i]
    {
      assert statuses[..i + 1] == statuses[..i] + [statuses[i]];
      match statuses[i] {
        case Pass =>
        case Fail => failCount := failCount + 1;
        case Error => errorCount := errorCount + 1;
        case Unknown => unknownCount := unknownCount + 1;
      }
    }
    assert statuses[..|statuses|] == statuses;
  }

  function SummarizeCheckStatuses(errorCount: nat, failCount: nat, unknownCount: nat): Status {
    if errorCount > 0 then Error
    else if failCount > 0 then Fail
    else if unknownCount > 0 then Unknown
    else Pass
  }

  /** Taking one more check into account lengthens the list exactly when it reported a message. */
  lemma ListsGrow(ret: seq<string>, msgs: map<CheckRule, string>, o: Checkable, rules: set<CheckRule>, rule: CheckRule)
    requires Lists(ret, msgs, o, rules) && rule !in rules && rule.container == o
    ensures var reported := rule in msgs && msgs[rule] != "";
            Lists(if reported then ret + [msgs[rule]] else ret, msgs, o, rules + {rule})
  {
    var ret' := if rule in msgs && msgs[rule] != "" then ret + [msgs[rule]] else ret;
    forall m | m != "" ensures multiset(ret')[m] == |FailedWith(msgs, o, m, rules + {rule})| {
      if rule in msgs && msgs[rule] == m {
        assert FailedWith(msgs, o, m, rules + {rule}) == FailedWith(msgs, o, m, rules) + {rule};
      } else {
        assert FailedWith(msgs, o, m, rules + {rule}) == FailedWith(msgs, o, m, rules);
      }
    }
  }

  lemma ListsAll(ret: seq<string>, msgs: map<CheckRule, string>, o: Checkable, rules: set<CheckRule>)
    requires Lists(ret, msgs, o, rules) && forall rule | rule in msgs && rule.container == o :: rule in rules
    ensures Lists(ret, msgs, o, msgs.Keys)
  {
    forall m | m != "" ensures multiset(ret)[m] == |FailedWith(msgs, o, m, msgs.Keys)| {
      assert FailedWith(msgs, o, m, rules) == FailedWith(msgs, o, m, msgs.Keys);
    }
  }

  lemma ListsSorted(ret: seq<string>, msgs: map<CheckRule, string>, o: Checkable, rules: set<CheckRule>)
    requires Lists(ret, msgs, o, rules)
    ensures SortedTexts(Sort(ret)) && Lists(Sort(ret), msgs, o, rules)
  {
    SortKeeps(ret);
    assert "" !in multiset(ret);
    assert "" !in multiset(Sort(ret));
  }

  /** The checks of type `t` on object `o` with index below `n`. */
  ghost function RulesBelow(o: Checkable, t: CheckType, n: nat): set<CheckRule> {
    set i | 0 <= i < n :: CheckRule(o, t, i)
  }

  class State {
    var statuses: map<ConfigAddr, ConfigState>
    var failureMsgs: map<CheckRule, string>

    ghost function Model(): Snapshot
      reads this
    {
      Snapshot(statuses, failureMsgs)
    }

    /** Objects are filed under their configuration object and messages belong to failed checks. */
    ghost predicate Valid()
      reads this
    {
      Filed(Model()) && MessagesOfFailures(Model())
    }

    constructor (expected: map<ConfigAddr, Expected>)
      ensures Valid() && Model() == Initial(expected)
    {
      statuses := map c | c in expected :: ConfigState(expected[c], None);
      failureMsgs := map[];
    }

    method ReportCheckableObjects(configAddr: ConfigAddr, objectAddrs: set<Checkable>)
      requires Valid() && Step(Model(), Objects(configAddr, objectAddrs)).Some?
      modifies this
      ensures Valid() && Some(Model()) == Step(old(Model()), Objects(configAddr, objectAddrs))
    {
      StepFiled(Model(), Objects(configAddr, objectAddrs));
      StepMessages(Model(), Objects(configAddr, objectAddrs));
      var st := statuses[configAddr];
      if st.objects.Some? {
        return;
      }
      var table: map<Checkable, Checks> := map[];
      var pending := objectAddrs;
      while pending != {}
        invariant pending <= objectAddrs && table.Keys == objectAddrs - pending
        invariant forall o | o in table :: table[o] == FreshChecks(st.checkTypes)
        decreases pending
      {
        var objectAddr :| objectAddr in pending;
        table := table[objectAddr := FreshChecks(st.checkTypes)];
        pending := pending - {objectAddr};
      }
      assert table == map o | o in objectAddrs :: FreshChecks(st.checkTypes);
      statuses := statuses[configAddr := st.(objects := Some(table))];
    }

    method ReportCheckResult(rule: CheckRule, status: Status)
      requires Valid() && Step(Model(), Result(rule, status)).Some?
      modifies this
      ensures Valid() && Some(Model()) == Step(old(Model()), Result(rule, status))
    {
      StepFiled(Model(), Result(rule, status));
      StepMessages(Model(), Result(rule, status));
      RecordInPlace(rule, status);
    }

    method ReportCheckFailure(rule: CheckRule, errorMessage: string)
      requires Valid() && Step(Model(), Failure(rule, errorMessage)).Some?
      modifies this
      ensures Valid() && Some(Model()) == Step(old(Model()), Failure(rule, errorMessage))
    {
      StepFiled(Model(), Failure(rule, errorMessage));
      StepMessages(Model(), Failure(rule, errorMessage));
      RecordInPlace(rule, Fail);
      failureMsgs := failureMsgs[rule := errorMessage];
    }

    /** Overwrites one entry of one status list, leaving every other entry alone. */
    method RecordInPlace(rule: CheckRule, status: Status)
      requires RecordResult(Model(), rule, status).Some?
      modifies this`statuses
      ensures Some(Model()) == RecordResult(old(Model()), rule, status)
    {
      var configAddr := rule.container.config;
      var st := statuses[configAddr];
      var checks := st.objects.value[rule.container];
      checks := checks[rule.checkType := checks[rule.checkType][rule.index := status]];
      statuses := statuses[configAddr := st.(objects := Some(st.objects.value[rule.container := checks]))];
    }

    method AggregateCheckStatus(addr: ConfigAddr) returns (status: Status)
      requires addr in statuses
      ensures status == Aggregate(Model(), addr)
    {
      var st := statuses[addr];
      if st.objects.None? {
        return Unknown;
      }
      var errorCount, failCount, unknownCount := 0, 0, 0;
      var objects := st.objects.value;
      var pending := objects.Keys;
      while pending != {}
        invariant pending <= objects.Keys
        invariant errorCount >= 0 && failCount >= 0 && unknownCount >= 0
        invariant errorCount > 0 <==> exists o | o in objects && o !in pending :: Holds(objects[o], Error)
        invariant failCount > 0 <==> exists o | o in objects && o !in pending :: Holds(objects[o], Fail)
        invariant unknownCount > 0 <==> exists o | o in objects && o !in pending :: Holds(objects[o], Unknown)
        decreases pending
      {
        var o :| o in pending;
        var e, f, u := CountStatuses(objects[o]);
        errorCount, failCount, unknownCount := errorCount + e, failCount + f, unknownCount + u;
        pending := pending - {o};
      }
      return SummarizeCheckStatuses(errorCount, failCount, unknownCount);
    }

    method ObjectCheckStatus(addr: Checkable) returns (status: Status)
      requires addr.config in statuses && statuses[addr.config].objects.Some?
      requires addr in statuses[addr.config].objects.value
      ensures status == ObjectStatus(statuses[addr.config].objects.value[addr])
    {
      var errorCount, failCount, unknownCount := CountStatuses(statuses[addr.config].objects.value[addr]);
      return SummarizeCheckStatuses(errorCount, failCount, unknownCount);
    }

    /** Lists, in sorted order, every non-empty message reported for the object, once per check that
        reported it. */
    method ObjectFailureMessages(addr: Checkable) returns (ret: seq<string>)
      requires Valid() && addr.config in statuses && statuses[addr.config].objects.Some?
      requires addr in statuses[addr.config].objects.value
      ensures SortedTexts(ret) && Lists(ret, failureMsgs, addr, failureMsgs.Keys)
    {
      var checksByType := statuses[addr.config].objects.value[addr];
      var pending := checksByType.Keys;
      ghost var seen: set<CheckRule> := {};
      ret := [];
      while pending != {}
        invariant pending <= checksByType.Keys
        invariant Lists(ret, failureMsgs, addr, seen)
        invariant forall rule | rule in seen :: rule.container == addr && rule.checkType !in pending
        invariant forall t, i | t in checksByType && t !in pending && 0 <= i < |checksByType[t]| ::
                  CheckRule(addr, t, i) in seen
        decreases pending
      {
        var checkType :| checkType in pending;
        ret := AppendMessages(addr, checkType, ret, seen);
        seen := seen + RulesBelow(addr, checkType, |checksByType[checkType]|);
        pending := pending - {checkType};
      }
      forall rule | rule in failureMsgs && rule.container == addr ensures rule in seen {
        assert StatusAt(Model(), rule) == Some(Fail);
      }
      ListsAll(ret, failureMsgs, addr, seen);
      ListsSorted(ret, failureMsgs, addr, failureMsgs.Keys);
      ret := Sort(ret);
    }

    /** The inner loop: appends the messages of the failed checks of one type. */
    method AppendMessages(addr: Checkable, checkType: CheckType, before: seq<string>, ghost seen: set<CheckRule>)
      returns (ret: seq<string>)
      requires Valid() && addr.config in statuses && statuses[addr.config].objects.Some?
      requires addr in statuses[addr.config].objects.value && checkType in statuses[addr.config].objects.value[addr]
      requires Lists(before, failureMsgs, addr, seen) && forall rule | rule in seen :: rule.checkType != checkType
      ensures var checks := statuses[addr.config].objects.value[addr][checkType];
              Lists(ret, failureMsgs, addr, seen + RulesBelow(addr, checkType, |checks|))
    {
      var checks := statuses[addr.config].objects.value[addr][checkType];
      ret := before;
      assert seen + RulesBelow(addr, checkType, 0) == seen;
      for i := 0 to |checks|
        invariant Lists(ret, failureMsgs, addr, seen + RulesBelow(addr, checkType, i))
      {
        var checkAddr := CheckRule(addr, checkType, i);
        ListsGrow(ret, failureMsgs, addr, seen + RulesBelow(addr, checkType, i), checkAddr);
        assert seen + RulesBelow(addr, checkType, i + 1) == seen + RulesBelow(addr, checkType, i) + {checkAddr};
        assert StatusAt(Model(), checkAddr) == Some(checks[i]);
        if checks[i] == Fail {
          var msg := if checkAddr in failureMsgs then failureMsgs[checkAddr] else "";
          if msg != "" {
            ret := ret + [msg];
          }
        }
      }
    }
  }
}
