/** The table of check results that plan and apply fill in: `internal/checks`.

    Reports arrive in whatever order the graph walk produces them. `Step` is one report on a snapshot
    of the table, with `None` for a panic; the class `State` performs the same reports in place. The
    laws are about whole runs of reports, starting from any table of expected checks.
 */
module CheckState {
  import opened Addrs
  import opened Ordering

  datatype Status = Unknown | Pass | Fail | Error

  type ConfigAddr = string

  /** A dynamic checkable object; `config` is the configuration object that declares it. */
  datatype Checkable = Checkable(config: ConfigAddr, name: string)

  /** The category of a check. */
  datatype CheckType =
    | InvalidCondition
    | ResourcePrecondition
    | ResourcePostcondition
    | OutputPrecondition
    | CheckDataResource
    | CheckAssertion
    | InputValidation

  datatype CheckRule = CheckRule(container: Checkable, checkType: CheckType, index: int)

  type Expected = map<CheckType, nat>
  type Checks = map<CheckType, seq<Status>>

  /** `objects` is `None` until the dynamic objects have been reported. */
  datatype ConfigState = ConfigState(checkTypes: Expected, objects: Option<map<Checkable, Checks>>)

  datatype Snapshot = Snapshot(statuses: map<ConfigAddr, ConfigState>, failureMsgs: map<CheckRule, string>)

  datatype Report =
    | Objects(config: ConfigAddr, objects: set<Checkable>)
    | Result(rule: CheckRule, status: Status)
    | Failure(rule: CheckRule, message: string)

  // ---------------------------------------------------------------- one report

  function Initial(expected: map<ConfigAddr, Expected>): Snapshot {
    Snapshot(map c | c in expected :: ConfigState(expected[c], None), map[])
  }

  function FreshChecks(checkTypes: Expected): Checks {
    map t | t in checkTypes :: seq(checkTypes[t], _ => Unknown)
  }

  /** The position of a check in the table, or `None` where the code would panic looking for it. */
  function StatusAt(s: Snapshot, rule: CheckRule): Option<Status> {
    var c := rule.container.config;
    if c !in s.statuses || s.statuses[c].objects.None? then None else
    var objects := s.statuses[c].objects.value;
    if rule.container !in objects then None else
    var checks := objects[rule.container];
    if rule.checkType !in checks || !(0 <= rule.index < |checks[rule.checkType]|) then None
    else Some(checks[rule.checkType][rule.index])
  }

  function SetStatus(s: Snapshot, rule: CheckRule, status: Status): Snapshot
    requires StatusAt(s, rule).Some?
  {
    var c := rule.container.config;
    var st := s.statuses[c];
    var checks := st.objects.value[rule.container];
    var newChecks := checks[rule.checkType := checks[rule.checkType][rule.index := status]];
    s.(statuses := s.statuses[c := st.(objects := Some(st.objects.value[rule.container := newChecks]))])
  }

  /** Records a result; a second report for a known check panics. */
  function RecordResult(s: Snapshot, rule: CheckRule, status: Status): Option<Snapshot> {
    if StatusAt(s, rule) == Some(Unknown) then Some(SetStatus(s, rule, status)) else None
  }

  function Step(s: Snapshot, r: Report): Option<Snapshot> {
    match r
    case Objects(config, objects) =>
      if config !in s.statuses then None
      else if s.statuses[config].objects.Some? then Some(s)
      else if exists o | o in objects :: o.config != config then None
      else
        var st := s.statuses[config];
        var table := map o | o in objects :: FreshChecks(st.checkTypes);
        Some(s.(statuses := s.statuses[config := st.(objects := Some(table))]))
    case Result(rule, status) => RecordResult(s, rule, status)
    case Failure(rule, message) =>
      match RecordResult(s, rule, Fail)
      case None => None
      case Some(s') => Some(s'.(failureMsgs := s'.failureMsgs[rule := message]))
  }

  /** The state after a sequence of reports, or `None` if one of them panicked. */
  function Run(s: Snapshot, rs: seq<Report>): Option<Snapshot> {
    if rs == [] then Some(s) else
    match Run(s, rs[..|rs| - 1])
    case None => None
    case Some(before) => Step(before, rs[|rs| - 1])
  }

  // ---------------------------------------------------------------- effect of one report on one position

  lemma SetStatusAt(s: Snapshot, rule: CheckRule, status: Status, other: CheckRule)
    requires StatusAt(s, rule).Some?
    ensures StatusAt(SetStatus(s, rule, status), other) == if other == rule then Some(status) else StatusAt(s, other)
  {
  }

  /** The result a report states about a check, if it is about that check. */
  function ReportedStatus(r: Report, rule: CheckRule): Option<Status> {
    match r
    case Objects(_, _) => None
    case Result(about, status) => if about == rule then Some(status) else None
    case Failure(about, _) => if about == rule then Some(Fail) else None
  }

  /** A report about a check fills a position that was unknown; every other position that exists stays
      as it was, and positions that come into being are unknown. */
  lemma StepStatus(s: Snapshot, r: Report, rule: CheckRule)
    requires Step(s, r).Some?
    ensures var after := StatusAt(Step(s, r).value, rule);
            match ReportedStatus(r, rule)
            case Some(status) => StatusAt(s, rule) == Some(Unknown) && after == Some(status)
            case None => after == StatusAt(s, rule) || (StatusAt(s, rule) == None && after == Some(Unknown))
  {
    match r {
      case Objects(config, objects) =>
      case Result(about, status) => SetStatusAt(s, about, status, rule);
      case Failure(about, _) => SetStatusAt(s, about, Fail, rule);
    }
  }

  /** A known status never changes. */
  lemma {:induction false} KnownStatusIsFinal(s: Snapshot, rs: seq<Report>, rule: CheckRule)
    requires Run(s, rs).Some?
    requires StatusAt(s, rule).Some? && StatusAt(s, rule) != Some(Unknown)
    ensures StatusAt(Run(s, rs).value, rule) == StatusAt(s, rule)
  {
    if rs != [] {
      KnownStatusIsFinal(s, rs[..|rs| - 1], rule);
      StepStatus(Run(s, rs[..|rs| - 1]).value, rs[|rs| - 1], rule);
    }
  }

  // ---------------------------------------------------------------- reports are order-independent

  /** Reports about the objects of one configuration object agree with each other. */
  predicate ObjectReportsAgree(reports: set<Report>) {
    forall r, q | r in reports && q in reports && r.Objects? && q.Objects? && r.config == q.config ::
      r.objects == q.objects
  }

  /** One list of statuses for each expected type of check, of the expected length. */
  predicate ShapedChecks(expected: Expected, checks: Checks) {
    checks.Keys == expected.Keys && forall t | t in expected :: |checks[t]| == expected[t]
  }

  predicate ShapedObjects(c: ConfigAddr, expected: Expected, objects: map<Checkable, Checks>) {
    forall o | o in objects :: o.config == c && ShapedChecks(expected, objects[o])
  }

  /** The entry of one configuration object has the shape its expected checks and object reports determine. */
  predicate ShapedConfig(c: ConfigAddr, expected: Expected, reports: set<Report>, st: ConfigState) {
    && st.checkTypes == expected
    && ((exists r | r in reports :: r.Objects? && r.config == c) ==> st.objects.Some?)
    && (st.objects.Some? ==>
          Objects(c, st.objects.value.Keys) in reports && ShapedObjects(c, expected, st.objects.value))
  }

  predicate Shaped(expected: map<ConfigAddr, Expected>, reports: set<Report>, s: Snapshot) {
    s.statuses.Keys == expected.Keys && forall c | c in expected :: ShapedConfig(c, expected[c], reports, s.statuses[c])
  }

  /** The table holds exactly the results and messages that were reported. */
  ghost predicate Filled(reports: set<Report>, s: Snapshot) {
    && (forall rule, status | status != Unknown ::
          StatusAt(s, rule) == Some(status) <==> exists r :: r in reports && ReportedStatus(r, rule) == Some(status))
    && (forall rule, message ::
          (rule in s.failureMsgs && s.failureMsgs[rule] == message) <==> Failure(rule, message) in reports)
  }

  function Elements(rs: seq<Report>): set<Report> {
    set r | r in rs
  }

  lemma ElementsGrow(rs: seq<Report>)
    requires rs != []
    ensures Elements(rs) == Elements(rs[..|rs| - 1]) + {rs[|rs| - 1]}
  {
    assert rs == rs[..|rs| - 1] + [rs[|rs| - 1]];
  }

  /** A report that says nothing new about a configuration object leaves its entry in shape. */
  lemma ShapedConfigKept(c: ConfigAddr, expected: Expected, reports: set<Report>, st: ConfigState, r: Report)
    requires ShapedConfig(c, expected, reports, st)
    requires r.Objects? && r.config == c ==> st.objects.Some?
    ensures ShapedConfig(c, expected, reports + {r}, st)
  {
  }

  lemma StepShapedAt(c: ConfigAddr, expected: Expected, reports: set<Report>, s: Snapshot, r: Report)
    requires c in s.statuses && ShapedConfig(c, expected, reports, s.statuses[c]) && Step(s, r).Some?
    ensures c in Step(s, r).value.statuses && ShapedConfig(c, expected, reports + {r}, Step(s, r).value.statuses[c])
  {
    var st, st' := s.statuses[c], Step(s, r).value.statuses[c];
    if st' == st {
      ShapedConfigKept(c, expected, reports, st, r);
    } else if r.Objects? {
      assert st'.objects.value.Keys == r.objects;
      assert forall o | o in r.objects :: ShapedChecks(expected, FreshChecks(st.checkTypes));
    } else {
      UpdateShaped(c, expected, st.objects.value, r.rule, if r.Result? then r.status else Fail);
      ShapedConfigKept(c, expected, reports, st', r);
    }
  }

  lemma StepShaped(expected: map<ConfigAddr, Expected>, reports: set<Report>, s: Snapshot, r: Report)
    requires Shaped(expected, reports, s) && Step(s, r).Some?
    ensures Shaped(expected, reports + {r}, Step(s, r).value)
  {
    forall c | c in expected ensures ShapedConfig(c, expected[c], reports + {r}, Step(s, r).value.statuses[c]) {
      StepShapedAt(c, expected[c], reports, s, r);
    }
  }

  lemma UpdateShaped(
      c: ConfigAddr, expected: Expected, objects: map<Checkable, Checks>, rule: CheckRule, status: Status)
    requires ShapedObjects(c, expected, objects) && rule.container in objects
    requires rule.checkType in objects[rule.container] && 0 <= rule.index < |objects[rule.container][rule.checkType]|
    ensures var checks := objects[rule.container];
            var after := objects[rule.container :=
              checks[rule.checkType := checks[rule.checkType][rule.index := status]]];
            after.Keys == objects.Keys && ShapedObjects(c, expected, after)
  {
    assert ShapedChecks(expected, objects[rule.container]);
  }

  lemma StepFilled(reports: set<Report>, s: Snapshot, r: Report)
    requires Filled(reports, s) && Step(s, r).Some?
    ensures Filled(reports + {r}, Step(s, r).value)
  {
    var s' := Step(s, r).value;
    var more := reports + {r};
    forall rule, status | status != Unknown
      ensures StatusAt(s', rule) == Some(status) <==> exists q :: q in more && ReportedStatus(q, rule) == Some(status)
    {
      StepStatus(s, r, rule);
      if ReportedStatus(r, rule) == Some(status) {
        assert r in more;
      } else if q :| q in reports && ReportedStatus(q, rule) == Some(status) {
        assert q in more;
      }
    }
    forall rule, message
      ensures (rule in s'.failureMsgs && s'.failureMsgs[rule] == message) <==> Failure(rule, message) in more
    {
      assert ReportedStatus(Failure(rule, message), rule) == Some(Fail);
      StepStatus(s, r, rule);
    }
  }

  /** Any panic-free run leaves the table holding exactly what was reported, and nothing else. */
  lemma {:induction false} RunMeaning(expected: map<ConfigAddr, Expected>, rs: seq<Report>)
    requires Run(Initial(expected), rs).Some?
    ensures Shaped(expected, Elements(rs), Run(Initial(expected), rs).value)
    ensures Filled(Elements(rs), Run(Initial(expected), rs).value)
  {
    if rs == [] {
      assert Elements(rs) == {};
    } else {
      var init, last := rs[..|rs| - 1], rs[|rs| - 1];
      ElementsGrow(rs);
      RunMeaning(expected, init);
      StepShaped(expected, Elements(init), Run(Initial(expected), init).value, last);
      StepFilled(Elements(init), Run(Initial(expected), init).value, last);
    }
  }

  lemma SamePosition(reports: set<Report>, s: Snapshot, t: Snapshot, rule: CheckRule)
    requires Filled(reports, s) && Filled(reports, t)
    requires StatusAt(s, rule).Some? && StatusAt(t, rule).Some?
    ensures StatusAt(s, rule) == StatusAt(t, rule)
  {
    var known := StatusAt(s, rule).value;
    if known == Unknown {
      var other := StatusAt(t, rule).value;
      assert other != Unknown ==> StatusAt(s, rule) == Some(other);
    }
  }

  lemma ChecksEqual(expected: Expected, x: Checks, y: Checks)
    requires ShapedChecks(expected, x) && ShapedChecks(expected, y)
    requires forall k, i | k in expected && 0 <= i < expected[k] :: x[k][i] == y[k][i]
    ensures x == y
  {
    forall k | k in x ensures x[k] == y[k] {
    }
  }

  lemma SameChecks(expected: map<ConfigAddr, Expected>, reports: set<Report>, s: Snapshot, t: Snapshot, o: Checkable)
    requires Shaped(expected, reports, s) && Shaped(expected, reports, t) && Filled(reports, s) && Filled(reports, t)
    requires o.config in expected && s.statuses[o.config].objects.Some? && t.statuses[o.config].objects.Some?
    requires o in s.statuses[o.config].objects.value && o in t.statuses[o.config].objects.value
    ensures s.statuses[o.config].objects.value[o] == t.statuses[o.config].objects.value[o]
  {
    var x, y := s.statuses[o.config].objects.value[o], t.statuses[o.config].objects.value[o];
    var e := expected[o.config];
    assert ShapedConfig(o.config, e, reports, s.statuses[o.config]) &&
           ShapedConfig(o.config, e, reports, t.statuses[o.config]);
    assert ShapedChecks(e, x) && ShapedChecks(e, y);
    forall k, i | k in e && 0 <= i < e[k] ensures x[k][i] == y[k][i] {
      SamePosition(reports, s, t, CheckRule(o, k, i));
    }
    ChecksEqual(e, x, y);
  }

  /** The objects a configuration object is known to have, once they have been reported. */
  function KnownObjects(s: Snapshot, c: ConfigAddr): Option<set<Checkable>> {
    if c !in s.statuses || s.statuses[c].objects.None? then None else Some(s.statuses[c].objects.value.Keys)
  }

  /** The same reports and the same known objects determine the table. */
  lemma MeaningIsUnique(expected: map<ConfigAddr, Expected>, reports: set<Report>, s: Snapshot, t: Snapshot)
    requires Shaped(expected, reports, s) && Shaped(expected, reports, t) && Filled(reports, s) && Filled(reports, t)
    requires forall c | c in expected :: KnownObjects(s, c) == KnownObjects(t, c)
    ensures s == t
  {
    forall c | c in expected ensures s.statuses[c] == t.statuses[c] {
      assert KnownObjects(s, c) == KnownObjects(t, c);
      assert ShapedConfig(c, expected[c], reports, s.statuses[c]) &&
             ShapedConfig(c, expected[c], reports, t.statuses[c]);
      if s.statuses[c].objects.Some? {
        var x, y := s.statuses[c].objects.value, t.statuses[c].objects.value;
        forall o | o in x ensures x[o] == y[o] {
          SameChecks(expected, reports, s, t, o);
        }
        assert x == y;
      }
    }
    assert s.statuses == t.statuses;
    SameMessages(reports, s, t);
  }

  lemma SameMessages(reports: set<Report>, s: Snapshot, t: Snapshot)
    requires Filled(reports, s) && Filled(reports, t)
    ensures s.failureMsgs == t.failureMsgs
  {
    forall rule | rule in s.failureMsgs || rule in t.failureMsgs
      ensures rule in s.failureMsgs && rule in t.failureMsgs && s.failureMsgs[rule] == t.failureMsgs[rule]
    {
      assert rule in s.failureMsgs ==> Failure(rule, s.failureMsgs[rule]) in reports;
      assert rule in t.failureMsgs ==> Failure(rule, t.failureMsgs[rule]) in reports;
    }
  }

  /** What the first report about the objects of a configuration object says they are. */
  function FirstObjects(rs: seq<Report>, c: ConfigAddr): Option<set<Checkable>> {
    if rs == [] then None
    else if rs[0].Objects? && rs[0].config == c then Some(rs[0].objects)
    else FirstObjects(rs[1..], c)
  }

  lemma {:induction false} FirstObjectsGrow(rs: seq<Report>, last: Report, c: ConfigAddr)
    ensures FirstObjects(rs + [last], c) ==
            if FirstObjects(rs, c).Some? then FirstObjects(rs, c)
            else if last.Objects? && last.config == c then Some(last.objects) else None
  {
    if rs == [] {
      assert (rs + [last])[1..] == [];
    } else {
      assert (rs + [last])[1..] == rs[1..] + [last];
      FirstObjectsGrow(rs[1..], last, c);
    }
  }

  lemma StepObjects(s: Snapshot, r: Report, c: ConfigAddr)
    requires Step(s, r).Some?
    ensures KnownObjects(Step(s, r).value, c) ==
            if KnownObjects(s, c).Some? then KnownObjects(s, c)
            else if r.Objects? && r.config == c then Some(r.objects) else None
  {
    if r.Objects? {
      assert KnownObjects(s, r.config).None? ==> Step(s, r).value.statuses[r.config].objects.value.Keys == r.objects;
    } else {
      var config := r.rule.container.config;
      assert Step(s, r).value.statuses[config].objects.value.Keys == s.statuses[config].objects.value.Keys;
    }
  }

  /** The first report about the objects of a configuration object is the one that counts. */
  lemma {:induction false} FirstReportWins(expected: map<ConfigAddr, Expected>, rs: seq<Report>, c: ConfigAddr)
    requires Run(Initial(expected), rs).Some?
    ensures KnownObjects(Run(Initial(expected), rs).value, c) == FirstObjects(rs, c)
  {
    if rs != [] {
      var init, last := rs[..|rs| - 1], rs[|rs| - 1];
      assert rs == init + [last];
      FirstReportWins(expected, init, c);
      FirstObjectsGrow(init, last, c);
      StepObjects(Run(Initial(expected), init).value, last, c);
    }
  }

  /** For every configuration object the first reports about its objects say the same. */
  ghost predicate SameFirst(rs: seq<Report>, qs: seq<Report>) {
    forall c :: FirstObjects(rs, c) == FirstObjects(qs, c)
  }

  lemma SameFirstSameEnd(expected: map<ConfigAddr, Expected>, rs: seq<Report>, qs: seq<Report>)
    requires Elements(rs) == Elements(qs)
    requires Run(Initial(expected), rs).Some? && Run(Initial(expected), qs).Some?
    requires SameFirst(rs, qs)
    ensures Run(Initial(expected), rs) == Run(Initial(expected), qs)
  {
    var s, t := Run(Initial(expected), rs).value, Run(Initial(expected), qs).value;
    RunMeaning(expected, rs);
    RunMeaning(expected, qs);
    forall c | c in expected ensures KnownObjects(s, c) == KnownObjects(t, c) {
      FirstReportWins(expected, rs, c);
      FirstReportWins(expected, qs, c);
    }
    MeaningIsUnique(expected, Elements(rs), s, t);
  }

  /** Two panic-free runs that make the same reports end in the same state if and only if, for every
      configuration object, their first reports about its objects say the same. */
  lemma OrderMattersExactly(expected: map<ConfigAddr, Expected>, rs: seq<Report>, qs: seq<Report>)
    requires Elements(rs) == Elements(qs)
    requires Run(Initial(expected), rs).Some? && Run(Initial(expected), qs).Some?
    ensures Run(Initial(expected), rs) == Run(Initial(expected), qs) <==> SameFirst(rs, qs)
  {
    if Run(Initial(expected), rs) == Run(Initial(expected), qs) {
      forall c ensures FirstObjects(rs, c) == FirstObjects(qs, c) {
        FirstReportWins(expected, rs, c);
        FirstReportWins(expected, qs, c);
      }
    } else if SameFirst(rs, qs) {
      SameFirstSameEnd(expected, rs, qs);
    }
  }

  lemma {:induction false} FirstObjectsReported(rs: seq<Report>, c: ConfigAddr)
    ensures FirstObjects(rs, c).Some? ==> Objects(c, FirstObjects(rs, c).value) in rs
    ensures FirstObjects(rs, c).None? ==> forall r | r in rs :: !(r.Objects? && r.config == c)
  {
    if rs != [] {
      FirstObjectsReported(rs[1..], c);
      assert rs == [rs[0]] + rs[1..];
    }
  }

  /** Two panic-free runs that make the same reports end in the same state, whatever the order, if reports
      about the objects of one configuration object agree. */
  lemma OrderIndependent(expected: map<ConfigAddr, Expected>, rs: seq<Report>, qs: seq<Report>)
    requires Elements(rs) == Elements(qs) && ObjectReportsAgree(Elements(rs))
    requires Run(Initial(expected), rs).Some? && Run(Initial(expected), qs).Some?
    ensures Run(Initial(expected), rs) == Run(Initial(expected), qs)
  {
    forall c ensures FirstObjects(rs, c) == FirstObjects(qs, c) {
      AgreeingFirst(rs, qs, c);
    }
    OrderMattersExactly(expected, rs, qs);
  }

  lemma AgreeingFirst(rs: seq<Report>, qs: seq<Report>, c: ConfigAddr)
    requires Elements(rs) == Elements(qs) && ObjectReportsAgree(Elements(rs))
    ensures FirstObjects(rs, c) == FirstObjects(qs, c)
  {
    FirstObjectsReported(rs, c);
    FirstObjectsReported(qs, c);
    assert forall r :: r in rs <==> r in Elements(rs);
    assert forall r :: r in qs <==> r in Elements(qs);
  }

  /** Disagreeing object reports do depend on their order. */
  lemma DisagreeingObjectsDependOnOrder()
    ensures exists expected, r, q ::
              && Run(Initial(expected), [r, q]).Some? && Run(Initial(expected), [q, r]).Some?
              && Run(Initial(expected), [r, q]) != Run(Initial(expected), [q, r])
  {
    var expected: map<ConfigAddr, Expected> := map["c" := map[]];
    var r, q := Objects("c", {}), Objects("c", {Checkable("c", "o")});
    var s := Initial(expected);
    RunTwo(s, r, q);
    RunTwo(s, q, r);
    FirstReportWins(expected, [r, q], "c");
    FirstReportWins(expected, [q, r], "c");
    assert Run(s, [r, q]).Some? && Run(s, [q, r]).Some?;
  }

  lemma RunTwo(s: Snapshot, r: Report, q: Report)
    ensures Run(s, [r, q]) == match Step(s, r) case None => None case Some(s') => Step(s', q)
  {
    assert Run(s, [r]) == Step(s, r) by {
      assert [r][..|[r]| - 1] == [];
    }
    assert [r, q][..|[r, q]| - 1] == [r];
  }

  // ---------------------------------------------------------------- which runs are free of panics

  /** After some reports a check may be reported on: its object is among those reported first for its
      configuration object, its type and index are expected, and no result is known yet. */
  predicate AwaitsResult(expected: map<ConfigAddr, Expected>, before: seq<Report>, rule: CheckRule) {
    var c := rule.container.config;
    && c in expected && FirstObjects(before, c).Some? && rule.container in FirstObjects(before, c).value
    && rule.checkType in expected[c] && 0 <= rule.index < expected[c][rule.checkType]
    && forall r | r in before :: ReportedStatus(r, rule) in {None, Some(Unknown)}
  }

  /** After some reports another one is acceptable. */
  predicate Acceptable(expected: map<ConfigAddr, Expected>, before: seq<Report>, r: Report) {
    match r
    case Objects(c, objects) =>
      c in expected && (FirstObjects(before, c).Some? || forall o | o in objects :: o.config == c)
    case Result(rule, _) => AwaitsResult(expected, before, rule)
    case Failure(rule, _) => AwaitsResult(expected, before, rule)
  }

  /** A position exists exactly for expected checks of known objects. */
  lemma PositionExists(expected: map<ConfigAddr, Expected>, reports: set<Report>, s: Snapshot, rule: CheckRule)
    requires Shaped(expected, reports, s)
    ensures var c := rule.container.config;
            StatusAt(s, rule).Some? <==>
            && c in expected && KnownObjects(s, c).Some? && rule.container in KnownObjects(s, c).value
            && rule.checkType in expected[c] && 0 <= rule.index < expected[c][rule.checkType]
  {
    var c := rule.container.config;
    if c in expected {
      assert ShapedConfig(c, expected[c], reports, s.statuses[c]);
      if s.statuses[c].objects.Some? && rule.container in s.statuses[c].objects.value {
        assert ShapedChecks(expected[c], s.statuses[c].objects.value[rule.container]);
      }
    }
  }

  lemma AwaitsExactly(expected: map<ConfigAddr, Expected>, rs: seq<Report>, rule: CheckRule)
    requires Run(Initial(expected), rs).Some?
    ensures StatusAt(Run(Initial(expected), rs).value, rule) == Some(Unknown) <==> AwaitsResult(expected, rs, rule)
  {
    var s := Run(Initial(expected), rs).value;
    RunMeaning(expected, rs);
    FirstReportWins(expected, rs, rule.container.config);
    PositionExists(expected, Elements(rs), s, rule);
    if r :| r in rs && ReportedStatus(r, rule) !in {None, Some(Unknown)} {
      assert r in Elements(rs);
      assert StatusAt(s, rule) == ReportedStatus(r, rule);
    }
    if StatusAt(s, rule).Some? && StatusAt(s, rule) != Some(Unknown) {
      var r :| r in Elements(rs) && ReportedStatus(r, rule) == StatusAt(s, rule);
      assert r in rs;
    }
  }

  lemma StepAcceptable(expected: map<ConfigAddr, Expected>, rs: seq<Report>, r: Report)
    requires Run(Initial(expected), rs).Some?
    ensures Step(Run(Initial(expected), rs).value, r).Some? <==> Acceptable(expected, rs, r)
  {
    match r {
      case Objects(c, objects) =>
        RunMeaning(expected, rs);
        FirstReportWins(expected, rs, c);
      case Result(rule, _) => AwaitsExactly(expected, rs, rule);
      case Failure(rule, _) => AwaitsExactly(expected, rs, rule);
    }
  }

  /** A run is free of panics if and only if every report is acceptable after those before it. */
  lemma {:induction false} PanicFreeExactly(expected: map<ConfigAddr, Expected>, rs: seq<Report>)
    ensures Run(Initial(expected), rs).Some? <==> forall i | 0 <= i < |rs| :: Acceptable(expected, rs[..i], rs[i])
  {
    if rs != [] {
      var init := rs[..|rs| - 1];
      PanicFreeExactly(expected, init);
      assert forall i | 0 <= i < |init| :: init[..i] == rs[..i] && init[i] == rs[i];
      if Run(Initial(expected), init).Some? {
        StepAcceptable(expected, init, rs[|rs| - 1]);
      } else {
        var i :| 0 <= i < |init| && !Acceptable(expected, init[..i], init[i]);
        assert !Acceptable(expected, rs[..i], rs[i]);
      }
    }
  }

  // ---------------------------------------------------------------- aggregate status

  predicate Holds(checks: Checks, status: Status) {
    exists t | t in checks :: status in checks[t]
  }

  predicate AnyHolds(objects: map<Checkable, Checks>, status: Status) {
    exists o | o in objects :: Holds(objects[o], status)
  }

  function Summarize(anyError: bool, anyFail: bool, anyUnknown: bool): Status {
    if anyError then Error else if anyFail then Fail else if anyUnknown then Unknown else Pass
  }

  function ObjectStatus(checks: Checks): Status {
    Summarize(Holds(checks, Error), Holds(checks, Fail), Holds(checks, Unknown))
  }

  function Aggregate(s: Snapshot, c: ConfigAddr): Status
    requires c in s.statuses
  {
    match s.statuses[c].objects
    case None => Unknown
    case Some(objects) => Summarize(AnyHolds(objects, Error), AnyHolds(objects, Fail), AnyHolds(objects, Unknown))
  }

  function Severity(status: Status): nat {
    match status case Pass => 0 case Unknown => 1 case Fail => 2 case Error => 3
  }

  /** Once objects are reported the aggregate is the maximum of the objects' own statuses. */
  lemma AggregateIsMaximum(s: Snapshot, c: ConfigAddr)
    requires c in s.statuses && s.statuses[c].objects.Some?
    ensures var objects := s.statuses[c].objects.value;
            && (forall o | o in objects :: Severity(ObjectStatus(objects[o])) <= Severity(Aggregate(s, c)))
            && (objects != map[] ==> exists o | o in objects :: ObjectStatus(objects[o]) == Aggregate(s, c))
            && (objects == map[] ==> Aggregate(s, c) == Pass)
  {
    var objects := s.statuses[c].objects.value;
    var worst := Aggregate(s, c);
    if objects != map[] {
      if worst == Pass {
        var o :| o in objects;
        assert ObjectStatus(objects[o]) == Pass;
      } else {
        var o :| o in objects && Holds(objects[o], worst);
        assert ObjectStatus(objects[o]) == worst;
      }
    }
  }

  /** How an aggregate may change: only away from unknown, and from failure to error. */
  predicate MayBecome(before: Status, after: Status) {
    before == after || before == Unknown || (before == Fail && after == Error)
  }

  /** Some position of the configuration object's table holds the given status. */
  ghost predicate SomePosition(s: Snapshot, c: ConfigAddr, status: Status) {
    exists rule: CheckRule :: rule.container.config == c && StatusAt(s, rule) == Some(status)
  }

  /** Objects are filed under their own configuration object. */
  predicate Filed(s: Snapshot) {
    forall c | c in s.statuses && s.statuses[c].objects.Some? :: forall o | o in s.statuses[c].objects.value ::
      o.config == c
  }

  lemma PositionsDecide(s: Snapshot, c: ConfigAddr, status: Status)
    requires Filed(s) && c in s.statuses && s.statuses[c].objects.Some?
    ensures AnyHolds(s.statuses[c].objects.value, status) <==> SomePosition(s, c, status)
  {
    var objects := s.statuses[c].objects.value;
    if AnyHolds(objects, status) {
      var o :| o in objects && Holds(objects[o], status);
      var t :| t in objects[o] && status in objects[o][t];
      var i :| 0 <= i < |objects[o][t]| && objects[o][t][i] == status;
      assert StatusAt(s, CheckRule(o, t, i)) == Some(status);
    }
    if rule: CheckRule :| rule.container.config == c && StatusAt(s, rule) == Some(status) {
      var o := rule.container;
      assert status in objects[o][rule.checkType];
      assert Holds(objects[o], status);
    }
  }

  /** Some check of an object has the given status. */
  predicate Occurs(checks: Checks, status: Status) {
    exists t, i | t in checks && 0 <= i < |checks[t]| :: checks[t][i] == status
  }

  lemma OccursHolds(checks: Checks, status: Status)
    ensures Occurs(checks, status) <==> Holds(checks, status)
  {
    if Holds(checks, status) {
      var t :| t in checks && status in checks[t];
      var i :| 0 <= i < |checks[t]| && checks[t][i] == status;
    }
  }

  /** The status of an object is that of its worst check: an error if there is one, or else a failure, or else
      what is still unknown; it passes if all checks do, and if there are none. */
  lemma ObjectStatusMeaning(checks: Checks)
    ensures ObjectStatus(checks) == Error <==> Occurs(checks, Error)
    ensures ObjectStatus(checks) == Fail <==> Occurs(checks, Fail) && !Occurs(checks, Error)
    ensures ObjectStatus(checks) == Unknown <==>
            Occurs(checks, Unknown) && !Occurs(checks, Fail) && !Occurs(checks, Error)
    ensures ObjectStatus(checks) == Pass <==>
            forall t, i | t in checks && 0 <= i < |checks[t]| :: checks[t][i] == Pass
    ensures forall t, i | t in checks && 0 <= i < |checks[t]| ::
              Severity(checks[t][i]) <= Severity(ObjectStatus(checks))
  {
    OccursHolds(checks, Error);
    OccursHolds(checks, Fail);
    OccursHolds(checks, Unknown);
    forall t, i | t in checks && 0 <= i < |checks[t]| ensures checks[t][i] != Pass ==> Occurs(checks, checks[t][i]) {
    }
  }

  /** The same of the aggregate, over the positions of the configuration object. */
  lemma AggregateMeaning(s: Snapshot, c: ConfigAddr)
    requires Filed(s) && c in s.statuses && s.statuses[c].objects.Some?
    ensures Aggregate(s, c) == Error <==> SomePosition(s, c, Error)
    ensures Aggregate(s, c) == Fail <==> SomePosition(s, c, Fail) && !SomePosition(s, c, Error)
    ensures Aggregate(s, c) == Unknown <==>
            SomePosition(s, c, Unknown) && !SomePosition(s, c, Fail) && !SomePosition(s, c, Error)
    ensures Aggregate(s, c) == Pass <==>
            !SomePosition(s, c, Unknown) && !SomePosition(s, c, Fail) && !SomePosition(s, c, Error)
  {
    PositionsDecide(s, c, Error);
    PositionsDecide(s, c, Fail);
    PositionsDecide(s, c, Unknown);
  }

  /** A report states the given result of some check of a configuration object. */
  predicate StatesResult(r: Report, c: ConfigAddr, status: Status) {
    match r
    case Objects(_, _) => false
    case Result(rule, reported) => rule.container.config == c && reported == status
    case Failure(rule, _) => rule.container.config == c && status == Fail
  }

  lemma PositionsAreReports(expected: map<ConfigAddr, Expected>, rs: seq<Report>, c: ConfigAddr, status: Status)
    requires Run(Initial(expected), rs).Some? && status != Unknown
    ensures SomePosition(Run(Initial(expected), rs).value, c, status) <==>
            exists r | r in rs :: StatesResult(r, c, status)
  {
    var s := Run(Initial(expected), rs).value;
    RunMeaning(expected, rs);
    if rule: CheckRule :| rule.container.config == c && StatusAt(s, rule) == Some(status) {
      var r :| r in Elements(rs) && ReportedStatus(r, rule) == Some(status);
      assert r in rs && StatesResult(r, c, status);
    }
    if r :| r in rs && StatesResult(r, c, status) {
      assert r in Elements(rs) && ReportedStatus(r, r.rule) == Some(status);
      assert StatusAt(s, r.rule) == Some(status);
    }
  }

  lemma UnknownPositions(expected: map<ConfigAddr, Expected>, rs: seq<Report>, c: ConfigAddr)
    requires Run(Initial(expected), rs).Some?
    ensures SomePosition(Run(Initial(expected), rs).value, c, Unknown) <==>
            exists rule: CheckRule :: rule.container.config == c && AwaitsResult(expected, rs, rule)
  {
    forall rule: CheckRule
      ensures StatusAt(Run(Initial(expected), rs).value, rule) == Some(Unknown) <==> AwaitsResult(expected, rs, rule)
    {
      AwaitsExactly(expected, rs, rule);
    }
  }

  /** What the aggregate says after a run, in terms of the reports alone: an error if one was reported, or else a
      failure if one was reported; it is unknown as long as the objects are not known or some check of theirs has
      no result, and only then a pass. */
  lemma AggregateOfReports(expected: map<ConfigAddr, Expected>, rs: seq<Report>, c: ConfigAddr)
    requires Run(Initial(expected), rs).Some? && c in expected
    ensures c in Run(Initial(expected), rs).value.statuses
    ensures var aggregate := Aggregate(Run(Initial(expected), rs).value, c);
            var error := exists r | r in rs :: StatesResult(r, c, Error);
            var failure := exists r | r in rs :: StatesResult(r, c, Fail);
            var open := || FirstObjects(rs, c).None?
                        || exists rule: CheckRule :: rule.container.config == c && AwaitsResult(expected, rs, rule);
            && (aggregate == Error <==> error)
            && (aggregate == Fail <==> failure && !error)
            && (aggregate == Unknown <==> open && !failure && !error)
            && (aggregate == Pass <==> !open && !failure && !error)
  {
    var s := Run(Initial(expected), rs).value;
    RunMeaning(expected, rs);
    FirstReportWins(expected, rs, c);
    PositionsAreReports(expected, rs, c, Error);
    PositionsAreReports(expected, rs, c, Fail);
    UnknownPositions(expected, rs, c);
    ShapedIsFiled(expected, Elements(rs), s);
    if s.statuses[c].objects.Some? {
      AggregateMeaning(s, c);
    } else {
      assert !SomePosition(s, c, Error) && !SomePosition(s, c, Fail);
    }
  }

  lemma ShapedIsFiled(expected: map<ConfigAddr, Expected>, reports: set<Report>, s: Snapshot)
    requires Shaped(expected, reports, s)
    ensures Filed(s)
  {
    forall c | c in s.statuses && s.statuses[c].objects.Some?
      ensures forall o | o in s.statuses[c].objects.value :: o.config == c
    {
      assert ShapedConfig(c, expected[c], reports, s.statuses[c]);
    }
  }

  /** A position that was known before a report is known after it, with the same status. */
  lemma KnownPositionStays(s: Snapshot, r: Report, c: ConfigAddr, status: Status)
    requires Step(s, r).Some? && status != Unknown && SomePosition(s, c, status)
    ensures SomePosition(Step(s, r).value, c, status)
  {
    var rule: CheckRule :| rule.container.config == c && StatusAt(s, rule) == Some(status);
    StepStatus(s, r, rule);
  }

  lemma StepFiled(s: Snapshot, r: Report)
    requires Filed(s) && Step(s, r).Some?
    ensures Filed(Step(s, r).value) && Step(s, r).value.statuses.Keys == s.statuses.Keys
    ensures forall c | c in s.statuses && s.statuses[c].objects.Some? :: Step(s, r).value.statuses[c].objects.Some?
  {
  }

  lemma ResultNeedsUnknown(s: Snapshot, r: Report)
    requires Step(s, r).Some? && !r.Objects?
    ensures SomePosition(s, r.rule.container.config, Unknown)
  {
    assert StatusAt(s, r.rule) == Some(Unknown);
  }

  /** With nothing unknown left, every further report about the configuration object would panic. */
  lemma NoUnknownNoChange(s: Snapshot, r: Report, c: ConfigAddr)
    requires Filed(s) && Step(s, r).Some? && c in s.statuses && s.statuses[c].objects.Some?
    requires !SomePosition(s, c, Unknown)
    ensures Step(s, r).value.statuses[c] == s.statuses[c]
  {
    if !r.Objects? {
      ResultNeedsUnknown(s, r);
    }
  }

  lemma AggregateStep(s: Snapshot, r: Report, c: ConfigAddr)
    requires Filed(s) && Step(s, r).Some? && c in s.statuses
    ensures c in Step(s, r).value.statuses
    ensures MayBecome(Aggregate(s, c), Aggregate(Step(s, r).value, c))
  {
    var s' := Step(s, r).value;
    StepFiled(s, r);
    if s.statuses[c].objects.Some? {
      forall status { PositionsDecide(s, c, status); }
      forall status { PositionsDecide(s', c, status); }
      var before := Aggregate(s, c);
      if before == Error || before == Fail {
        KnownPositionStays(s, r, c, before);
      } else if before == Pass {
        NoUnknownNoChange(s, r, c);
      }
    }
  }

  /** Over every run the aggregate moves only from unknown to a result or from failure to error, so a
      pass and an error are final. */
  lemma {:induction false} AggregateOverRun(s: Snapshot, rs: seq<Report>, c: ConfigAddr)
    requires Filed(s) && Run(s, rs).Some? && c in s.statuses
    ensures Filed(Run(s, rs).value) && c in Run(s, rs).value.statuses
    ensures MayBecome(Aggregate(s, c), Aggregate(Run(s, rs).value, c))
  {
    if rs != [] {
      var init := rs[..|rs| - 1];
      AggregateOverRun(s, init, c);
      StepFiled(Run(s, init).value, rs[|rs| - 1]);
      AggregateStep(Run(s, init).value, rs[|rs| - 1], c);
    }
  }

  // ---------------------------------------------------------------- failure messages

  /** Messages belong only to checks that have failed. */
  predicate MessagesOfFailures(s: Snapshot) {
    forall rule | rule in s.failureMsgs :: StatusAt(s, rule) == Some(Fail)
  }

  lemma {:induction false} MessagesOverRun(s: Snapshot, rs: seq<Report>)
    requires MessagesOfFailures(s) && Run(s, rs).Some?
    ensures MessagesOfFailures(Run(s, rs).value)
  {
    if rs != [] {
      var init, r := rs[..|rs| - 1], rs[|rs| - 1];
      MessagesOverRun(s, init);
      StepMessages(Run(s, init).value, r);
    }
  }

  lemma StepMessages(s: Snapshot, r: Report)
    requires MessagesOfFailures(s) && Step(s, r).Some?
    ensures MessagesOfFailures(Step(s, r).value)
  {
    forall rule | rule in Step(s, r).value.failureMsgs ensures StatusAt(Step(s, r).value, rule) == Some(Fail) {
      StepStatus(s, r, rule);
    }
  }

  /** The checks of object `o`, among those in `rules`, that failed with the given message. */
  ghost function FailedWith(
      msgs: map<CheckRule, string>, o: Checkable, message: string, rules: set<CheckRule>): set<CheckRule> {
    set rule | rule in rules && rule in msgs && rule.container == o && msgs[rule] == message
  }

  /** After any run, the checks of an object that failed with a message are those reported so. */
  lemma MessagesAreReports(expected: map<ConfigAddr, Expected>, rs: seq<Report>, o: Checkable, message: string)
    requires Run(Initial(expected), rs).Some?
    ensures var msgs := Run(Initial(expected), rs).value.failureMsgs;
            forall rule :: rule in FailedWith(msgs, o, message, msgs.Keys) <==>
                           rule.container == o && Failure(rule, message) in rs
  {
    RunMeaning(expected, rs);
  }

  predicate SortedTexts(s: seq<string>) {
    forall i, j | 0 <= i < j < |s| :: !TextLess(s[j], s[i])
  }

  /** The list holds each non-empty message once per check of `o` among `rules` that reported it. */
  ghost predicate Lists(ret: seq<string>, msgs: map<CheckRule, string>, o: Checkable, rules: set<CheckRule>) {
    "" !in ret && forall m | m != "" :: multiset(ret)[m] == |FailedWith(msgs, o, m, rules)|
  }

  /** Puts a text into a sorted list, before the first greater one. */
  function Insert(x: string, s: seq<string>): seq<string> {
    if s == [] then [x] else if TextLess(s[0], x) then [s[0]] + Insert(x, s[1..]) else [x] + s
  }

  function Sort(s: seq<string>): seq<string> {
    if s == [] then [] else Insert(s[0], Sort(s[1..]))
  }

  lemma {:induction false} InsertMembers(x: string, s: seq<string>)
    ensures multiset(Insert(x, s)) == multiset([x]) + multiset(s)
  {
    if s != [] && TextLess(s[0], x) {
      InsertMembers(x, s[1..]);
      assert s == [s[0]] + s[1..];
    }
  }

  /** No element of `s` comes before `x`. */
  predicate NoneBefore(x: string, s: seq<string>) {
    forall j | 0 <= j < |s| :: !TextLess(s[j], x)
  }

  lemma SortedCons(x: string, s: seq<string>)
    requires SortedTexts(s) && NoneBefore(x, s)
    ensures SortedTexts([x] + s)
  {
  }

  lemma InsertNoneBefore(y: string, x: string, s: seq<string>)
    requires NoneBefore(y, s) && !TextLess(x, y)
    ensures NoneBefore(y, Insert(x, s))
  {
  }

  lemma {:induction false} InsertSorted(x: string, s: seq<string>)
    requires SortedTexts(s)
    ensures SortedTexts(Insert(x, s))
  {
    if s == [] {
    } else if TextLess(s[0], x) {
      InsertSorted(x, s[1..]);
      TextTotal(s[0], x);
      InsertNoneBefore(s[0], x, s[1..]);
      SortedCons(s[0], Insert(x, s[1..]));
    } else {
      forall j | 0 <= j < |s| ensures !TextLess(s[j], x) {
        if j > 0 {
          NotLessTransitive(x, s[0], s[j]);
        }
      }
      SortedCons(x, s);
    }
  }

  lemma NotLessTransitive(x: string, y: string, z: string)
    requires !TextLess(y, x) && !TextLess(z, y)
    ensures !TextLess(z, x)
  {
    TextTotal(x, y);
    TextTotal(y, z);
    if TextLess(x, y) && TextLess(y, z) {
      TextTransitive(x, y, z);
    }
    TextTotal(x, z);
  }

  lemma {:induction false} SortKeeps(s: seq<string>)
    ensures SortedTexts(Sort(s)) && multiset(Sort(s)) == multiset(s)
  {
    if s != [] {
      SortKeeps(s[1..]);
      InsertSorted(s[0], Sort(s[1..]));
      InsertMembers(s[0], Sort(s[1..]));
      assert s == [s[0]] + s[1..];
    }
  }
}
