/**
 Rule import of Security-55471/authd (authdb.c, rule.c): a rule is stored only when
 the rules it delegates to are, and the rest waits for the next pass. Stored rules
 are a map from name to row, so a name stands for the row's id; the commits that
 the database refuses for reasons of its own are a parameter.
 */
module RuleImport {

  type Name = string

  datatype Row = Row(version: int, delegates: seq<Name>)

  type Db = map<Name, Row>

  datatype RuleType = RightType | RuleType

  /** A rule read from the property list; `stored` is whether its name was in the database then. */
  datatype Rule = Rule(ruleType: RuleType, name: Name, version: int, delegates: seq<Name>, stored: bool)

  // ----- the delegation map -----

  ghost predicate Closed(db: Db) {
    forall n, d :: n in db && d in db[n].delegates ==> d in db
  }

  /** `rank` decreases along every delegation. */
  ghost predicate Ranked(db: Db, rank: Name -> nat) {
    forall n, d :: n in db && d in db[n].delegates ==> rank(d) < rank(n)
  }

  ghost predicate Acyclic(db: Db) {
    exists rank: Name -> nat :: Ranked(db, rank)
  }

  datatype Tree = Node(name: Name, children: seq<Tree>)

  /** _get_sql_delegates: the recursive fetch ends because ranks decrease. */
  ghost function Fetch(db: Db, rank: Name -> nat, n: Name): Tree
    requires Closed(db) && Ranked(db, rank) && n in db
    decreases rank(n)
  {
    var ds := db[n].delegates;
    Node(n, seq(|ds|, i requires 0 <= i < |ds| => Fetch(db, rank, ds[i])))
  }

  /** The children of a fetched rule are its delegates, in the stored order. */
  lemma FetchChildren(db: Db, rank: Name -> nat, n: Name)
    requires Closed(db) && Ranked(db, rank) && n in db
    ensures var t, ds := Fetch(db, rank, n), db[n].delegates;
            t.name == n && |t.children| == |ds| && forall i :: 0 <= i < |ds| ==> t.children[i].name == ds[i]
  {
    var ds := db[n].delegates;
    forall i | 0 <= i < |ds|
      ensures Fetch(db, rank, ds[i]).name == ds[i] && Fetch(db, rank, n).children[i] == Fetch(db, rank, ds[i])
    {
    }
  }

  /** What is fetched does not depend on the ranking that shows that fetching ends. */
  lemma {:induction false} FetchSame(db: Db, rank: Name -> nat, rank': Name -> nat, n: Name)
    requires Closed(db) && Ranked(db, rank) && Ranked(db, rank') && n in db
    ensures Fetch(db, rank, n) == Fetch(db, rank', n)
    decreases rank(n)
  {
    var ds := db[n].delegates;
    forall i | 0 <= i < |ds|
      ensures Fetch(db, rank, ds[i]) == Fetch(db, rank', ds[i])
    {
      FetchSame(db, rank, rank', ds[i]);
    }
    assert seq(|ds|, i requires 0 <= i < |ds| => Fetch(db, rank, ds[i]))
        == seq(|ds|, i requires 0 <= i < |ds| => Fetch(db, rank', ds[i]));
  }

  // ----- when a commit keeps the map acyclic -----

  /** A chain of delegations from `a` to `b`. */
  ghost predicate Path(db: Db, p: seq<Name>, a: Name, b: Name) {
    && p != [] && p[0] == a && p[|p| - 1] == b
    && forall i :: 0 <= i < |p| - 1 ==> p[i] in db && p[i + 1] in db[p[i]].delegates
  }

  ghost predicate Reaches(db: Db, a: Name, b: Name) {
    exists p :: Path(db, p, a, b)
  }

  ghost function MaxRank(rank: Name -> nat, names: seq<Name>): (r: nat)
    ensures forall n :: n in names ==> rank(n) <= r
  {
    if names == [] then 0
    else
      var r := MaxRank(rank, names[1..]);
      if rank(names[0]) > r then rank(names[0]) else r
  }

  lemma {:induction false} PathDescends(db: Db, rank: Name -> nat, n: Name, row: Row, p: seq<Name>, a: Name)
    requires Ranked(db[n := row], rank) && Path(db, p, a, n)
    ensures rank(n) <= rank(a)
    decreases |p|
  {
    if a != n {
      assert p[0] in db && p[1] in db[p[0]].delegates;
      assert Path(db, p[1..], p[1], n);
      PathDescends(db, rank, n, row, p[1..], p[1]);
      assert p[1] in db[n := row][a].delegates;
    }
  }

  lemma ReachesBack(db: Db, x: Name, y: Name, n: Name)
    requires x in db && y in db[x].delegates && Reaches(db, y, n)
    ensures Reaches(db, x, n)
  {
    var p :| Path(db, p, y, n);
    var q := [x] + p;
    forall i | 0 <= i < |q| - 1
      ensures q[i] in db && q[i + 1] in db[q[i]].delegates
    {
      assert i > 0 ==> q[i] == p[i - 1] && q[i + 1] == p[i];
    }
    assert Path(db, q, x, n);
  }

  /**
   Storing a row, new or updated, keeps the map acyclic exactly when none of the
   row's delegates already leads to it.
   */
  lemma AcyclicExactly(db: Db, n: Name, row: Row)
    requires Acyclic(db)
    ensures Acyclic(db[n := row]) <==> forall d :: d in row.delegates ==> !Reaches(db, d, n)
  {
    var db' := db[n := row];
    if Acyclic(db') {
      var rank: Name -> nat :| Ranked(db', rank);
      forall d | d in row.delegates
        ensures !Reaches(db, d, n)
      {
        if Reaches(db, d, n) {
          var p :| Path(db, p, d, n);
          PathDescends(db, rank, n, row, p, d);
          assert false;
        }
      }
    }
    if forall d :: d in row.delegates ==> !Reaches(db, d, n) {
      var rank: Name -> nat :| Ranked(db, rank);
      var lift := MaxRank(rank, row.delegates) + 1;
      var rank': Name -> nat := (x: Name) => if Reaches(db, x, n) then rank(x) + lift else rank(x);
      assert Path(db, [n], n, n);
      forall x, y | x in db' && y in db'[x].delegates
        ensures rank'(y) < rank'(x)
      {
        if x == n {
          assert Reaches(db, n, n) && !Reaches(db, y, n);
        } else {
          assert rank(y) < rank(x);
          if Reaches(db, y, n) {
            ReachesBack(db, x, y, n);
          }
        }
      }
      assert Ranked(db', rank');
    }
  }

  /** A new name is not reached from a closed database. */
  lemma {:induction false} NewNotReached(db: Db, p: seq<Name>, a: Name, n: Name)
    requires Closed(db) && a in db && n !in db
    ensures !Path(db, p, a, n)
    decreases |p|
  {
    if Path(db, p, a, n) {
      assert p[0] in db && p[1] in db[p[0]].delegates;
      assert Path(db, p[1..], p[1], n);
      NewNotReached(db, p[1..], p[1], n);
      assert false;
    }
  }

  /** Committing a new rule whose delegates are stored keeps the map closed and acyclic. */
  lemma NewRuleSafe(db: Db, n: Name, row: Row)
    requires Closed(db) && Acyclic(db) && n !in db
    requires forall d :: d in row.delegates ==> d in db
    ensures Closed(db[n := row]) && Acyclic(db[n := row])
  {
    forall d | d in row.delegates
      ensures !Reaches(db, d, n)
    {
      forall p
        ensures !Path(db, p, d, n)
      {
        NewNotReached(db, p, d, n);
      }
    }
    AcyclicExactly(db, n, row);
  }

  /** An update that is newer than the row and whose delegates are stored is committed and closes a cycle. */
  lemma UpdateCanCycle()
    ensures var db := map["a" := Row(0, ["b"]), "b" := Row(0, [])];
            var rule := Rule(RuleType.RuleType, "b", 1, ["a"], true);
            && Closed(db) && Acyclic(db) && !Skipped(db, rule, true) && Commits(db, rule, {})
            && !Acyclic(db["b" := RowOf(rule)])
  {
    var db: Db := map["a" := Row(0, ["b"]), "b" := Row(0, [])];
    var rank: Name -> nat := (x: Name) => if x == "a" then 1 else 0;
    assert Ranked(db, rank);
    var p := ["a", "b"];
    assert Path(db, p, "a", "b");
    assert Reaches(db, "a", "b");
    AcyclicExactly(db, "b", Row(1, ["a"]));
    assert "a" in Row(1, ["a"]).delegates;
  }

  // ----- importing -----

  predicate DelegatesStored(db: Db, rule: Rule) {
    forall d :: d in rule.delegates ==> d in db
  }

  function RowOf(rule: Rule): Row {
    Row(rule.version, rule.delegates)
  }

  /** The version of a freshly fetched rule, 0 when there is none. */
  function Version(db: Db, n: Name): int {
    if n in db then db[n].version else 0
  }

  /** With the version check, a rule already stored is left alone unless this one is newer. */
  predicate Skipped(db: Db, rule: Rule, versionCheck: bool) {
    versionCheck && rule.stored && rule.version <= Version(db, rule.name)
  }

  /** rule_sql_commit: refused for missing delegates, for a name taken meanwhile, or by the database. */
  predicate Commits(db: Db, rule: Rule, refused: set<Name>) {
    DelegatesStored(db, rule) && (rule.stored || rule.name !in db) && rule.name !in refused
  }

  datatype Outcome = Outcome(db: Db, rest: seq<Rule>)

  /** One pass over the rules, in order: the database after it and what is still to be stored. */
  function Pass(db: Db, rules: seq<Rule>, versionCheck: bool, refused: set<Name>): Outcome {
    if rules == [] then Outcome(db, [])
    else
      var o := Pass(db, rules[..|rules| - 1], versionCheck, refused);
      var rule := rules[|rules| - 1];
      if Skipped(o.db, rule, versionCheck) then o
      else if Commits(o.db, rule, refused) then Outcome(o.db[rule.name := RowOf(rule)], o.rest)
      else Outcome(o.db, o.rest + [rule])
  }

  function Passes(db: Db, rules: seq<Rule>, versionCheck: bool, refused: set<Name>, p: nat): Outcome {
    if p == 0 then Outcome(db, rules)
    else
      var o := Passes(db, rules, versionCheck, refused, p - 1);
      Pass(o.db, o.rest, versionCheck, refused)
  }

  /** Up to three passes over the rules, then one over the rights; `rest` are the rights not stored. */
  function Import(db: Db, rules: seq<Rule>, rights: seq<Rule>, versionCheck: bool, refused: set<Name>): Outcome {
    Pass(Passes(db, rules, versionCheck, refused, 3).db, rights, versionCheck, refused)
  }

  // ----- what every import keeps -----

  ghost function NamesOf(rules: seq<Rule>): set<Name> {
    set r | r in rules :: r.name
  }

  /** No stored rule is lost, and none is replaced by one of the same or a lower version. */
  ghost predicate Newer(db: Db, db': Db) {
    forall n :: n in db ==> n in db' && (db'[n] == db[n] || db'[n].version > db[n].version)
  }

  /** Updates included, a pass keeps the map closed; with the version check it only replaces rows by newer ones. */
  lemma {:induction false} PassKeeps(db: Db, rules: seq<Rule>, versionCheck: bool, refused: set<Name>)
    requires Closed(db)
    ensures var o := Pass(db, rules, versionCheck, refused);
            && Closed(o.db)
            && db.Keys <= o.db.Keys <= db.Keys + NamesOf(rules)
            && (versionCheck ==> Newer(db, o.db))
            && (forall r :: r in o.rest ==> r in rules)
  {
    if rules != [] {
      PassKeeps(db, rules[..|rules| - 1], versionCheck, refused);
    }
  }

  lemma {:induction false} PassesKeep(db: Db, rules: seq<Rule>, versionCheck: bool, refused: set<Name>, p: nat)
    requires Closed(db)
    ensures var o := Passes(db, rules, versionCheck, refused, p);
            && Closed(o.db)
            && db.Keys <= o.db.Keys <= db.Keys + NamesOf(rules)
            && (versionCheck ==> Newer(db, o.db))
            && (forall r :: r in o.rest ==> r in rules)
  {
    if p > 0 {
      PassesKeep(db, rules, versionCheck, refused, p - 1);
      var o := Passes(db, rules, versionCheck, refused, p - 1);
      PassKeeps(o.db, o.rest, versionCheck, refused);
    }
  }

  /** Import keeps the delegation map closed, and with the version check no row is ever replaced by an older one. */
  lemma ImportKeeps(db: Db, rules: seq<Rule>, rights: seq<Rule>, versionCheck: bool, refused: set<Name>)
    requires Closed(db)
    ensures var o := Import(db, rules, rights, versionCheck, refused);
            Closed(o.db) && db.Keys <= o.db.Keys && (versionCheck ==> Newer(db, o.db))
  {
    PassesKeep(db, rules, versionCheck, refused, 3);
    PassKeeps(Passes(db, rules, versionCheck, refused, 3).db, rights, versionCheck, refused);
  }

  // ----- importing new names -----

  /** Rules of new, pairwise distinct names. */
  predicate AllNew(db: Db, rules: seq<Rule>) {
    && (forall i :: 0 <= i < |rules| ==> rules[i].name !in db && !rules[i].stored)
    && (forall i, j :: 0 <= i < j < |rules| ==> rules[i].name != rules[j].name)
  }

  /** Nothing that was stored is lost or changed. */
  predicate Grows(db: Db, db': Db) {
    forall n :: n in db ==> n in db' && db'[n] == db[n]
  }

  /** What a pass over new names achieves: the rest is exactly what is not stored, and what could be stored is. */
  ghost predicate Achieves(db: Db, rules: seq<Rule>, refused: set<Name>, o: Outcome) {
    && Closed(o.db) && Acyclic(o.db) && Grows(db, o.db) && AllNew(o.db, o.rest)
    && o.db.Keys <= db.Keys + NamesOf(rules)
    && (forall r :: r in o.rest ==> r in rules)
    && (forall r :: r in rules ==> (r in o.rest <==> r.name !in o.db))
    && (forall r :: r in rules && DelegatesStored(db, r) && r.name !in refused ==> r.name in o.db)
  }

  /** Whatever the order of the rules and whatever the database refuses. */
  lemma {:induction false} PassNew(db: Db, rules: seq<Rule>, versionCheck: bool, refused: set<Name>)
    requires Closed(db) && Acyclic(db) && AllNew(db, rules)
    ensures Achieves(db, rules, refused, Pass(db, rules, versionCheck, refused))
  {
    if rules == [] {
      assert Pass(db, rules, versionCheck, refused) == Outcome(db, []);
      return;
    }
    hide *;
    var init, rule := rules[..|rules| - 1], rules[|rules| - 1];
    assert init + [rule] == rules;
    NewInit(db, init, rule);
    PassNew(db, init, versionCheck, refused);
    PassSnoc(db, init, rule, versionCheck, refused);
    PassStep(db, init, rule, refused, Pass(db, init, versionCheck, refused));
  }

  lemma NewInit(db: Db, init: seq<Rule>, rule: Rule)
    requires AllNew(db, init + [rule])
    ensures AllNew(db, init) && !rule.stored
  {
    var all := init + [rule];
    assert all[|init|] == rule;
    assert forall i :: 0 <= i < |init| ==> all[i] == init[i];
  }

  lemma PassSnoc(db: Db, init: seq<Rule>, rule: Rule, versionCheck: bool, refused: set<Name>)
    ensures var o := Pass(db, init, versionCheck, refused);
            Pass(db, init + [rule], versionCheck, refused) ==
              if versionCheck && rule.stored && rule.version <= Version(o.db, rule.name) then o
              else if Commits(o.db, rule, refused) then Outcome(o.db[rule.name := RowOf(rule)], o.rest)
              else Outcome(o.db, o.rest + [rule])
  {
    assert (init + [rule])[..|init|] == init;
  }

  lemma PassStep(db: Db, init: seq<Rule>, rule: Rule, refused: set<Name>, o: Outcome)
    requires AllNew(db, init + [rule]) && Achieves(db, init, refused, o)
    ensures Commits(o.db, rule, refused) ==>
              Achieves(db, init + [rule], refused, Outcome(o.db[rule.name := RowOf(rule)], o.rest))
    ensures !Commits(o.db, rule, refused) ==>
              Achieves(db, init + [rule], refused, Outcome(o.db, o.rest + [rule]))
  {
    var all := init + [rule];
    assert all[|init|] == rule;
    forall r | r in init
      ensures r.name != rule.name
    {
      var i :| 0 <= i < |init| && init[i] == r;
      assert all[i] == r;
    }
    assert rule.name !in o.db;
    assert forall r :: r in all <==> r in init || r == rule;
    assert NamesOf(all) == NamesOf(init) + {rule.name};
    if Commits(o.db, rule, refused) {
      NewRuleSafe(o.db, rule.name, RowOf(rule));
    }
  }

  /** The row of `rule` says what the rule says. */
  predicate RowMatches(db: Db, rule: Rule) {
    rule.name in db && db[rule.name].version == rule.version && db[rule.name].delegates == rule.delegates
  }

  /** Whatever a pass over new names stores, it stores as it is. */
  lemma {:induction false} PassRows(db: Db, rules: seq<Rule>, versionCheck: bool, refused: set<Name>, r: Rule)
    requires Closed(db) && AllNew(db, rules) && r in rules && r.name in Pass(db, rules, versionCheck, refused).db
    ensures RowMatches(Pass(db, rules, versionCheck, refused).db, r)
  {
    var init, rule := rules[..|rules| - 1], rules[|rules| - 1];
    assert rules == init + [rule];
    NewInit(db, init, rule);
    PassSnoc(db, init, rule, versionCheck, refused);
    PassKeeps(db, init, versionCheck, refused);
    NotInInit(db, init, rule);
    if r in init {
      OtherName(db, init, rule, r);
      PassRows(db, init, versionCheck, refused, r);
    }
    hide Pass, AllNew, Closed;
  }

  lemma NotInInit(db: Db, init: seq<Rule>, rule: Rule)
    requires AllNew(db, init + [rule])
    ensures rule.name !in db && rule.name !in NamesOf(init)
  {
    assert (init + [rule])[|init|] == rule;
    forall r | r in init
      ensures r.name != rule.name
    {
      OtherName(db, init, rule, r);
    }
  }

  lemma OtherName(db: Db, init: seq<Rule>, rule: Rule, r: Rule)
    requires AllNew(db, init + [rule]) && r in init
    ensures r.name != rule.name
  {
    var k :| 0 <= k < |init| && init[k] == r;
    assert (init + [rule])[k] == r && (init + [rule])[|init|] == rule;
  }

  /** Passes store every rule as it is. */
  lemma {:induction false} PassesRows(db: Db, rules: seq<Rule>, versionCheck: bool, refused: set<Name>, p: nat, r: Rule)
    requires Closed(db) && Acyclic(db) && AllNew(db, rules)
    requires r in rules && r.name in Passes(db, rules, versionCheck, refused, p).db
    ensures RowMatches(Passes(db, rules, versionCheck, refused, p).db, r)
  {
    hide *;
    OneOfAName(db, rules, r, r);
    PassesDef(db, rules, versionCheck, refused, p);
    if p > 0 {
      PassesLeft(db, rules, versionCheck, refused, p - 1, r);
      var o := Passes(db, rules, versionCheck, refused, p - 1);
      if r.name in o.db {
        PassesRows(db, rules, versionCheck, refused, p - 1, r);
      }
      RowsStep(o, versionCheck, refused, r);
    }
  }

  lemma PassesLeft(db: Db, rules: seq<Rule>, versionCheck: bool, refused: set<Name>, p: nat, r: Rule)
    requires Closed(db) && Acyclic(db) && AllNew(db, rules) && r in rules
    ensures var o := Passes(db, rules, versionCheck, refused, p);
            Closed(o.db) && Acyclic(o.db) && AllNew(o.db, o.rest) && (r in o.rest || r.name in o.db)
  {
    hide *;
    PassesNew(db, rules, versionCheck, refused, p);
  }

  lemma RowsStep(o: Outcome, versionCheck: bool, refused: set<Name>, r: Rule)
    requires Closed(o.db) && Acyclic(o.db) && AllNew(o.db, o.rest) && (r in o.rest || RowMatches(o.db, r))
    requires r.name in Pass(o.db, o.rest, versionCheck, refused).db
    ensures RowMatches(Pass(o.db, o.rest, versionCheck, refused).db, r)
  {
    hide *;
    if r in o.rest {
      PassRows(o.db, o.rest, versionCheck, refused, r);
    } else {
      PassNew(o.db, o.rest, versionCheck, refused);
      StillMatches(o.db, o.rest, refused, Pass(o.db, o.rest, versionCheck, refused), r);
    }
  }

  lemma StillMatches(db: Db, rules: seq<Rule>, refused: set<Name>, o: Outcome, r: Rule)
    requires RowMatches(db, r) && Achieves(db, rules, refused, o)
    ensures RowMatches(o.db, r)
  {
    hide Closed, Acyclic, AllNew;
  }

  /** After an import of new names the database holds each rule and right it holds as it was read. */
  lemma ImportRows(db: Db, rules: seq<Rule>, rights: seq<Rule>, versionCheck: bool, refused: set<Name>, r: Rule)
    requires Closed(db) && Acyclic(db) && AllNew(db, rules + rights) && r in rules + rights
    requires r.name in Import(db, rules, rights, versionCheck, refused).db
    ensures RowMatches(Import(db, rules, rights, versionCheck, refused).db, r)
  {
    RulesNew(db, rules, rights);
    PassesNew(db, rules, versionCheck, refused, 3);
    PassesKeep(db, rules, versionCheck, refused, 3);
    var mid := Passes(db, rules, versionCheck, refused, 3);
    StillNew(mid.db, db, rules, rights);
    PassNew(mid.db, rights, versionCheck, refused);
    PassKeeps(mid.db, rights, versionCheck, refused);
    hide Pass, Passes, Closed, Acyclic, AllNew;
    if r in rights {
      PassRows(mid.db, rights, versionCheck, refused, r);
    } else {
      assert r in rules;
      assert r.name in NamesOf(rules);
      RuleNotRight(db, rules, rights, r.name);
      PassesRows(db, rules, versionCheck, refused, 3, r);
      StillMatches(mid.db, rights, refused, Pass(mid.db, rights, versionCheck, refused), r);
    }
  }

  // ----- updates -----

  /** Names are pairwise distinct, as the keys of a dictionary are. */
  predicate DistinctNames(rules: seq<Rule>) {
    forall i, j :: 0 <= i < j < |rules| ==> rules[i].name != rules[j].name
  }

  /**
   A stored rule is replaced when the one read is newer, or versions are not checked, its
   delegates were stored at the start and the database does not refuse it. With the
   version check one that is not newer leaves the row as it is.
   */
  lemma {:induction false} PassUpdates(db: Db, rules: seq<Rule>, versionCheck: bool, refused: set<Name>, r: Rule)
    requires Closed(db) && DistinctNames(rules) && r in rules && r.stored && r.name in db
    ensures var o := Pass(db, rules, versionCheck, refused);
            && r.name in o.db
            && ((versionCheck ==> r.version > db[r.name].version) && DelegatesStored(db, r) && r.name !in refused ==>
                  RowMatches(o.db, r))
            && (versionCheck && r.version <= db[r.name].version ==> o.db[r.name] == db[r.name])
  {
    var init, rule := rules[..|rules| - 1], rules[|rules| - 1];
    assert rules == init + [rule];
    PassSnoc(db, init, rule, versionCheck, refused);
    PassKeeps(db, init, versionCheck, refused);
    if r in init {
      var k :| 0 <= k < |init| && init[k] == r;
      assert rules[k] == r && rules[k].name != rules[|rules| - 1].name;
      PassUpdates(db, init, versionCheck, refused, r);
    } else {
      Untouched(db, init, versionCheck, refused, r.name);
    }
    hide Pass, Closed;
  }

  /** A row whose name does not come stays as it is. */
  lemma {:induction false} Untouched(db: Db, rules: seq<Rule>, versionCheck: bool, refused: set<Name>, n: Name)
    requires n in db && forall i :: 0 <= i < |rules| ==> rules[i].name != n
    ensures var o := Pass(db, rules, versionCheck, refused);
            n in o.db && o.db[n] == db[n]
  {
    if rules != [] {
      Untouched(db, rules[..|rules| - 1], versionCheck, refused, n);
    }
  }

  lemma {:induction false} PassesNew(db: Db, rules: seq<Rule>, versionCheck: bool, refused: set<Name>, p: nat)
    requires Closed(db) && Acyclic(db) && AllNew(db, rules)
    ensures var o := Passes(db, rules, versionCheck, refused, p);
            && Closed(o.db) && Acyclic(o.db) && Grows(db, o.db) && AllNew(o.db, o.rest)
            && (forall r :: r in o.rest ==> r in rules)
            && (forall r :: r in rules ==> (r in o.rest <==> r.name !in o.db))
  {
    if p > 0 {
      PassesNew(db, rules, versionCheck, refused, p - 1);
      var o := Passes(db, rules, versionCheck, refused, p - 1);
      PassNew(o.db, o.rest, versionCheck, refused);
      hide Closed, Acyclic, AllNew;
    }
  }

  /** After `p` passes every rule of delegation depth below `p` is stored. */
  lemma {:induction false} PassesReach(db: Db, rules: seq<Rule>, versionCheck: bool, p: nat)
    requires Closed(db) && Acyclic(db) && AllNew(db, rules)
    ensures Level(db.Keys, rules, p) <= Passes(db, rules, versionCheck, {}, p).db.Keys
  {
    if p > 0 {
      PassesReach(db, rules, versionCheck, p - 1);
      PassesNew(db, rules, versionCheck, {}, p - 1);
      var o := Passes(db, rules, versionCheck, {}, p - 1);
      PassNew(o.db, o.rest, versionCheck, {});
      ReachStep(db.Keys, rules, p, o, Passes(db, rules, versionCheck, {}, p));
    }
  }

  lemma ReachStep(stored: set<Name>, rules: seq<Rule>, p: nat, o: Outcome, o': Outcome)
    requires p > 0 && Level(stored, rules, p - 1) <= o.db.Keys && Achieves(o.db, o.rest, {}, o')
    requires forall r :: r in rules ==> (r in o.rest <==> r.name !in o.db)
    ensures Level(stored, rules, p) <= o'.db.Keys
  {
    hide Closed, Acyclic, AllNew;
    forall r | r in rules && forall d :: d in r.delegates ==> d in Level(stored, rules, p - 1)
      ensures r.name in o'.db
    {
      assert DelegatesStored(o.db, r);
    }
  }

  /** Names of delegation depth below `p` over the names already stored. */
  ghost function Level(stored: set<Name>, rules: seq<Rule>, p: nat): set<Name> {
    if p == 0 then stored else NextLevel(Level(stored, rules, p - 1), rules)
  }

  /** Names in `s`, and of rules that delegate to names in `s` only. */
  ghost function NextLevel(s: set<Name>, rules: seq<Rule>): set<Name> {
    s + set r | r in rules && (forall d :: d in r.delegates ==> d in s) :: r.name
  }

  lemma StillNew(db: Db, before: Db, rules: seq<Rule>, rights: seq<Rule>)
    requires AllNew(before, rules + rights) && db.Keys <= before.Keys + NamesOf(rules)
    ensures AllNew(db, rights)
  {
    var all := rules + rights;
    forall j | 0 <= j < |rights|
      ensures rights[j].name !in db && !rights[j].stored
    {
      assert all[|rules| + j] == rights[j];
      forall r | r in rules
        ensures r.name != rights[j].name
      {
        var i :| 0 <= i < |rules| && rules[i] == r;
        assert all[i] == rules[i];
      }
    }
    forall i, j | 0 <= i < j < |rights|
      ensures rights[i].name != rights[j].name
    {
      assert all[|rules| + i] == rights[i] && all[|rules| + j] == rights[j];
    }
  }

  /**
   Importing new names keeps the map closed and acyclic and touches nothing stored.
   When no commit is refused, every rule of delegation depth at most 2 is stored, in
   whatever order they come, and so is every right that delegates to such rules only.
   */
  lemma ImportNew(db: Db, rules: seq<Rule>, rights: seq<Rule>, versionCheck: bool, refused: set<Name>)
    requires Closed(db) && Acyclic(db) && AllNew(db, rules + rights)
    ensures var o := Import(db, rules, rights, versionCheck, refused);
            var reached := Level(db.Keys, rules, 3);
            && Closed(o.db) && Acyclic(o.db) && Grows(db, o.db)
            && (forall r :: r in rights ==> (r in o.rest <==> r.name !in o.db))
            && (refused == {} ==> reached <= o.db.Keys)
            && (refused == {} && (forall r, d :: r in rights && d in r.delegates ==> d in reached) ==> o.rest == [])
  {
    assert forall i :: 0 <= i < |rules| ==> (rules + rights)[i] == rules[i];
    PassesNew(db, rules, versionCheck, refused, 3);
    PassesKeep(db, rules, versionCheck, refused, 3);
    if refused == {} {
      PassesReach(db, rules, versionCheck, 3);
    }
    var mid := Passes(db, rules, versionCheck, refused, 3);
    StillNew(mid.db, db, rules, rights);
    PassNew(mid.db, rights, versionCheck, refused);
    var o := Import(db, rules, rights, versionCheck, refused);
    if refused == {} && o.rest != [] {
      var r := o.rest[0];
      assert r in rights && !DelegatesStored(mid.db, r);
    }
  }

  // ----- exactly which rules are stored -----

  /** Once a name of `u` has come, only names of `u` come. */
  ghost predicate Ascending(u: set<Name>, rules: seq<Rule>) {
    forall i, j :: 0 <= i < j < |rules| && rules[i].name in u ==> rules[j].name in u
  }

  /** What a pass hands back is in the order it came in. */
  lemma {:induction false} PassAscending(db: Db, rules: seq<Rule>, versionCheck: bool, refused: set<Name>, u: set<Name>)
    requires Closed(db) && Ascending(u, rules)
    ensures Ascending(u, Pass(db, rules, versionCheck, refused).rest)
  {
    if rules != [] {
      var init, rule := rules[..|rules| - 1], rules[|rules| - 1];
      PassAscending(db, init, versionCheck, refused, u);
      PassKeeps(db, init, versionCheck, refused);
      assert init + [rule] == rules;
      PassSnoc(db, init, rule, versionCheck, refused);
      AscendingSnoc(u, Pass(db, init, versionCheck, refused).rest, init, rule);
    }
  }

  lemma AscendingSnoc(u: set<Name>, rest: seq<Rule>, init: seq<Rule>, rule: Rule)
    requires Ascending(u, rest) && Ascending(u, init + [rule]) && forall r :: r in rest ==> r in init
    ensures Ascending(u, rest + [rule])
  {
    forall i | 0 <= i < |rest| && rest[i].name in u
      ensures rule.name in u
    {
      assert rest[i] in init;
      var k :| 0 <= k < |init| && init[k] == rest[i];
      assert (init + [rule])[k] == init[k] && (init + [rule])[|init|] == rule;
    }
  }

  /**
   A pass that starts within `u`, over rules in such an order, ends within `u`: as soon
   as it stores something, all the rules still to come are in `u` anyway.
   */
  lemma {:induction false} PassWithin(db: Db, rules: seq<Rule>, versionCheck: bool, refused: set<Name>, u: set<Name>)
    requires Closed(db) && db.Keys <= u && Ascending(u, rules)
    requires forall r :: r in rules && DelegatesStored(db, r) ==> r.name in u
    ensures Pass(db, rules, versionCheck, refused).db.Keys <= u
  {
    if rules != [] {
      var init, rule := rules[..|rules| - 1], rules[|rules| - 1];
      assert init + [rule] == rules;
      PassWithin(db, init, versionCheck, refused, u);
      PassKeeps(db, init, versionCheck, refused);
      PassSnoc(db, init, rule, versionCheck, refused);
      WithinSnoc(db, Pass(db, init, versionCheck, refused).db, init, rule, refused, u);
      hide Pass;
    }
  }

  lemma WithinSnoc(db: Db, now: Db, init: seq<Rule>, rule: Rule, refused: set<Name>, u: set<Name>)
    requires db.Keys <= now.Keys <= db.Keys + NamesOf(init) && now.Keys <= u
    requires Ascending(u, init + [rule]) && (DelegatesStored(db, rule) ==> rule.name in u)
    ensures Commits(now, rule, refused) ==> rule.name in u
  {
    var all := init + [rule];
    assert all[|init|] == rule;
    if n :| n in now && n !in db {
      var r :| r in init && r.name == n;
      var k :| 0 <= k < |init| && init[k] == r;
      assert all[k] == r;
    }
  }

  /** Every level comes after what is not in it. */
  ghost predicate WorstOrder(stored: set<Name>, rules: seq<Rule>, order: seq<Rule>, p: nat) {
    forall q :: 1 <= q <= p ==> Ascending(Level(stored, rules, q), order)
  }

  lemma {:induction false} PassesAscending(db: Db, rules: seq<Rule>, versionCheck: bool, refused: set<Name>, p: nat, u: set<Name>)
    requires Closed(db) && Ascending(u, rules)
    ensures Ascending(u, Passes(db, rules, versionCheck, refused, p).rest)
  {
    if p > 0 {
      PassesAscending(db, rules, versionCheck, refused, p - 1, u);
      PassesKeep(db, rules, versionCheck, refused, p - 1);
      var o := Passes(db, rules, versionCheck, refused, p - 1);
      PassAscending(o.db, o.rest, versionCheck, refused, u);
      assert Passes(db, rules, versionCheck, refused, p) == Pass(o.db, o.rest, versionCheck, refused);
    }
    hide Pass, Ascending, Closed;
  }

  /** In that order `p` passes store nothing beyond level `p`. */
  lemma {:induction false} PassesWithin(db: Db, rules: seq<Rule>, versionCheck: bool, refused: set<Name>, p: nat)
    requires Closed(db) && WorstOrder(db.Keys, rules, rules, p)
    ensures Passes(db, rules, versionCheck, refused, p).db.Keys <= Level(db.Keys, rules, p)
  {
    hide *;
    LevelDef(db.Keys, rules, p);
    PassesDef(db, rules, versionCheck, refused, p);
    if p > 0 {
      var o, s, u := Passes(db, rules, versionCheck, refused, p - 1), Level(db.Keys, rules, p - 1), Level(db.Keys, rules, p);
      WorstBelow(db.Keys, rules, rules, p);
      PassesWithin(db, rules, versionCheck, refused, p - 1);
      PassesKeep(db, rules, versionCheck, refused, p - 1);
      PassesAscending(db, rules, versionCheck, refused, p - 1, u);
      NextLevelHas(s, rules, o);
      PassWithin(o.db, o.rest, versionCheck, refused, u);
    }
  }

  lemma PassesDef(db: Db, rules: seq<Rule>, versionCheck: bool, refused: set<Name>, p: nat)
    ensures p == 0 ==> Passes(db, rules, versionCheck, refused, p) == Outcome(db, rules)
    ensures p > 0 ==>
              var o := Passes(db, rules, versionCheck, refused, p - 1);
              Passes(db, rules, versionCheck, refused, p) == Pass(o.db, o.rest, versionCheck, refused)
  {
    hide Pass;
  }

  lemma WorstBelow(stored: set<Name>, rules: seq<Rule>, order: seq<Rule>, p: nat)
    requires p > 0 && WorstOrder(stored, rules, order, p)
    ensures WorstOrder(stored, rules, order, p - 1) && Ascending(Level(stored, rules, p), order)
  {
    hide Level, Ascending;
  }

  /** What can be stored next, with names of a level stored, is of the next level. */
  lemma NextLevelHas(s: set<Name>, rules: seq<Rule>, o: Outcome)
    requires o.db.Keys <= s && forall r :: r in o.rest ==> r in rules
    ensures o.db.Keys <= NextLevel(s, rules)
    ensures forall r :: r in o.rest && DelegatesStored(o.db, r) ==> r.name in NextLevel(s, rules)
  {
    forall r | r in o.rest && DelegatesStored(o.db, r)
      ensures r.name in NextLevel(s, rules)
    {
      assert r in rules && forall d :: d in r.delegates ==> d in s;
    }
  }

  /** The rules whose name is in `u`, or the others, in order. */
  ghost function Select(rules: seq<Rule>, u: set<Name>, inside: bool): seq<Rule> {
    if rules == [] then []
    else
      var rest := Select(rules[..|rules| - 1], u, inside);
      var rule := rules[|rules| - 1];
      if rule.name in u <==> inside then rest + [rule] else rest
  }

  lemma {:induction false} SelectMembers(rules: seq<Rule>, u: set<Name>, inside: bool, x: Rule)
    ensures x in Select(rules, u, inside) <==> x in rules && (x.name in u <==> inside)
  {
    if rules != [] {
      SelectMembers(rules[..|rules| - 1], u, inside, x);
      assert rules == rules[..|rules| - 1] + [rules[|rules| - 1]];
    }
  }

  lemma {:induction false} SelectNew(db: Db, rules: seq<Rule>, u: set<Name>, inside: bool)
    requires AllNew(db, rules)
    ensures AllNew(db, Select(rules, u, inside))
  {
    if rules != [] {
      var init, rule := rules[..|rules| - 1], rules[|rules| - 1];
      assert rules == init + [rule];
      NewInit(db, init, rule);
      SelectNew(db, init, u, inside);
      var rest := Select(init, u, inside);
      forall i | 0 <= i < |rest|
        ensures rest[i].name != rule.name
      {
        SelectMembers(init, u, inside, rest[i]);
        var k :| 0 <= k < |init| && init[k] == rest[i];
        assert rules[k] == init[k];
      }
    }
  }

  /** Level `p` last, within it level `p - 1` last, and so on. */
  ghost function Worst(stored: set<Name>, rules: seq<Rule>, part: seq<Rule>, p: nat): seq<Rule>
    decreases p
  {
    if p == 0 then part
    else
      var u := Level(stored, rules, p);
      Select(part, u, false) + Worst(stored, rules, Select(part, u, true), p - 1)
  }

  lemma WorstDef(stored: set<Name>, rules: seq<Rule>, part: seq<Rule>, p: nat)
    ensures p == 0 ==> Worst(stored, rules, part, p) == part
    ensures p > 0 ==>
              var u := Level(stored, rules, p);
              Worst(stored, rules, part, p) == Select(part, u, false) + Worst(stored, rules, Select(part, u, true), p - 1)
  {
    hide Level, Select;
  }

  lemma {:induction false} WorstMembers(stored: set<Name>, rules: seq<Rule>, part: seq<Rule>, p: nat, x: Rule)
    ensures x in Worst(stored, rules, part, p) <==> x in part
    decreases p
  {
    hide *;
    WorstDef(stored, rules, part, p);
    if p > 0 {
      var u := Level(stored, rules, p);
      SelectMembers(part, u, false, x);
      SelectMembers(part, u, true, x);
      WorstMembers(stored, rules, Select(part, u, true), p - 1, x);
    }
  }

  /** The two parts of an order, before and within a level. */
  lemma WorstParts(stored: set<Name>, rules: seq<Rule>, part: seq<Rule>, p: nat)
    requires p > 0
    ensures var u := Level(stored, rules, p);
            && (forall x :: x in Select(part, u, false) ==> x.name !in u)
            && (forall x :: x in Worst(stored, rules, Select(part, u, true), p - 1) ==> x.name in u)
  {
    hide *;
    var u := Level(stored, rules, p);
    forall x | x in Select(part, u, false)
      ensures x.name !in u
    {
      SelectMembers(part, u, false, x);
    }
    var inn := Select(part, u, true);
    forall x | x in Worst(stored, rules, inn, p - 1)
      ensures x.name in u
    {
      WorstMembers(stored, rules, inn, p - 1, x);
      SelectMembers(part, u, true, x);
    }
  }

  lemma {:induction false} WorstNew(db: Db, stored: set<Name>, rules: seq<Rule>, part: seq<Rule>, p: nat)
    requires AllNew(db, part)
    ensures AllNew(db, Worst(stored, rules, part, p))
    decreases p
  {
    hide *;
    WorstDef(stored, rules, part, p);
    if p > 0 {
      var u := Level(stored, rules, p);
      SelectNew(db, part, u, false);
      SelectNew(db, part, u, true);
      WorstNew(db, stored, rules, Select(part, u, true), p - 1);
      WorstParts(stored, rules, part, p);
      AppendNew(db, Select(part, u, false), Worst(stored, rules, Select(part, u, true), p - 1), u);
    }
  }

  lemma AppendNew(db: Db, out: seq<Rule>, low: seq<Rule>, u: set<Name>)
    requires AllNew(db, out) && AllNew(db, low)
    requires (forall x :: x in out ==> x.name !in u) && (forall x :: x in low ==> x.name in u)
    ensures AllNew(db, out + low)
  {
    var all := out + low;
    forall i | 0 <= i < |all|
      ensures all[i] == if i < |out| then out[i] else low[i - |out|]
    {
    }
  }

  lemma {:induction false} LevelGrows(stored: set<Name>, rules: seq<Rule>, p: nat, q: nat)
    requires p <= q
    ensures Level(stored, rules, p) <= Level(stored, rules, q)
    decreases q
  {
    if p < q {
      LevelGrows(stored, rules, p, q - 1);
    }
  }

  lemma {:induction false} WorstIsWorst(stored: set<Name>, rules: seq<Rule>, part: seq<Rule>, p: nat, q: nat)
    requires 1 <= q <= p
    ensures Ascending(Level(stored, rules, q), Worst(stored, rules, part, p))
    decreases p
  {
    hide *;
    var u, v := Level(stored, rules, p), Level(stored, rules, q);
    LevelGrows(stored, rules, q, p);
    var inn := Select(part, u, true);
    if q < p {
      WorstIsWorst(stored, rules, inn, p - 1, q);
    }
    WorstParts(stored, rules, part, p);
    AscendingAppend(v, Select(part, u, false), Worst(stored, rules, inn, p - 1));
    WorstDef(stored, rules, part, p);
  }

  lemma AscendingAppend(v: set<Name>, out: seq<Rule>, low: seq<Rule>)
    requires forall x :: x in out ==> x.name !in v
    requires Ascending(v, low) || forall x :: x in low ==> x.name in v
    ensures Ascending(v, out + low)
  {
    var all := out + low;
    assert forall i :: 0 <= i < |out| ==> all[i] == out[i];
    forall i, j | |out| <= i < j < |all| && all[i].name in v
      ensures all[j].name in v
    {
      assert all[i] == low[i - |out|] && all[j] == low[j - |out|];
    }
  }

  /** The same rules, each once, in some order. */
  ghost predicate SameRules(a: seq<Rule>, b: seq<Rule>) {
    forall r :: r in a <==> r in b
  }

  lemma {:induction false} LevelSame(stored: set<Name>, rules: seq<Rule>, order: seq<Rule>, p: nat)
    requires SameRules(order, rules)
    ensures Level(stored, order, p) == Level(stored, rules, p)
  {
    hide *;
    LevelDef(stored, rules, p);
    LevelDef(stored, order, p);
    if p > 0 {
      LevelSame(stored, rules, order, p - 1);
      NextSame(Level(stored, rules, p - 1), rules, order);
    }
  }

  lemma LevelDef(stored: set<Name>, rules: seq<Rule>, p: nat)
    ensures Level(stored, rules, p) == if p == 0 then stored else NextLevel(Level(stored, rules, p - 1), rules)
  {
    hide NextLevel;
  }

  lemma NextSame(s: set<Name>, rules: seq<Rule>, order: seq<Rule>)
    requires SameRules(order, rules)
    ensures NextLevel(s, order) == NextLevel(s, rules)
  {
  }

  /** Some order of the rules in which `p` passes store level `p` and nothing else. */
  lemma WorstOrderExists(db: Db, rules: seq<Rule>, versionCheck: bool, p: nat) returns (order: seq<Rule>)
    requires Closed(db) && Acyclic(db) && AllNew(db, rules)
    ensures SameRules(order, rules) && AllNew(db, order)
    ensures Passes(db, order, versionCheck, {}, p).db.Keys == Level(db.Keys, rules, p)
  {
    order := Worst(db.Keys, rules, rules, p);
    forall x
      ensures x in order <==> x in rules
    {
      WorstMembers(db.Keys, rules, rules, p, x);
    }
    WorstNew(db, db.Keys, rules, rules, p);
    forall q | 1 <= q <= p
      ensures Ascending(Level(db.Keys, order, q), order)
    {
      WorstIsWorst(db.Keys, rules, rules, p, q);
      LevelSame(db.Keys, rules, order, q);
    }
    LevelSame(db.Keys, rules, order, p);
    PassesWithin(db, order, versionCheck, {}, p);
    PassesReach(db, order, versionCheck, p);
  }

  /** After `p` passes a name is stored in whatever order the rules come exactly when it is in level `p`. */
  lemma StoredExactly(db: Db, rules: seq<Rule>, versionCheck: bool, p: nat, n: Name)
    requires Closed(db) && Acyclic(db) && AllNew(db, rules)
    ensures n in Level(db.Keys, rules, p) <==>
            forall order :: SameRules(order, rules) && AllNew(db, order) ==> n in Passes(db, order, versionCheck, {}, p).db
  {
    hide Level, Passes, AllNew, Closed, Acyclic;
    forall order | SameRules(order, rules) && AllNew(db, order)
      ensures Level(db.Keys, rules, p) <= Passes(db, order, versionCheck, {}, p).db.Keys
    {
      PassesReach(db, order, versionCheck, p);
      LevelSame(db.Keys, rules, order, p);
    }
    var worst := WorstOrderExists(db, rules, versionCheck, p);
  }

  // ----- when a successful import has stored the rules -----

  /** Names of `order` and `rights` are new and distinct when those of `rules` and `rights` are. */
  lemma ReorderNew(db: Db, rules: seq<Rule>, order: seq<Rule>, rights: seq<Rule>)
    requires AllNew(db, rules + rights) && SameRules(order, rules) && AllNew(db, order)
    ensures AllNew(db, order + rights)
  {
    var all, all' := rules + rights, order + rights;
    assert forall j :: 0 <= j < |rights| ==> all[|rules| + j] == rights[j];
    forall i, j | 0 <= i < |order| && 0 <= j < |rights|
      ensures order[i].name != rights[j].name
    {
      assert order[i] in rules;
      var k :| 0 <= k < |rules| && rules[k] == order[i];
      assert all[k] == rules[k] && all[|rules| + j] == rights[j];
    }
    forall j | 0 <= j < |rights|
      ensures rights[j].name !in db && !rights[j].stored
    {
      assert all[|rules| + j] == rights[j];
    }
    forall i, j | 0 <= i < j < |rights|
      ensures rights[i].name != rights[j].name
    {
      assert all[|rules| + i] == rights[i] && all[|rules| + j] == rights[j];
    }
    forall i | 0 <= i < |all'|
      ensures all'[i] == if i < |order| then order[i] else rights[i - |order|]
    {
    }
  }

  /** A rule is stored by the import, in whatever order the rules come, exactly when its delegation depth is at most 2. */
  lemma ImportStoresExactly(db: Db, rules: seq<Rule>, rights: seq<Rule>, versionCheck: bool, n: Name)
    requires Closed(db) && Acyclic(db) && AllNew(db, rules + rights) && n !in NamesOf(rights)
    ensures n in Level(db.Keys, rules, 3) <==>
            forall order :: SameRules(order, rules) && AllNew(db, order) ==> n in Import(db, order, rights, versionCheck, {}).db
  {
    RulesNew(db, rules, rights);
    StoredExactly(db, rules, versionCheck, 3, n);
    forall order | SameRules(order, rules) && AllNew(db, order)
      ensures n in Import(db, order, rights, versionCheck, {}).db <==> n in Passes(db, order, versionCheck, {}, 3).db
    {
      PassesKeep(db, order, versionCheck, {}, 3);
      PassKeeps(Passes(db, order, versionCheck, {}, 3).db, rights, versionCheck, {});
    }
    hide *;
  }

  lemma RulesNew(db: Db, rules: seq<Rule>, rights: seq<Rule>)
    requires AllNew(db, rules + rights)
    ensures AllNew(db, rules)
  {
    assert forall i :: 0 <= i < |rules| ==> (rules + rights)[i] == rules[i];
  }

  /**
   When the rights delegate to rules of depth at most 2 only, the import always reports
   success, and that means that all rules are stored, whatever their order, exactly
   when no rule is deeper than that.
   */
  lemma SuccessMeansStored(db: Db, rules: seq<Rule>, rights: seq<Rule>, versionCheck: bool)
    requires Closed(db) && Acyclic(db) && AllNew(db, rules + rights)
    requires forall r, d :: r in rights && d in r.delegates ==> d in Level(db.Keys, rules, 3)
    ensures forall order :: SameRules(order, rules) && AllNew(db, order) ==> Import(db, order, rights, versionCheck, {}).rest == []
    ensures NamesOf(rules) <= Level(db.Keys, rules, 3) <==>
            forall order :: SameRules(order, rules) && AllNew(db, order) ==> NamesOf(rules) <= Import(db, order, rights, versionCheck, {}).db.Keys
  {
    forall order | SameRules(order, rules) && AllNew(db, order)
      ensures Import(db, order, rights, versionCheck, {}).rest == []
      ensures Level(db.Keys, rules, 3) <= Import(db, order, rights, versionCheck, {}).db.Keys
    {
      ReorderNew(db, rules, order, rights);
      LevelSame(db.Keys, rules, order, 3);
      ImportNew(db, order, rights, versionCheck, {});
    }
    if n :| n in NamesOf(rules) && n !in Level(db.Keys, rules, 3) {
      RuleNotRight(db, rules, rights, n);
      ImportStoresExactly(db, rules, rights, versionCheck, n);
    }
  }

  lemma RuleNotRight(db: Db, rules: seq<Rule>, rights: seq<Rule>, n: Name)
    requires AllNew(db, rules + rights) && n in NamesOf(rules)
    ensures n !in NamesOf(rights)
  {
    var all := rules + rights;
    forall r | r in rights
      ensures r.name != n
    {
      var x :| x in rules && x.name == n;
      var i :| 0 <= i < |rules| && rules[i] == x;
      var j :| 0 <= j < |rights| && rights[j] == r;
      assert all[i] == x && all[|rules| + j] == r;
    }
  }

  /** A new rule that delegates to a name outside a level is outside the next one. */
  lemma {:induction false} LevelNeeds(db: Db, rules: seq<Rule>, r: Rule, n: Name, p: nat)
    requires AllNew(db, rules) && r in rules && n in r.delegates && n !in Level(db.Keys, rules, p)
    ensures r.name !in Level(db.Keys, rules, p + 1)
  {
    hide *;
    OneOfAName(db, rules, r, r);
    LevelDef(db.Keys, rules, p);
    LevelDef(db.Keys, rules, p + 1);
    if p > 0 {
      LevelGrows(db.Keys, rules, p - 1, p);
      LevelNeeds(db, rules, r, n, p - 1);
    }
    NextNeeds(db, rules, r, n, Level(db.Keys, rules, p));
  }

  lemma NextNeeds(db: Db, rules: seq<Rule>, r: Rule, n: Name, s: set<Name>)
    requires AllNew(db, rules) && r in rules && n in r.delegates && n !in s && r.name !in s
    ensures r.name !in NextLevel(s, rules)
  {
    forall x | x in rules && x.name == r.name
      ensures x == r
    {
      OneOfAName(db, rules, x, r);
    }
    hide AllNew;
  }

  lemma OneOfAName(db: Db, rules: seq<Rule>, x: Rule, y: Rule)
    requires AllNew(db, rules) && x in rules && y in rules && x.name == y.name
    ensures x == y && x.name !in db
  {
  }

  lemma ChainTooDeep(db: Db, d: Rule, c: Rule, b: Rule, a: Rule)
    requires AllNew(db, [d, c, b, a])
    requires c.name in d.delegates && b.name in c.delegates && a.name in b.delegates
    ensures d.name !in Level(db.Keys, [d, c, b, a], 3)
  {
    var rules := [d, c, b, a];
    OneOfAName(db, rules, a, a);
    assert Level(db.Keys, rules, 0) == db.Keys;
    hide *;
    LevelNeeds(db, rules, b, a.name, 0);
    LevelNeeds(db, rules, c, b.name, 1);
    LevelNeeds(db, rules, d, c.name, 2);
  }

  /** So four new rules, each delegating to the next, come in some order in which the first is lost, and success is reported. */
  lemma DepthThreeLost(db: Db, d: Rule, c: Rule, b: Rule, a: Rule, versionCheck: bool)
    requires Closed(db) && Acyclic(db) && AllNew(db, [d, c, b, a])
    requires c.name in d.delegates && b.name in c.delegates && a.name in b.delegates
    ensures exists order :: SameRules(order, [d, c, b, a]) && AllNew(db, order)
              && Import(db, order, [], versionCheck, {}).rest == [] && d.name !in Import(db, order, [], versionCheck, {}).db
  {
    var rules := [d, c, b, a];
    assert rules + [] == rules;
    ChainTooDeep(db, d, c, b, a);
    SuccessMeansStored(db, rules, [], versionCheck);
    ImportStoresExactly(db, rules, [], versionCheck, d.name);
  }

  /** With nothing left, further passes do nothing. */
  lemma {:induction false} PassesStay(db: Db, rules: seq<Rule>, versionCheck: bool, refused: set<Name>, p: nat, q: nat)
    requires p <= q && Passes(db, rules, versionCheck, refused, p).rest == []
    ensures Passes(db, rules, versionCheck, refused, q) == Passes(db, rules, versionCheck, refused, p)
  {
    if p < q {
      PassesStay(db, rules, versionCheck, refused, p, q - 1);
    }
  }

  // ----- the database being changed -----

  class AuthDb {
    var rows: Db

    constructor ()
      ensures rows == map[]
    {
      rows := map[];
    }

    method Commit(rule: Rule, refused: set<Name>) returns (ok: bool)
      modifies this
      ensures ok == Commits(old(rows), rule, refused)
      ensures ok <==> && (forall i :: 0 <= i < |rule.delegates| ==> rule.delegates[i] in old(rows))
                      && (rule.stored || rule.name !in old(rows)) && rule.name !in refused
      ensures rows == if ok then old(rows)[rule.name := RowOf(rule)] else old(rows)
      ensures ok ==> rows[rule.name].version == rule.version && rows[rule.name].delegates == rule.delegates
    {
      for i := 0 to |rule.delegates|
        invariant forall k :: 0 <= k < i ==> rule.delegates[k] in rows
        invariant rows == old(rows)
      {
        if rule.delegates[i] !in rows {
          return false;
        }
      }
      if (!rule.stored && rule.name in rows) || rule.name in refused {
        return false;
      }
      rows := rows[rule.name := RowOf(rule)];
      return true;
    }

    /** The wait for delegates: only rules check it before committing. */
    method Delayed(rule: Rule) returns (delay: bool)
      ensures delay == (rule.ruleType.RuleType? && !DelegatesStored(rows, rule))
    {
      if rule.ruleType.RuleType? {
        for i := 0 to |rule.delegates|
          invariant forall k :: 0 <= k < i ==> rule.delegates[k] in rows
        {
          if rule.delegates[i] !in rows {
            return true;
          }
        }
      }
      return false;
    }

    /** _import_rules: rules that are delayed or fail to commit are handed back, in order. */
    method ImportRules(rules: seq<Rule>, versionCheck: bool, refused: set<Name>) returns (rest: seq<Rule>)
      modifies this
      ensures Outcome(rows, rest) == Pass(old(rows), rules, versionCheck, refused)
    {
      rest := [];
      for i := 0 to |rules|
        invariant Outcome(rows, rest) == Pass(old(rows), rules[..i], versionCheck, refused)
      {
        var rule := rules[i];
        assert rules[..i + 1][..i] == rules[..i];
        if versionCheck && rule.stored && rule.version <= Version(rows, rule.name) {
          continue;
        }
        var delay := Delayed(rule);
        var ok := false;
        if !delay {
          ok := Commit(rule, refused);
        }
        if !ok {
          rest := rest + [rule];
        }
      }
      assert rules[..|rules|] == rules;
    }

    /** authdb_import_plist: the verdict is about the rights alone. */
    method ImportPlist(rules: seq<Rule>, rights: seq<Rule>, versionCheck: bool, refused: set<Name>)
      returns (result: bool)
      modifies this
      ensures rows == Import(old(rows), rules, rights, versionCheck, refused).db
      ensures result == (Import(old(rows), rules, rights, versionCheck, refused).rest == [])
    {
      var left := rules;
      var j := 0;
      while j < 3
        invariant 0 <= j <= 3
        invariant Outcome(rows, left) == Passes(old(rows), rules, versionCheck, refused, j)
      {
        if |left| == 0 {
          PassesStay(old(rows), rules, versionCheck, refused, j, 3);
          break;
        }
        left := ImportRules(left, versionCheck, refused);
        j := j + 1;
      }
      assert Outcome(rows, left) == Passes(old(rows), rules, versionCheck, refused, 3);
      var rest := ImportRules(rights, versionCheck, refused);
      result := |rest| == 0;
    }
  }
}
