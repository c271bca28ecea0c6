/** Queries for allow rules (tests/policy.py): the lazy query over unexpanded rules, which resolves
    the names of the query, against the query over rules whose attributes are expanded. */
module PolicyQuery {
  datatype Rule = Rule(sctx: string, tctx: string, tclass: string, perms: set<string>)

  /** The types, the attributes, and for each name the other map's names. */
  datatype TypeDb = TypeDb(types: set<string>, attributes: set<string>, typeAttrs: map<string, set<string>>,
                           attrTypes: map<string, set<string>>)

  /** The arguments of a query; an absent or empty argument matches everything. */
  datatype Query = Query(scontext: set<string>, tcontext: set<string>, tclass: set<string>, perms: set<string>)

  /** The two maps are dual, and the entry of a type in `type_attr_map` holds the type itself. */
  ghost predicate Dual(db: TypeDb) {
    && db.types !! db.attributes && db.typeAttrs.Keys == db.types && db.attrTypes.Keys == db.attributes
    && (forall t | t in db.types :: t in db.typeAttrs[t] && db.typeAttrs[t] <= db.attributes + {t})
    && (forall a | a in db.attributes :: db.attrTypes[a] <= db.types)
    && (forall t, a | t in db.types && a in db.attributes :: a in db.typeAttrs[t] <==> t in db.attrTypes[a])
  }

  /** The types that a name of a rule stands for. */
  ghost function Members(db: TypeDb, name: string): set<string>
    requires Dual(db)
  {
    if name in db.types then {name} else if name in db.attributes then db.attrTypes[name] else {}
  }

  ghost function MembersOfAll(db: TypeDb, names: set<string>): set<string>
    requires Dual(db)
  {
    set n, t | n in names && t in Members(db, n) :: t
  }

  // ---------------------------------------------------------------------------------------
  // Resolving a name

  /** `ResolveTypeAttribute`: the names in rules that touch a member of this type or attribute. */
  method ResolveTypeAttribute(db: TypeDb, name: string) returns (r: set<string>)
    requires Dual(db)
    ensures forall n :: n in r <==> n in db.types + db.attributes && Members(db, n) * Members(db, name) != {}
  {
    if name in db.types {
      ResolvesType(db, name);
      return db.typeAttrs[name];
    } else if name in db.attributes {
      r := WithAttributes(db, db.attrTypes[name]);
      ResolvesAttribute(db, name);
    } else {
      r := {};
      assert forall n :: Members(db, n) * {} == {};
    }
  }

  /** The loop over the types of an attribute. */
  method WithAttributes(db: TypeDb, types: set<string>) returns (r: set<string>)
    requires Dual(db) && types <= db.types
    ensures r == types + AttrsOf(db, types)
  {
    hide AttrsOf, Dual;
    r := types;
    var todo := types;
    AttrsOfNone(db);
    assert types - todo == {};
    while todo != {}
      invariant todo <= types && r == types + AttrsOf(db, types - todo)
      decreases |todo|
    {
      var t :| t in todo;
      HasAttrs(db, t);
      ghost var done := types - todo;
      AttrsOfNext(db, done, t);
      assert types - (todo - {t}) == done + {t};
      r := r + db.typeAttrs[t];
      assert r == types + (AttrsOf(db, done) + db.typeAttrs[t]);
      todo := todo - {t};
    }
    assert types - {} == types;
  }

  lemma HasAttrs(db: TypeDb, t: string)
    requires Dual(db) && t in db.types
    ensures t in db.typeAttrs
  {
    assert t in db.typeAttrs.Keys;
  }

  lemma AttrsOfNone(db: TypeDb)
    requires Dual(db)
    ensures AttrsOf(db, {}) == {}
  {
  }

  ghost function AttrsOf(db: TypeDb, types: set<string>): set<string>
    requires Dual(db)
  {
    set t, n | t in types && t in db.types && n in db.typeAttrs[t] :: n
  }

  lemma AttrsOfNext(db: TypeDb, types: set<string>, t: string)
    requires Dual(db) && t in db.types
    ensures AttrsOf(db, types + {t}) == AttrsOf(db, types) + db.typeAttrs[t]
  {
  }

  lemma Touches(db: TypeDb, n: string, t: string)
    requires Dual(db) && t in db.types
    ensures n in db.typeAttrs[t] <==> n in db.types + db.attributes && t in Members(db, n)
  {
  }

  lemma ResolvesType(db: TypeDb, name: string)
    requires Dual(db) && name in db.types
    ensures forall n :: n in db.typeAttrs[name] <==> n in db.types + db.attributes && Members(db, n) * Members(db, name) != {}
  {
    assert Members(db, name) == {name};
    forall n ensures n in db.typeAttrs[name] <==> n in db.types + db.attributes && Members(db, n) * {name} != {} {
      Touches(db, n, name);
      assert name in Members(db, n) <==> Members(db, n) * {name} == {name};
      assert name !in Members(db, n) <==> Members(db, n) * {name} == {};
    }
  }

  lemma ResolvesAttribute(db: TypeDb, name: string)
    requires Dual(db) && name in db.attributes
    ensures forall n :: n in db.attrTypes[name] + AttrsOf(db, db.attrTypes[name]) <==>
      n in db.types + db.attributes && Members(db, n) * Members(db, name) != {}
  {
    var ms := Members(db, name);
    assert ms == db.attrTypes[name];
    forall n ensures n in ms + AttrsOf(db, ms) <==> n in db.types + db.attributes && Members(db, n) * ms != {} {
      if n in AttrsOf(db, ms) {
        var t :| t in ms && n in db.typeAttrs[t];
        Touches(db, n, t);
        assert t in Members(db, n) * ms;
      }
      if n in ms {
        assert n in Members(db, n) * ms;
      }
      if n in db.types + db.attributes && Members(db, n) * ms != {} {
        var t :| t in Members(db, n) * ms;
        Touches(db, n, t);
      }
    }
  }

  // ---------------------------------------------------------------------------------------
  // The two queries

  /** `__TERuleMatch` */
  predicate RuleMatches(r: Rule, q: Query) {
    if q.scontext != {} && r.sctx !in q.scontext then false
    else if q.tcontext != {} && r.tctx !in q.tcontext then false
    else if q.tclass != {} && {r.tclass} * q.tclass == {} then false
    else if q.perms != {} && r.perms * q.perms == {} then false
    else true
  }

  /** The expansion of a rule touches a member of each context of the query, and its class and its
      permissions are asked for. */
  ghost predicate Touched(db: TypeDb, r: Rule, q: Query)
    requires Dual(db)
  {
    && (q.scontext == {} || Members(db, r.sctx) * MembersOfAll(db, q.scontext) != {})
    && (q.tcontext == {} || Members(db, r.tctx) * MembersOfAll(db, q.tcontext) != {})
    && (q.tclass == {} || r.tclass in q.tclass) && (q.perms == {} || r.perms * q.perms != {})
  }

  method ResolveAll(db: TypeDb, names: set<string>) returns (r: set<string>)
    requires Dual(db)
    ensures forall n :: n in r <==> n in db.types + db.attributes && Members(db, n) * MembersOfAll(db, names) != {}
  {
    hide Dual, Members;
    r := {};
    var todo := names;
    NoMembers(db);
    while todo != {}
      invariant todo <= names
      invariant forall n :: n in r <==> n in db.types + db.attributes && Members(db, n) * MembersOfAll(db, names - todo) != {}
      decreases |todo|
    {
      var name :| name in todo;
      var more := ResolveTypeAttribute(db, name);
      MembersOfAllNext(db, names - todo, name);
      assert names - (todo - {name}) == names - todo + {name};
      MeetsUnion(db, MembersOfAll(db, names - todo), Members(db, name));
      r := r + more;
      todo := todo - {name};
    }
    assert names - todo == names;
  }

  lemma NoMembers(db: TypeDb)
    requires Dual(db)
    ensures forall names: set<string> :: MembersOfAll(db, names - names) == {}
  {
    forall names: set<string> ensures MembersOfAll(db, names - names) == {} {
      assert names - names == {};
    }
  }

  lemma MembersOfAllNext(db: TypeDb, names: set<string>, name: string)
    requires Dual(db)
    ensures MembersOfAll(db, names + {name}) == MembersOfAll(db, names) + Members(db, name)
  {
    hide Members, Dual;
  }

  lemma MeetsUnion(db: TypeDb, a: set<string>, b: set<string>)
    requires Dual(db)
    ensures forall n :: Members(db, n) * (a + b) != {} <==> Members(db, n) * a != {} || Members(db, n) * b != {}
  {
    hide Members, Dual;
    forall n ensures Members(db, n) * (a + b) == Members(db, n) * a + Members(db, n) * b {
    }
  }

  /** What a context of a query becomes. */
  ghost predicate Resolved(db: TypeDb, names: set<string>, r: set<string>)
    requires Dual(db)
  {
    if names == {} then r == {}
    else forall n :: n in r <==> n in db.types + db.attributes && Members(db, n) * MembersOfAll(db, names) != {}
  }

  lemma KnownNames(db: TypeDb, n: string)
    requires Dual(db)
    ensures n !in db.types + db.attributes ==> forall a :: Members(db, n) * a == {}
  {
  }

  lemma ResolvedMatches(db: TypeDb, r: Rule, q: Query, resolved: Query)
    requires Dual(db)
    requires Resolved(db, q.scontext, resolved.scontext) && Resolved(db, q.tcontext, resolved.tcontext)
    requires resolved.tclass == q.tclass && resolved.perms == q.perms
    ensures (q.scontext != {} ==> resolved.scontext != {}) && (q.tcontext != {} ==> resolved.tcontext != {}) ==>
      (RuleMatches(r, resolved) <==> Touched(db, r, q))
    ensures q.scontext != {} && resolved.scontext == {} ==> !Touched(db, r, q)
    ensures q.tcontext != {} && resolved.tcontext == {} ==> !Touched(db, r, q)
  {
    KnownNames(db, r.sctx);
    KnownNames(db, r.tctx);
    hide Dual, Members, MembersOfAll;
    assert {r.tclass} * q.tclass == if r.tclass in q.tclass then {r.tclass} else {};
  }

  /** `QueryTERule` once the rules are loaded: exactly those whose expansion touches what was asked for. */
  method FindRules(db: TypeDb, rules: set<Rule>, q: Query) returns (found: set<Rule>)
    requires Dual(db)
    ensures forall r :: r in found <==> r in rules && Touched(db, r, q)
  {
    hide Dual, Members, MembersOfAll, Touched, RuleMatches;
    var resolved := q;
    if q.scontext != {} {
      var scontext := ResolveAll(db, q.scontext);
      resolved := resolved.(scontext := scontext);
      if scontext == {} {
        forall r | r in rules ensures !Touched(db, r, q) {
          ResolvedMatches(db, r, q.(tcontext := {}), resolved.(tcontext := {}));
          TouchedForAny(db, r, q);
        }
        return {};
      }
    }
    if q.tcontext != {} {
      var tcontext := ResolveAll(db, q.tcontext);
      resolved := resolved.(tcontext := tcontext);
      if tcontext == {} {
        forall r | r in rules ensures !Touched(db, r, q) {
          ResolvedMatches(db, r, q, resolved);
        }
        return {};
      }
    }
    found := Yielded(rules, resolved);
    forall r | r in rules ensures RuleMatches(r, resolved) <==> Touched(db, r, q) {
      ResolvedMatches(db, r, q, resolved);
    }
  }

  lemma TouchedForAny(db: TypeDb, r: Rule, q: Query)
    requires Dual(db)
    ensures Touched(db, r, q) ==> Touched(db, r, q.(tcontext := {}))
  {
    hide Dual, Members, MembersOfAll;
  }

  /** The loop that yields the matching rules. */
  method Yielded(rules: set<Rule>, q: Query) returns (found: set<Rule>)
    ensures found == set r | r in rules && RuleMatches(r, q)
  {
    hide RuleMatches;
    found := {};
    var todo := rules;
    while todo != {}
      invariant todo <= rules && found == set r | r in rules - todo && RuleMatches(r, q)
      decreases |todo|
    {
      var rule :| rule in todo;
      if RuleMatches(rule, q) {
        found := found + {rule};
      }
      todo := todo - {rule};
    }
    assert rules - todo == rules;
  }

  /** The rule sets are attributes of the Python class, so all policies of a process share them. */
  class SharedRules {
    var rules: set<Rule>
    var expandedRules: set<Rule>

    constructor ()
      ensures rules == {} && expandedRules == {}
    {
      rules, expandedRules := {}, {};
    }
  }

  class Policy {
    const db: TypeDb
    const own: set<Rule>
    const ownExpanded: set<Rule>
    const shared: SharedRules

    /** `own` and `ownExpanded` are the rules of the loaded policy file, as they are and with attributes expanded. */
    constructor (db: TypeDb, own: set<Rule>, ownExpanded: set<Rule>, shared: SharedRules)
      ensures this.db == db && this.own == own && this.ownExpanded == ownExpanded && this.shared == shared
    {
      this.db, this.own, this.ownExpanded, this.shared := db, own, ownExpanded, shared;
    }

    /** `QueryTERule`, which loads the rules only if none are loaded yet. */
    method QueryTERule(q: Query) returns (found: set<Rule>)
      requires Dual(db)
      modifies shared`rules
      ensures shared.rules == if old(shared.rules) == {} then own else old(shared.rules)
      ensures forall r :: r in found <==> r in shared.rules && Touched(db, r, q)
    {
      if shared.rules == {} {
        shared.rules := own;
      }
      found := FindRules(db, shared.rules, q);
    }

    /** `QueryExpandedTERule`, which loads the expanded rules only if none are loaded yet. */
    method QueryExpandedTERule(q: Query) returns (found: set<Rule>)
      modifies shared`expandedRules
      ensures shared.expandedRules == if old(shared.expandedRules) == {} then ownExpanded else old(shared.expandedRules)
      ensures found == set r | r in shared.expandedRules && RuleMatches(r, q)
    {
      if shared.expandedRules == {} {
        shared.expandedRules := ownExpanded;
      }
      found := Yielded(shared.expandedRules, q);
    }
  }

  /** The first policy that is queried decides which rules every later policy is asked about, in each of the
      two ways of asking. */
  method QueryTwo(db1: TypeDb, own1: set<Rule>, expanded1: set<Rule>,
                  db2: TypeDb, own2: set<Rule>, expanded2: set<Rule>, q: Query)
    returns (found1: set<Rule>, found2: set<Rule>, matched1: set<Rule>, matched2: set<Rule>)
    requires Dual(db1) && Dual(db2)
    ensures forall r :: r in found1 <==> r in own1 && Touched(db1, r, q)
    ensures forall r :: r in found2 <==> r in (if own1 == {} then own2 else own1) && Touched(db2, r, q)
    ensures forall r :: r in matched1 <==> r in expanded1 && RuleMatches(r, q)
    ensures forall r :: r in matched2 <==> r in (if expanded1 == {} then expanded2 else expanded1) && RuleMatches(r, q)
  {
    var shared := new SharedRules();
    var first := new Policy(db1, own1, expanded1, shared);
    var second := new Policy(db2, own2, expanded2, shared);
    found1 := first.QueryTERule(q);
    found2 := second.QueryTERule(q);
    matched1 := first.QueryExpandedTERule(q);
    matched2 := second.QueryExpandedTERule(q);
  }

  /** What `expand_avtab` makes of a table: one rule per pair of types and class that some rule covers,
      with the permissions of all rules that cover it. */
  ghost predicate Covers(db: TypeDb, r: Rule, s: string, t: string, c: string)
    requires Dual(db)
  {
    s in Members(db, r.sctx) && t in Members(db, r.tctx) && r.tclass == c
  }

  ghost function PermsFor(db: TypeDb, rules: set<Rule>, s: string, t: string, c: string): set<string>
    requires Dual(db)
  {
    set r, p | r in rules && Covers(db, r, s, t, c) && p in r.perms :: p
  }

  ghost predicate IsExpansion(db: TypeDb, rules: set<Rule>, expanded: set<Rule>)
    requires Dual(db)
  {
    && (forall x | x in expanded :: x.perms == PermsFor(db, rules, x.sctx, x.tctx, x.tclass)
                                    && exists r :: r in rules && Covers(db, r, x.sctx, x.tctx, x.tclass))
    && forall r, s, t | r in rules && Covers(db, r, s, t, r.tclass) :: Rule(s, t, r.tclass, PermsFor(db, rules, s, t, r.tclass)) in expanded
  }

  /** The query with each context replaced by the types it stands for. */
  ghost function InTypes(db: TypeDb, q: Query): Query
    requires Dual(db)
  {
    q.(scontext := MembersOfAll(db, q.scontext), tcontext := MembersOfAll(db, q.tcontext))
  }

  /** The contexts that are asked for have members. */
  ghost predicate MembersAsked(db: TypeDb, q: Query)
    requires Dual(db)
  {
    (q.scontext != {} ==> MembersOfAll(db, q.scontext) != {}) && (q.tcontext != {} ==> MembersOfAll(db, q.tcontext) != {})
  }

  /** Both names of the rule stand for some type. */
  ghost predicate HasMembers(db: TypeDb, r: Rule)
    requires Dual(db)
  {
    Members(db, r.sctx) != {} && Members(db, r.tctx) != {}
  }

  lemma MembersOfNone(db: TypeDb)
    requires Dual(db)
    ensures MembersOfAll(db, {}) == {}
  {
  }

  lemma FoundLazilyIsExpanded(db: TypeDb, rules: set<Rule>, expanded: set<Rule>, q: Query, r: Rule)
    requires Dual(db) && IsExpansion(db, rules, expanded) && r in rules && Touched(db, r, q) && HasMembers(db, r)
    ensures MembersAsked(db, q) && exists x :: x in expanded && RuleMatches(x, InTypes(db, q))
  {
    hide Dual, Members, MembersOfAll;
    MembersOfNone(db);
    var ms, mt := Members(db, r.sctx), Members(db, r.tctx);
    var s :| s in if q.scontext == {} then ms else ms * MembersOfAll(db, q.scontext);
    var t :| t in if q.tcontext == {} then mt else mt * MembersOfAll(db, q.tcontext);
    var x := Rule(s, t, r.tclass, PermsFor(db, rules, s, t, r.tclass));
    assert Covers(db, r, s, t, r.tclass);
    assert x in expanded;
    assert r.perms * q.perms <= x.perms * q.perms;
    assert r.tclass in q.tclass ==> r.tclass in {x.tclass} * q.tclass;
  }

  lemma FoundExpandedIsLazy(db: TypeDb, rules: set<Rule>, expanded: set<Rule>, q: Query, x: Rule)
    requires Dual(db) && IsExpansion(db, rules, expanded) && MembersAsked(db, q) && x in expanded
    requires RuleMatches(x, InTypes(db, q))
    ensures exists r :: r in rules && Touched(db, r, q) && HasMembers(db, r)
  {
    hide Dual, Members, MembersOfAll;
    var r: Rule;
    if q.perms == {} {
      r :| r in rules && Covers(db, r, x.sctx, x.tctx, x.tclass);
    } else {
      var p :| p in x.perms * q.perms;
      r :| r in rules && Covers(db, r, x.sctx, x.tctx, x.tclass) && p in r.perms;
      assert p in r.perms * q.perms;
    }
    assert q.scontext != {} ==> x.sctx in Members(db, r.sctx) * MembersOfAll(db, q.scontext);
    assert q.tcontext != {} ==> x.tctx in Members(db, r.tctx) * MembersOfAll(db, q.tcontext);
    assert {x.tclass} * q.tclass != {} ==> x.tclass in q.tclass;
    assert Touched(db, r, q) && HasMembers(db, r);
  }

  /** The lazy query finds a rule with members exactly if the contexts that are asked for have members and
      the expanded query, asked for the types that they stand for, finds one. */
  lemma LazyAgreesWithExpanded(db: TypeDb, rules: set<Rule>, expanded: set<Rule>, q: Query)
    requires Dual(db) && IsExpansion(db, rules, expanded)
    ensures (exists r :: r in rules && Touched(db, r, q) && HasMembers(db, r))
      <==> MembersAsked(db, q) && exists x :: x in expanded && RuleMatches(x, InTypes(db, q))
  {
    hide Dual, IsExpansion, MembersAsked, HasMembers, Touched, RuleMatches, InTypes;
    if r :| r in rules && Touched(db, r, q) && HasMembers(db, r) {
      FoundLazilyIsExpanded(db, rules, expanded, q, r);
    }
    if MembersAsked(db, q) {
      if x :| x in expanded && RuleMatches(x, InTypes(db, q)) {
        FoundExpandedIsLazy(db, rules, expanded, q, x);
      }
    }
  }

  /** A context that is asked for and has no members: the lazy query finds nothing, while the expanded one,
      asked for no types, takes every source, or target. A rule that is found lazily without having members
      itself is one whose memberless name stands where no context is asked for. */
  lemma WhereTheyDiffer(db: TypeDb, q: Query, r: Rule)
    requires Dual(db)
    ensures !MembersAsked(db, q) ==> !Touched(db, r, q)
    ensures q.scontext != {} && MembersOfAll(db, q.scontext) == {} ==>
      (RuleMatches(r, InTypes(db, q)) <==> RuleMatches(r, InTypes(db, q.(scontext := {}))))
    ensures q.tcontext != {} && MembersOfAll(db, q.tcontext) == {} ==>
      (RuleMatches(r, InTypes(db, q)) <==> RuleMatches(r, InTypes(db, q.(tcontext := {}))))
    ensures Touched(db, r, q) && !HasMembers(db, r) ==>
      (q.scontext == {} && Members(db, r.sctx) == {}) || (q.tcontext == {} && Members(db, r.tctx) == {})
  {
    hide Dual, Members, MembersOfAll;
    MembersOfNone(db);
    assert forall a: set<string> :: a * {} == {} && {} * a == {};
  }

  lemma TypesAreMembers(db: TypeDb, names: set<string>)
    requires Dual(db) && names <= db.types
    ensures MembersOfAll(db, names) == names
  {
    assert forall n | n in names :: n in Members(db, n);
  }

  lemma ExpandedNamesAreTypes(db: TypeDb, rules: set<Rule>, expanded: set<Rule>)
    requires Dual(db) && IsExpansion(db, rules, expanded)
    ensures forall x | x in expanded :: x.sctx in db.types && x.sctx !in db.attributes
  {
    forall x | x in expanded ensures x.sctx in db.types && x.sctx !in db.attributes {
      var r :| r in rules && Covers(db, r, x.sctx, x.tctx, x.tclass);
    }
  }

  /** For contexts that are types, both queries can be asked the same thing; an attribute finds nothing
      in the expanded rules. */
  lemma TypesStandForThemselves(db: TypeDb, rules: set<Rule>, expanded: set<Rule>, q: Query)
    requires Dual(db) && IsExpansion(db, rules, expanded)
    ensures q.scontext <= db.types && q.tcontext <= db.types ==> InTypes(db, q) == q
    ensures q.scontext != {} && q.scontext <= db.attributes ==> forall x | x in expanded :: !RuleMatches(x, q)
  {
    if q.scontext <= db.types && q.tcontext <= db.types {
      TypesAreMembers(db, q.scontext);
      TypesAreMembers(db, q.tcontext);
    }
    hide Members, MembersOfAll;
    ExpandedNamesAreTypes(db, rules, expanded);
  }
}
