/** Evaluation of parsed robots.txt groups, compared with RFC 9309. */
module ScrapeRobots {
  import opened Prelude
  import opened Strings

  datatype Rule = Rule(userAgent: string, allow: seq<string>, disallow: seq<string>)

  /** Whether a pattern matches the path at hand, and lower-casing: any functions. */
  datatype Matcher = Matcher(matches: string -> bool, lower: string -> string)

  predicate Applies(m: Matcher, r: Rule) {
    r.userAgent == "*" || Contains(m.lower(r.userAgent), "ampy")
  }

  function Applicable(m: Matcher, rules: seq<Rule>): (rs: seq<Rule>)
    ensures forall r :: r in rs <==> r in rules && Applies(m, r)
  {
    if rules == [] then []
    else
      var before, last := Applicable(m, rules[..|rules| - 1]), rules[|rules| - 1];
      if Applies(m, last) then before + [last] else before
  }

  /** Every matching disallow is beaten by a strictly longer matching allow of the same group. */
  ghost predicate GroupAllows(m: Matcher, r: Rule) {
    forall d :: d in r.disallow && m.matches(d) ==> Overridden(m, r, d)
  }

  ghost predicate Overridden(m: Matcher, r: Rule, d: string) {
    exists a :: a in r.allow && m.matches(a) && |a| > |d|
  }

  ghost predicate Allowed(m: Matcher, rules: seq<Rule>) {
    forall r :: r in rules && Applies(m, r) ==> GroupAllows(m, r)
  }

  /** isPathAllowed: pick the applicable groups (falling back to wildcard groups, of which there are
      then none), and refuse as soon as one disallow is not overridden within its group. */
  method IsPathAllowed(m: Matcher, rules: seq<Rule>) returns (ok: bool)
    ensures ok <==> Allowed(m, rules)
    ensures ok <==> forall r, d :: r in rules && d in r.disallow && m.matches(d)
                                   && (r.userAgent == "*" || Contains(m.lower(r.userAgent), "ampy")) ==>
                      exists a :: a in r.allow && m.matches(a) && |a| > |d|
  {
    var applicable := [];
    for i := 0 to |rules|
      invariant applicable == Applicable(m, rules[..i])
    {
      assert rules[..i + 1][..i] == rules[..i];
      if rules[i].userAgent == "*" || Contains(m.lower(rules[i].userAgent), "ampy") {
        applicable := applicable + [rules[i]];
      }
    }
    assert rules[..|rules|] == rules;
    if |applicable| == 0 {
      applicable := Wildcards(rules);
      assert |applicable| > 0 ==> applicable[0] in Applicable(m, rules);
    }
    if |applicable| == 0 {
      return true;
    }
    for i := 0 to |applicable|
      invariant forall k :: 0 <= k < i ==> GroupAllows(m, applicable[k])
    {
      var groupOk := CheckGroup(m, applicable[i]);
      if !groupOk {
        return false;
      }
    }
    ok := true;
  }

  method Wildcards(rules: seq<Rule>) returns (rs: seq<Rule>)
    ensures forall r :: r in rs <==> r in rules && r.userAgent == "*"
  {
    rs := [];
    for i := 0 to |rules|
      invariant forall r :: r in rs <==> r in rules[..i] && r.userAgent == "*"
    {
      if rules[i].userAgent == "*" {
        rs := rs + [rules[i]];
      }
    }
  }

  method CheckGroup(m: Matcher, rule: Rule) returns (ok: bool)
    ensures ok <==> GroupAllows(m, rule)
  {
    for i := 0 to |rule.disallow|
      invariant forall k :: 0 <= k < i && m.matches(rule.disallow[k]) ==> Overridden(m, rule, rule.disallow[k])
    {
      var d := rule.disallow[i];
      if m.matches(d) {
        var allowed := false;
        for j := 0 to |rule.allow|
          invariant !allowed ==> forall k :: 0 <= k < j ==> !(m.matches(rule.allow[k]) && |rule.allow[k]| > |d|)
          invariant allowed ==> Overridden(m, rule, d)
        {
          var a := rule.allow[j];
          if m.matches(a) && |a| > |d| {
            allowed := true;
            break;
          }
        }
        if !allowed {
          return false;
        }
      }
    }
    ok := true;
  }

  // ---- longest match ----

  /** The length of the longest matching pattern, or -1. */
  function Longest(m: Matcher, patterns: seq<string>): (n: int)
    ensures n >= -1
    ensures forall p :: p in patterns && m.matches(p) ==> |p| <= n
    ensures n >= 0 ==> exists p :: p in patterns && m.matches(p) && |p| == n
  {
    if patterns == [] then -1
    else
      var before, last := Longest(m, patterns[..|patterns| - 1]), patterns[|patterns| - 1];
      if m.matches(last) then Max(before, |last|) else before
  }

  /** One group: the longest match decides, and a tie goes to disallow. */
  lemma GroupIsLongestMatch(m: Matcher, r: Rule)
    ensures GroupAllows(m, r) <==> Longest(m, r.disallow) == -1 || Longest(m, r.allow) > Longest(m, r.disallow)
  {
    var la, ld := Longest(m, r.allow), Longest(m, r.disallow);
    if GroupAllows(m, r) && ld >= 0 {
      var d :| d in r.disallow && m.matches(d) && |d| == ld;
      assert Overridden(m, r, d);
    }
    if ld == -1 || la > ld {
      forall d | d in r.disallow && m.matches(d) ensures Overridden(m, r, d) {
        var a :| a in r.allow && m.matches(a) && |a| == la;
      }
    }
  }

  /** Section 2.2.2 of RFC 9309: the most octets win, and equivalent rules should resolve to allow. */
  predicate RfcGroupAllows(m: Matcher, r: Rule) {
    Longest(m, r.allow) >= Longest(m, r.disallow)
  }

  /** The code departs from section 2.2.2 exactly when the longest matching allow and disallow are of
      equal length. */
  lemma DepartsFromRfcExactlyAtTies(m: Matcher, r: Rule)
    ensures GroupAllows(m, r) ==> RfcGroupAllows(m, r)
    ensures (GroupAllows(m, r) <==> RfcGroupAllows(m, r)) <==> !(Longest(m, r.allow) == Longest(m, r.disallow) >= 0)
  {
    GroupIsLongestMatch(m, r);
  }

  // ---- several groups ----

  /** On several applicable groups the answer is the conjunction of their longest-match answers. */
  lemma GroupsAreConjoined(m: Matcher, rules: seq<Rule>)
    ensures Allowed(m, rules) <==>
      forall r :: r in Applicable(m, rules) ==> Longest(m, r.disallow) == -1 || Longest(m, r.allow) > Longest(m, r.disallow)
  {
    forall r | r in rules {
      GroupIsLongestMatch(m, r);
    }
  }

  ghost predicate SameSets(r: Rule, s: Rule) {
    && r.userAgent == s.userAgent
    && (forall p :: p in r.allow <==> p in s.allow)
    && (forall p :: p in r.disallow <==> p in s.disallow)
  }

  /** Neither the order of the groups nor the order of the lines in a group matters. */
  lemma OrderIndependent(m: Matcher, rules: seq<Rule>, others: seq<Rule>)
    requires forall r :: r in rules ==> exists s :: s in others && SameSets(r, s)
    requires forall s :: s in others ==> exists r :: r in rules && SameSets(r, s)
    ensures Allowed(m, rules) <==> Allowed(m, others)
  {
    forall r, s | r in rules && s in others && SameSets(r, s)
      ensures GroupAllows(m, r) <==> GroupAllows(m, s)
    {
      SameSetsAgree(m, r, s);
    }
  }

  lemma SameSetsAgree(m: Matcher, r: Rule, s: Rule)
    requires SameSets(r, s)
    ensures GroupAllows(m, r) <==> GroupAllows(m, s)
  {
    forall d ensures Overridden(m, r, d) <==> Overridden(m, s, d) {
    }
  }

  /** All rules of the groups as one group, as section 2.2.1 of RFC 9309 asks for the groups it selects. */
  function Merge(rules: seq<Rule>): (r: Rule)
    ensures forall p :: p in r.allow <==> exists k :: 0 <= k < |rules| && p in rules[k].allow
    ensures forall p :: p in r.disallow <==> exists k :: 0 <= k < |rules| && p in rules[k].disallow
  {
    if rules == [] then Rule("*", [], [])
    else
      var before, last := Merge(rules[..|rules| - 1]), rules[|rules| - 1];
      Rule("*", before.allow + last.allow, before.disallow + last.disallow)
  }

  /** The group names the crawler. */
  predicate Names(m: Matcher, r: Rule) {
    r.userAgent != "*" && Contains(m.lower(r.userAgent), "ampy")
  }

  function Named(m: Matcher, rules: seq<Rule>): (rs: seq<Rule>)
    ensures forall r :: r in rs <==> r in rules && Names(m, r)
  {
    if rules == [] then []
    else
      var before, last := Named(m, rules[..|rules| - 1]), rules[|rules| - 1];
      if Names(m, last) then before + [last] else before
  }

  function Stars(rules: seq<Rule>): (rs: seq<Rule>)
    ensures forall r :: r in rs <==> r in rules && r.userAgent == "*"
  {
    if rules == [] then []
    else
      var before, last := Stars(rules[..|rules| - 1]), rules[|rules| - 1];
      if last.userAgent == "*" then before + [last] else before
  }

  /** The groups section 2.2.1 of RFC 9309 selects: those that name the crawler, or the "*" groups when
      there is none. */
  function Selected(m: Matcher, rules: seq<Rule>): (rs: seq<Rule>)
    ensures forall r :: r in rs ==> r in Applicable(m, rules)
  {
    if Named(m, rules) != [] then Named(m, rules) else Stars(rules)
  }

  /** The code is never more permissive than any of its applicable groups merged, evaluated the same way
      or by the RFC's own tie rule. */
  lemma AllowedImpliesMerged(m: Matcher, rules: seq<Rule>, rs: seq<Rule>)
    requires Allowed(m, rules) && forall r :: r in rs ==> r in Applicable(m, rules)
    ensures GroupAllows(m, Merge(rs)) && RfcGroupAllows(m, Merge(rs))
  {
    hide Merge, Applicable, Longest;
    var merged := Merge(rs);
    forall d | d in merged.disallow && m.matches(d) ensures Overridden(m, merged, d) {
      var k :| 0 <= k < |rs| && d in rs[k].disallow;
      assert rs[k] in rs;
      assert Overridden(m, rs[k], d);
      var a :| a in rs[k].allow && m.matches(a) && |a| > |d|;
      assert a in merged.allow;
    }
    GroupIsLongestMatch(m, merged);
  }

  /** What the code allows, the groups the RFC selects allow too when merged as it asks, evaluated the
      same way or by its own tie rule; and so do all applicable groups merged. */
  lemma AllowedImpliesMergedAllowed(m: Matcher, rules: seq<Rule>)
    requires Allowed(m, rules)
    ensures GroupAllows(m, Merge(Selected(m, rules))) && RfcGroupAllows(m, Merge(Selected(m, rules)))
    ensures GroupAllows(m, Merge(Applicable(m, rules))) && RfcGroupAllows(m, Merge(Applicable(m, rules)))
  {
    hide Allowed, Selected, Merge, Applicable, GroupAllows, RfcGroupAllows;
    AllowedImpliesMerged(m, rules, Selected(m, rules));
    AllowedImpliesMerged(m, rules, Applicable(m, rules));
  }

  /** The group refuses: its longest matching disallow is not shorter than its longest matching allow. */
  predicate GroupRefuses(m: Matcher, r: Rule) {
    Longest(m, r.disallow) >= 0 && Longest(m, r.allow) <= Longest(m, r.disallow)
  }

  ghost predicate SomeGroupRefuses(m: Matcher, rs: seq<Rule>) {
    exists r :: r in rs && GroupRefuses(m, r)
  }

  /** The code and the merged group disagree exactly when some single group refuses although an allow,
      of whichever group, is longer than every matching disallow of all the groups; by the RFC's tie rule
      on that merged group, at least as long is enough. */
  lemma AgreesWithMergedExactly(m: Matcher, rules: seq<Rule>)
    ensures var rs := Applicable(m, rules); var merged := Merge(rs);
      && ((Allowed(m, rules) <==> GroupAllows(m, merged)) <==>
            !(Longest(m, merged.allow) > Longest(m, merged.disallow) && SomeGroupRefuses(m, rs)))
      && ((Allowed(m, rules) <==> RfcGroupAllows(m, merged)) <==>
            !(Longest(m, merged.allow) >= Longest(m, merged.disallow) && SomeGroupRefuses(m, rs)))
  {
    hide Allowed, GroupAllows, SomeGroupRefuses, Applicable, Merge, Longest;
    var merged := Merge(Applicable(m, rules));
    RefusedBySomeGroup(m, rules);
    if SomeGroupRefuses(m, Applicable(m, rules)) {
      RefusalShowsInMerge(m, Applicable(m, rules));
    }
    GroupIsLongestMatch(m, merged);
    if Allowed(m, rules) {
      AllowedImpliesMergedAllowed(m, rules);
    }
  }

  lemma RefusedBySomeGroup(m: Matcher, rules: seq<Rule>)
    ensures Allowed(m, rules) <==> !SomeGroupRefuses(m, Applicable(m, rules))
  {
    hide Allowed, Applicable, Longest;
    GroupsAreConjoined(m, rules);
  }

  lemma RefusalShowsInMerge(m: Matcher, rs: seq<Rule>)
    requires SomeGroupRefuses(m, rs)
    ensures Longest(m, Merge(rs).disallow) >= 0
  {
    hide Merge, Longest;
    var r :| r in rs && GroupRefuses(m, r);
    var d :| d in r.disallow && m.matches(d) && |d| == Longest(m, r.disallow);
    var k :| 0 <= k < |rs| && rs[k] == r;
    assert d in Merge(rs).disallow;
  }

  // ---- conditions on the rules alone ----

  function With(m: Matcher, matches: string -> bool): Matcher {
    m.(matches := matches)
  }

  lemma ApplicableIgnoresThePath(m: Matcher, rules: seq<Rule>, matches: string -> bool)
    ensures Applicable(With(m, matches), rules) == Applicable(m, rules)
  {
  }

  /** Rule r disallows d, and some group allows the longer a, but r itself does not. */
  predicate Rescued(r: Rule, merged: Rule, d: string, a: string) {
    d in r.disallow && a in merged.allow && |a| > |d| && a !in r.allow
  }

  /** Whatever the path, the code agrees with the merged group: if and only if no applicable group has a
      disallow that a longer allow, which is neither its own nor also disallowed, would lift. */
  lemma AgreesForEveryPathExactly(m: Matcher, rules: seq<Rule>)
    ensures var rs := Applicable(m, rules); var merged := Merge(rs);
      (forall matches: string -> bool :: Allowed(With(m, matches), rules) <==> GroupAllows(With(m, matches), merged))
      <==> !(exists r, d, a :: r in rs && Rescued(r, merged, d, a) && a !in merged.disallow)
  {
    hide Allowed, GroupAllows, Applicable, Merge, Rescued;
    var rs := Applicable(m, rules);
    var merged := Merge(rs);
    if r, d, a :| r in rs && Rescued(r, merged, d, a) && a !in merged.disallow {
      var matches := p => p == d || p == a;
      ApplicableIgnoresThePath(m, rules, matches);
      RescueDisagrees(With(m, matches), rules, rs, r, d, a);
    }
    forall matches: string -> bool | !(Allowed(With(m, matches), rules) <==> GroupAllows(With(m, matches), merged))
      ensures exists r, d, a :: r in rs && Rescued(r, merged, d, a) && a !in merged.disallow
    {
      ApplicableIgnoresThePath(m, rules, matches);
      var r, d, a := DisagreementRescues(With(m, matches), rules);
    }
  }

  /** On a path that only d and a match, the code refuses and the merged group allows. */
  lemma RescueDisagrees(m: Matcher, rules: seq<Rule>, rs: seq<Rule>, r: Rule, d: string, a: string)
    requires rs == Applicable(m, rules) && r in rs && Rescued(r, Merge(rs), d, a) && a !in Merge(rs).disallow
    requires forall p :: m.matches(p) <==> p == d || p == a
    ensures !Allowed(m, rules) && GroupAllows(m, Merge(rs))
  {
    hide Merge, Applicable;
    assert !Overridden(m, r, d);
    forall e | e in Merge(rs).disallow && m.matches(e) ensures Overridden(m, Merge(rs), e) {
      assert a in Merge(rs).allow && m.matches(a);
    }
  }

  lemma DisagreementRescues(m: Matcher, rules: seq<Rule>) returns (r: Rule, d: string, a: string)
    requires var merged := Merge(Applicable(m, rules)); !(Allowed(m, rules) <==> GroupAllows(m, merged))
    ensures var rs := Applicable(m, rules); r in rs && Rescued(r, Merge(rs), d, a) && a !in Merge(rs).disallow
  {
    hide Merge, Applicable, Longest;
    var rs := Applicable(m, rules);
    var merged := Merge(rs);
    if Allowed(m, rules) {
      AllowedImpliesMergedAllowed(m, rules);
    }
    r, d := RefusingGroup(m, rules);
    DisallowIsMerged(rs, r, d);
    assert Overridden(m, merged, d);
    a := LongestMatch(m, merged.allow);
    LongestIsNotOverridden(m, merged, a);
  }

  lemma LongestIsNotOverridden(m: Matcher, r: Rule, a: string)
    requires forall p :: p in r.allow && m.matches(p) ==> |p| <= |a|
    ensures !Overridden(m, r, a)
  {
  }

  /** The group and the disallow for which a refused path is refused. */
  lemma RefusingGroup(m: Matcher, rules: seq<Rule>) returns (r: Rule, d: string)
    requires !Allowed(m, rules)
    ensures r in Applicable(m, rules) && d in r.disallow && m.matches(d) && !Overridden(m, r, d)
  {
    hide Applicable;
    r :| r in rules && Applies(m, r) && !GroupAllows(m, r);
    d :| d in r.disallow && m.matches(d) && !Overridden(m, r, d);
  }

  lemma DisallowIsMerged(rs: seq<Rule>, r: Rule, d: string)
    requires r in rs && d in r.disallow
    ensures d in Merge(rs).disallow
  {
    hide Merge;
    var k :| 0 <= k < |rs| && rs[k] == r;
    assert d in rs[k].disallow;
  }

  lemma LongestMatch(m: Matcher, patterns: seq<string>) returns (a: string)
    requires exists p :: p in patterns && m.matches(p)
    ensures a in patterns && m.matches(a) && forall p :: p in patterns && m.matches(p) ==> |p| <= |a|
  {
    hide Longest;
    var p :| p in patterns && m.matches(p);
    assert Longest(m, patterns) >= |p|;
    a :| a in patterns && m.matches(a) && |a| == Longest(m, patterns);
  }

  /** Rule r disallows d, and some group allows an a that is at least as long, which does not lift d within r. */
  predicate RescuedByTie(r: Rule, merged: Rule, d: string, a: string) {
    d in r.disallow && a in merged.allow && |a| >= |d| && !(a in r.allow && |a| > |d|)
  }

  lemma SelectedIgnoresThePath(m: Matcher, rules: seq<Rule>, matches: string -> bool)
    ensures Selected(With(m, matches), rules) == Selected(m, rules)
  {
    NamedIgnoresThePath(m, rules, matches);
  }

  lemma NamedIgnoresThePath(m: Matcher, rules: seq<Rule>, matches: string -> bool)
    ensures Named(With(m, matches), rules) == Named(m, rules)
  {
  }

  /** A disallow d that the selected groups do not have, or that one of their allows rescues by a tie. */
  ghost predicate Departs(r: Rule, merged: Rule, d: string) {
    d in r.disallow && (d !in merged.disallow || exists a :: RescuedByTie(r, merged, d, a))
  }

  /** Sections 2.2.1 and 2.2.2 of RFC 9309 together: the code gives their verdict for every path if and
      only if no applicable group has a disallow that the selected groups lack (a "*" group beside one
      that names the crawler), or for which a selected group has an allow at least as long that does
      not lift it in its own group. */
  lemma FollowsRfcExactly(m: Matcher, rules: seq<Rule>)
    ensures var merged := Merge(Selected(m, rules));
      (forall matches: string -> bool :: Allowed(With(m, matches), rules) <==> RfcGroupAllows(With(m, matches), merged))
      <==> !(exists r, d :: r in Applicable(m, rules) && Departs(r, merged, d))
  {
    hide Allowed, RfcGroupAllows, Applicable, Selected, Merge, Departs;
    var merged := Merge(Selected(m, rules));
    if r, d :| r in Applicable(m, rules) && Departs(r, merged, d) {
      var matches := DepartingPath(r, merged, d);
      ApplicableIgnoresThePath(m, rules, matches);
      PathDeparts(With(m, matches), rules, r, merged, d);
    }
    forall matches: string -> bool | !(Allowed(With(m, matches), rules) <==> RfcGroupAllows(With(m, matches), merged))
      ensures exists r, d :: r in Applicable(m, rules) && Departs(r, merged, d)
    {
      ApplicableIgnoresThePath(m, rules, matches);
      SelectedIgnoresThePath(m, rules, matches);
      if Allowed(With(m, matches), rules) {
        AllowedImpliesMergedAllowed(With(m, matches), rules);
      }
      var r, d := RefusingGroup(With(m, matches), rules);
      RefusalDeparts(With(m, matches), r, merged, d);
    }
  }

  /** A path that only d matches, or d and the allow that rescues it. */
  ghost function DepartingPath(r: Rule, merged: Rule, d: string): (matches: string -> bool)
    requires Departs(r, merged, d)
    ensures matches(d) && forall p :: matches(p) && p != d ==> d in merged.disallow && RescuedByTie(r, merged, d, p)
    ensures d in merged.disallow ==> exists a :: matches(a) && RescuedByTie(r, merged, d, a)
    ensures forall p, q :: matches(p) && matches(q) && p != d && q != d ==> p == q
  {
    if d !in merged.disallow then p => p == d
    else
      var a :| RescuedByTie(r, merged, d, a);
      p => p == d || p == a
  }

  /** On such a path the code refuses and the RFC allows. */
  lemma PathDeparts(m: Matcher, rules: seq<Rule>, r: Rule, merged: Rule, d: string)
    requires r in Applicable(m, rules) && Departs(r, merged, d) && m.matches == DepartingPath(r, merged, d)
    ensures !Allowed(m, rules) && RfcGroupAllows(m, merged)
  {
    hide Applicable, Longest, Departs, DepartingPath;
    assert d in r.disallow by { DepartsHas(r, merged, d); }
    assert !Overridden(m, r, d);
    if d !in merged.disallow {
      assert Longest(m, merged.disallow) == -1;
    } else {
      var a :| m.matches(a) && RescuedByTie(r, merged, d, a);
      assert Longest(m, merged.allow) >= |a| >= |d|;
    }
  }

  lemma DepartsHas(r: Rule, merged: Rule, d: string)
    requires Departs(r, merged, d)
    ensures d in r.disallow
  {
  }

  lemma RefusalDeparts(m: Matcher, r: Rule, merged: Rule, d: string)
    requires d in r.disallow && m.matches(d) && !Overridden(m, r, d) && RfcGroupAllows(m, merged)
    ensures Departs(r, merged, d)
  {
    hide Longest;
    if d in merged.disallow {
      assert Longest(m, merged.disallow) >= |d|;
      var a := LongestMatch(m, merged.allow);
      assert RescuedByTie(r, merged, d, a);
    }
  }

  /** In particular a "*" group's disallow is obeyed although a group names the crawler and leaves the
      path open. */
  lemma StarGroupRefuses(m: Matcher, agent: string, d: string)
    requires agent != "*" && Contains(m.lower(agent), "ampy") && m.matches(d)
    ensures var rules := [Rule("*", [], [d]), Rule(agent, [], [])];
      !Allowed(m, rules) && RfcGroupAllows(m, Merge(Selected(m, rules)))
  {
    hide Contains, Applicable, Merge;
    var star, named := Rule("*", [], [d]), Rule(agent, [], []);
    var rules := [star, named];
    assert star in rules && named in rules && d in star.disallow;
    assert !Overridden(m, star, d);
    assert named in Named(m, rules);
    forall r | r in Selected(m, rules) ensures r == named {
      assert r in rules;
    }
    NothingDisallowed(Selected(m, rules));
  }

  lemma NothingDisallowed(rs: seq<Rule>)
    requires forall r :: r in rs ==> r.disallow == []
    ensures forall p :: p !in Merge(rs).disallow
  {
    hide Merge;
    forall k | 0 <= k < |rs| ensures rs[k].disallow == [] {
      assert rs[k] in rs;
    }
  }

  /** The converse fails: an allow in one group does not lift a shorter disallow in another, though
      the merged group would. */
  lemma SplitGroupsRefuse(m: Matcher, d: string, a: string)
    requires m.matches(d) && m.matches(a) && |a| > |d|
    ensures var rules := [Rule("*", [], [d]), Rule("*", [a], [])];
      !Allowed(m, rules) && GroupAllows(m, Merge(Applicable(m, rules)))
  {
    var r, s := Rule("*", [], [d]), Rule("*", [a], []);
    var rules := [r, s];
    assert r in rules && s in rules && d in r.disallow;
    assert !Overridden(m, r, d);
    var rs := Applicable(m, rules);
    var merged := Merge(rs);
    assert r in rs && s in rs;
    var k :| 0 <= k < |rs| && rs[k] == s;
    assert a in merged.allow;
    forall e | e in merged.disallow && m.matches(e) ensures Overridden(m, merged, e) {
      var j :| 0 <= j < |rs| && e in rs[j].disallow;
      assert rs[j] in rs && rs[j] in rules;
    }
  }
}
