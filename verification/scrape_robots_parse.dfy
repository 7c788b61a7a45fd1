/** The robots.txt parser, and the printed form it inverts. */
module RobotsParse {
  import opened Prelude
  import opened Strings
  import opened ScrapeRobots

  /** What one line says. */
  datatype Directive = UserAgent(value: string) | AllowPath(value: string) | DisallowPath(value: string)

  /** Lower-casing, of which only the three directive names matter here. */
  ghost predicate KnowsNames(lower: string -> string) {
    lower("User-agent") == "user-agent" && lower("Allow") == "allow" && lower("Disallow") == "disallow"
  }

  /** Lines that say nothing: blank, comment, without a colon, or with an unknown directive. */
  predicate IsNoise(lower: string -> string, line: string) {
    var t := Trim(line);
    || t == ""
    || t[0] == '#'
    || ':' !in t
    || var name := lower(Trim(t[..IndexChar(t, ':')]));
       name != "user-agent" && name != "allow" && name != "disallow"
  }

  function ParseLine(lower: string -> string, line: string): (d: Option<Directive>)
    ensures d == None <==> IsNoise(lower, line)
  {
    var t := Trim(line);
    if t == "" || t[0] == '#' || ':' !in t then None
    else
      var i := IndexChar(t, ':');
      var name, value := lower(Trim(t[..i])), Trim(t[i + 1..]);
      if name == "user-agent" then Some(UserAgent(value))
      else if name == "allow" then Some(AllowPath(value))
      else if name == "disallow" then Some(DisallowPath(value))
      else None
  }

  /** The parser's two variables. */
  datatype State = State(rules: seq<Rule>, current: Option<Rule>)

  function Feed(s: State, d: Directive): State {
    match d
    case UserAgent(v) => State(Flush(s), Some(Rule(v, [], [])))
    case AllowPath(v) =>
      if s.current == None then s
      else s.(current := Some(s.current.value.(allow := s.current.value.allow + [v])))
    case DisallowPath(v) =>
      if s.current == None then s
      else s.(current := Some(s.current.value.(disallow := s.current.value.disallow + [v])))
  }

  function Flush(s: State): seq<Rule> {
    if s.current == None then s.rules else s.rules + [s.current.value]
  }

  function FeedAll(ds: seq<Directive>): State {
    if ds == [] then State([], None) else Feed(FeedAll(ds[..|ds| - 1]), ds[|ds| - 1])
  }

  /** The directives among the lines. */
  function Directives(lower: string -> string, lines: seq<string>): seq<Directive> {
    if lines == [] then []
    else
      var before := Directives(lower, lines[..|lines| - 1]);
      match ParseLine(lower, lines[|lines| - 1])
      case None => before
      case Some(d) => before + [d]
  }

  lemma DirectivesSnoc(lower: string -> string, lines: seq<string>, line: string)
    ensures var before, d := FeedAll(Directives(lower, lines)), ParseLine(lower, line);
      FeedAll(Directives(lower, lines + [line])) == if d == None then before else Feed(before, d.value)
  {
    hide ParseLine;
    assert (lines + [line])[..|lines|] == lines;
    if ParseLine(lower, line).Some? {
      FeedAllSnoc(Directives(lower, lines), ParseLine(lower, line).value);
    }
  }

  /** parseRobotsTxt over the scanned lines. */
  method ParseRobotsTxt(lower: string -> string, lines: seq<string>) returns (rules: seq<Rule>)
    ensures rules == Flush(FeedAll(Directives(lower, lines)))
  {
    hide ParseLine, FeedAll, Directives, Feed;
    rules := [];
    var currentRule: Option<Rule> := None;
    NothingRead(lower);
    for i := 0 to |lines|
      invariant State(rules, currentRule) == FeedAll(Directives(lower, lines[..i]))
    {
      assert lines[..i + 1] == lines[..i] + [lines[i]];
      DirectivesSnoc(lower, lines[..i], lines[i]);
      var d := ParseLine(lower, lines[i]);
      if d.Some? {
        rules, currentRule := Switch(rules, currentRule, d.value);
      }
    }
    assert lines[..|lines|] == lines;
    if currentRule.Some? {
      rules := rules + [currentRule.value];
    }
  }

  lemma NothingRead(lower: string -> string)
    ensures FeedAll(Directives(lower, [])) == State([], None)
  {
  }

  /** The switch on the directive. */
  method Switch(rules: seq<Rule>, currentRule: Option<Rule>, d: Directive) returns (rules': seq<Rule>, current': Option<Rule>)
    ensures State(rules', current') == Feed(State(rules, currentRule), d)
  {
    rules', current' := rules, currentRule;
    match d {
      case UserAgent(value) =>
        if currentRule.Some? {
          rules' := rules + [currentRule.value];
        }
        current' := Some(Rule(value, [], []));
      case AllowPath(value) =>
        if currentRule.Some? {
          current' := Some(currentRule.value.(allow := currentRule.value.allow + [value]));
        }
      case DisallowPath(value) =>
        if currentRule.Some? {
          current' := Some(currentRule.value.(disallow := currentRule.value.disallow + [value]));
        }
    }
  }

  // ---- the printed form ----

  function Name(d: Directive): string {
    match d
    case UserAgent(_) => "User-agent"
    case AllowPath(_) => "Allow"
    case DisallowPath(_) => "Disallow"
  }

  function Render(d: Directive): string {
    Name(d) + ": " + d.value
  }

  function Values(ds: seq<Directive>, allow: bool): seq<string> {
    if ds == [] then []
    else
      var before, last := Values(ds[..|ds| - 1], allow), ds[|ds| - 1];
      if !last.UserAgent? && last.AllowPath? == allow then before + [last.value] else before
  }

  /** body interleaves the rule's allow and disallow lines, each list in its order. */
  ghost predicate Interleaves(r: Rule, body: seq<Directive>) {
    && (forall d :: d in body ==> !d.UserAgent?)
    && Values(body, true) == r.allow
    && Values(body, false) == r.disallow
  }

  /** The directives of a rule list, group by group. */
  function Document(rules: seq<Rule>, bodies: seq<seq<Directive>>): seq<Directive>
    requires |rules| == |bodies|
  {
    if rules == [] then []
    else
      var n := |rules| - 1;
      Document(rules[..n], bodies[..n]) + [UserAgent(rules[n].userAgent)] + bodies[n]
  }

  /** lines spell ds: one rendered line per directive, in order, with noise lines anywhere. */
  ghost predicate Spells(lower: string -> string, lines: seq<string>, ds: seq<Directive>) {
    if lines == [] then ds == []
    else
      var before, line := lines[..|lines| - 1], lines[|lines| - 1];
      || (IsNoise(lower, line) && Spells(lower, before, ds))
      || (ds != [] && line == Render(ds[|ds| - 1]) && Spells(lower, before, ds[..|ds| - 1]))
  }

  lemma FeedAllSnoc(ds: seq<Directive>, d: Directive)
    ensures FeedAll(ds + [d]) == Feed(FeedAll(ds), d)
  {
    assert (ds + [d])[..|ds|] == ds;
  }

  /** A group body fills the current rule. */
  lemma {:induction false} FeedBody(ds: seq<Directive>, ua: string, body: seq<Directive>)
    requires forall d :: d in body ==> !d.UserAgent?
    ensures FeedAll(ds + [UserAgent(ua)] + body)
            == State(Flush(FeedAll(ds)), Some(Rule(ua, Values(body, true), Values(body, false))))
  {
    if body == [] {
      assert ds + [UserAgent(ua)] + body == ds + [UserAgent(ua)];
      FeedAllSnoc(ds, UserAgent(ua));
    } else {
      var n := |body| - 1;
      FeedBody(ds, ua, body[..n]);
      assert ds + [UserAgent(ua)] + body == (ds + [UserAgent(ua)] + body[..n]) + [body[n]];
      FeedAllSnoc(ds + [UserAgent(ua)] + body[..n], body[n]);
    }
  }

  lemma NothingFed()
    ensures FeedAll([]) == State([], None)
  {
  }

  /** Rules before any user agent are ignored. */
  lemma {:induction false} OrphansAreIgnored(orphans: seq<Directive>)
    requires forall d :: d in orphans ==> !d.UserAgent?
    ensures FeedAll(orphans) == State([], None)
  {
    if orphans != [] {
      OrphansAreIgnored(orphans[..|orphans| - 1]);
    }
  }

  /** ds is a rule list printed group by group, after rules of no user agent. */
  ghost predicate IsDocument(ds: seq<Directive>, orphans: seq<Directive>, rules: seq<Rule>, bodies: seq<seq<Directive>>) {
    && |rules| == |bodies| && (forall k :: 0 <= k < |rules| ==> Interleaves(rules[k], bodies[k]))
    && (forall d :: d in orphans ==> !d.UserAgent?)
    && ds == orphans + Document(rules, bodies)
  }

  lemma {:induction false} DocumentParses(ds: seq<Directive>, orphans: seq<Directive>, rules: seq<Rule>, bodies: seq<seq<Directive>>)
    requires IsDocument(ds, orphans, rules, bodies)
    ensures Flush(FeedAll(ds)) == rules
    decreases |rules|
  {
    hide Values, FeedAll;
    if rules == [] {
      OrphansAreIgnored(orphans);
      assert ds == orphans;
    } else {
      var n := |rules| - 1;
      var before := orphans + Document(rules[..n], bodies[..n]);
      DocumentParses(before, orphans, rules[..n], bodies[..n]);
      assert Interleaves(rules[n], bodies[n]);
      FeedBody(before, rules[n].userAgent, bodies[n]);
      assert ds == before + [UserAgent(rules[n].userAgent)] + bodies[n];
    }
  }

  /** Whatever is parsed reads as the printed form of the result: each line of a group is in its list, in
      order, and only rules before the first user agent are lost. */
  lemma {:induction false} PrintInvertsParse(ds: seq<Directive>) returns (orphans: seq<Directive>, bodies: seq<seq<Directive>>)
    ensures IsDocument(ds, orphans, Flush(FeedAll(ds)), bodies)
    ensures FeedAll(ds).current == None ==> FeedAll(ds).rules == []
  {
    hide Flush, Feed, IsDocument;
    orphans, bodies := [], [];
    if ds == [] {
      NothingPrinted();
    } else {
      var before, d := ds[..|ds| - 1], ds[|ds| - 1];
      var os, bs := PrintInvertsParse(before);
      assert ds == before + [d];
      orphans, bodies := StepPrints(before, FeedAll(before), d, os, bs);
    }
  }

  lemma NothingPrinted()
    ensures IsDocument([], [], Flush(FeedAll([])), []) && FeedAll([]).rules == []
  {
  }

  lemma StepPrints(before: seq<Directive>, s: State, d: Directive, os: seq<Directive>, bs: seq<seq<Directive>>)
    returns (orphans: seq<Directive>, bodies: seq<seq<Directive>>)
    requires IsDocument(before, os, Flush(s), bs) && (s.current == None ==> s.rules == [])
    ensures IsDocument(before + [d], orphans, Flush(Feed(s, d)), bodies)
    ensures Feed(s, d).current == None ==> Feed(s, d).rules == []
  {
    hide Values, Document, Interleaves;
    var rules, n := Flush(s), |bs| - 1;
    if d.UserAgent? {
      NewGroup(rules, bs, d.value);
      return os, bs + [[]];
    } else if s.current == None {
      NoGroup(os);
      NoGroup(os + [d]);
      return os + [d], bs;
    }
    LongerGroup(rules, bs, d, Flush(Feed(s, d)));
    orphans, bodies := os, bs[n := bs[n] + [d]];
    assert before + [d] == os + (Document(rules, bs) + [d]);
  }

  lemma NoGroup(os: seq<Directive>)
    ensures os + Document([], []) == os
  {
  }

  lemma NewGroup(rules: seq<Rule>, bodies: seq<seq<Directive>>, agent: string)
    requires |rules| == |bodies|
    ensures Document(rules + [Rule(agent, [], [])], bodies + [[]]) == Document(rules, bodies) + [UserAgent(agent)]
    ensures Interleaves(Rule(agent, [], []), [])
  {
    var longer := rules + [Rule(agent, [], [])];
    assert longer[..|rules|] == rules && (bodies + [[]])[..|rules|] == bodies;
  }

  lemma LongerGroup(rules: seq<Rule>, bodies: seq<seq<Directive>>, d: Directive, longer: seq<Rule>)
    requires |rules| == |bodies| > 0 && Interleaves(rules[|rules| - 1], bodies[|rules| - 1])
    requires !d.UserAgent?
    requires var n := |rules| - 1;
      |longer| == |rules| && longer[..n] == rules[..n] &&
      longer[n] == if d.AllowPath? then rules[n].(allow := rules[n].allow + [d.value])
                   else rules[n].(disallow := rules[n].disallow + [d.value])
    ensures var n := |rules| - 1;
      && Document(longer, bodies[n := bodies[n] + [d]]) == Document(rules, bodies) + [d]
      && Interleaves(longer[n], bodies[n] + [d])
  {
    var n := |rules| - 1;
    var body := bodies[n] + [d];
    assert body[..|body| - 1] == bodies[n];
    assert bodies[n := body][..n] == bodies[..n];
  }

  /** A rendered directive with a trimmed value reads back as itself. */
  lemma RenderParses(lower: string -> string, d: Directive)
    requires KnowsNames(lower) && Trimmed(d.value)
    ensures ParseLine(lower, Render(d)) == Some(d)
  {
    var name := Name(d);
    NameIsPlain(d);
    RenderedParts(name, d.value);
    TrimOfTrimmed(name);
    hide Trim, IndexChar;
    var t := Trim(Render(d));
    assert t[0] == name[0] && t[|name|] == ':';
  }

  lemma NameIsPlain(d: Directive)
    ensures var name := Name(d); name != "" && Trimmed(name) && ':' !in name && name[0] != '#'
  {
  }

  lemma RenderedParts(name: string, value: string)
    requires name != "" && Trimmed(name) && ':' !in name && Trimmed(value)
    ensures var t := Trim(name + ": " + value);
      && name + ":" <= t
      && IndexChar(t, ':') == |name| && t[..|name|] == name && Trim(t[|name| + 1..]) == value
  {
    var t := Trim(name + ": " + value);
    if value == "" {
      assert name + ": " + value == (name + ":") + " ";
      TrimTrailingSpace(name + ":");
    } else {
      var line := name + ": " + value;
      assert line[0] == name[0] && line[|line| - 1] == value[|value| - 1];
      TrimOfTrimmed(line);
      assert t[|name| + 1..] == " " + value;
      TrimLeadingSpace(value);
    }
    assert t[..|name|] == name && t[|name|] == ':';
    assert forall k :: 0 <= k < |name| ==> t[k] == name[k];
  }

  lemma {:induction false} SpelledDirectives(lower: string -> string, lines: seq<string>, ds: seq<Directive>)
    requires KnowsNames(lower) && Spells(lower, lines, ds)
    requires forall d :: d in ds ==> Trimmed(d.value)
    ensures Directives(lower, lines) == ds
  {
    hide IsNoise, Render, ParseLine;
    if lines != [] {
      var before, line := lines[..|lines| - 1], lines[|lines| - 1];
      if IsNoise(lower, line) && Spells(lower, before, ds) {
        SpelledDirectives(lower, before, ds);
      } else {
        var last := ds[|ds| - 1];
        assert last in ds;
        RenderParses(lower, last);
        SpelledDirectives(lower, before, ds[..|ds| - 1]);
      }
    }
  }

  /** Parsing the printed form of a rule list gives the list back, however its allow and disallow
      lines interleave and whatever noise lines are inserted anywhere. */
  lemma ParseInvertsPrint(lower: string -> string, rules: seq<Rule>, bodies: seq<seq<Directive>>, lines: seq<string>)
    requires KnowsNames(lower)
    requires |rules| == |bodies| && forall k :: 0 <= k < |rules| ==> Interleaves(rules[k], bodies[k])
    requires forall d :: d in Document(rules, bodies) ==> Trimmed(d.value)
    requires Spells(lower, lines, Document(rules, bodies))
    ensures Flush(FeedAll(Directives(lower, lines))) == rules
  {
    SpelledDirectives(lower, lines, Document(rules, bodies));
    DocumentParses(Document(rules, bodies), [], rules, bodies);
  }

  // ---- groups with several user agents ----

  /** The groups of section 2.2.1 of RFC 9309: user-agent lines in a row share the rules that follow. */
  datatype RfcState = RfcState(rules: seq<Rule>, agents: seq<string>, allow: seq<string>, disallow: seq<string>)

  function SameRules(agents: seq<string>, allow: seq<string>, disallow: seq<string>): (rs: seq<Rule>)
    ensures |rs| == |agents|
  {
    seq(|agents|, k requires 0 <= k < |agents| => Rule(agents[k], allow, disallow))
  }

  function RfcFlush(s: RfcState): seq<Rule> {
    s.rules + SameRules(s.agents, s.allow, s.disallow)
  }

  function RfcFeed(s: RfcState, d: Directive): RfcState {
    match d
    case UserAgent(v) =>
      if s.allow == [] && s.disallow == [] then s.(agents := s.agents + [v])
      else RfcState(RfcFlush(s), [v], [], [])
    case AllowPath(v) => if s.agents == [] then s else s.(allow := s.allow + [v])
    case DisallowPath(v) => if s.agents == [] then s else s.(disallow := s.disallow + [v])
  }

  function RfcFeedAll(ds: seq<Directive>): RfcState {
    if ds == [] then RfcState([], [], [], []) else RfcFeed(RfcFeedAll(ds[..|ds| - 1]), ds[|ds| - 1])
  }

  predicate EndsInAgents(ds: seq<Directive>, n: nat) {
    n <= |ds| && forall i :: |ds| - n <= i < |ds| ==> ds[i].UserAgent?
  }

  /** Two user-agent lines in a row, and then a rule. */
  ghost predicate SharesRules(ds: seq<Directive>) {
    exists j :: 0 <= j < |ds| && SharedAt(ds, j)
  }

  predicate SharedAt(ds: seq<Directive>, j: int)
    requires 0 <= j < |ds|
  {
    EndsInAgents(ds[..j], 2) && !ds[j].UserAgent?
  }

  /** How the parser's state and the RFC's correspond while no rules have been shared. */
  ghost predicate Corresponds(ds: seq<Directive>, c: State, r: RfcState) {
    && Flush(c) == RfcFlush(r)
    && (c.current == None <==> r.agents == [])
    && (r.agents != [] ==> c.current == Some(Rule(r.agents[|r.agents| - 1], r.allow, r.disallow)))
    && (r.agents == [] || |r.agents| > 1 ==> r.allow == [] && r.disallow == [])
    && (EndsInAgents(ds, 1) <==> r.agents != [] && r.allow == [] && r.disallow == [])
    && (EndsInAgents(ds, 2) <==> |r.agents| > 1)
  }

  lemma {:induction false} NoSharingCorresponds(ds: seq<Directive>)
    requires !SharesRules(ds)
    ensures Corresponds(ds, FeedAll(ds), RfcFeedAll(ds))
  {
    hide Feed, RfcFeed, Corresponds;
    if ds == [] {
      NothingCorresponds();
    } else {
      var before, d := ds[..|ds| - 1], ds[|ds| - 1];
      if SharesRules(before) {
        SharingPersists(before, d);
      }
      assert ds == before + [d];
      NoSharingCorresponds(before);
      assert !SharedAt(ds, |ds| - 1);
      StepCorresponds(before, d, FeedAll(before), RfcFeedAll(before));
    }
  }

  lemma NothingCorresponds()
    ensures Corresponds([], FeedAll([]), RfcFeedAll([]))
  {
  }

  lemma SharingPersists(before: seq<Directive>, d: Directive)
    requires SharesRules(before)
    ensures SharesRules(before + [d])
  {
    var j :| 0 <= j < |before| && SharedAt(before, j);
    assert (before + [d])[..j] == before[..j];
    assert SharedAt(before + [d], j);
  }

  lemma StepCorresponds(before: seq<Directive>, d: Directive, c: State, r: RfcState)
    requires Corresponds(before, c, r)
    requires d.UserAgent? || !EndsInAgents(before, 2)
    ensures Corresponds(before + [d], Feed(c, d), RfcFeed(r, d))
  {
    AgentsAtEnd(before, d);
    if d.UserAgent? {
      assert Flush(Feed(c, d)) == Flush(c) + [Rule(d.value, [], [])];
    } else if |r.agents| == 1 {
      assert SameRules(r.agents, r.allow, r.disallow) == [c.current.value];
      assert c.rules == Flush(c)[..|Flush(c)| - 1] && r.rules == RfcFlush(r)[..|RfcFlush(r)| - 1];
    }
  }

  lemma AgentsAtEnd(before: seq<Directive>, d: Directive)
    ensures EndsInAgents(before + [d], 1) <==> d.UserAgent?
    ensures EndsInAgents(before + [d], 2) <==> d.UserAgent? && EndsInAgents(before, 1)
  {
    var ds := before + [d];
    assert ds[|ds| - 1] == d;
    if before != [] {
      assert ds[|ds| - 2] == before[|before| - 1];
    }
  }

  /** The parser has closed group p without a rule, and the RFC gives it some. */
  ghost predicate Emptied(c: State, r: RfcState, p: nat) {
    && p < |c.rules| && p < |RfcFlush(r)|
    && c.rules[p].allow == [] && c.rules[p].disallow == []
    && (RfcFlush(r)[p].allow != [] || RfcFlush(r)[p].disallow != [])
  }

  /** Once rules are shared, the first agent's group stays empty for the parser. */
  lemma {:induction false} SharingEmpties(ds: seq<Directive>) returns (p: nat)
    requires SharesRules(ds)
    ensures Emptied(FeedAll(ds), RfcFeedAll(ds), p)
  {
    hide Feed, RfcFeed, Corresponds, Emptied;
    var before, d := ds[..|ds| - 1], ds[|ds| - 1];
    if SharesRules(before) {
      p := SharingEmpties(before);
      StaysEmptied(FeedAll(before), RfcFeedAll(before), d, p);
    } else {
      NoSharingCorresponds(before);
      assert ds == before + [d];
      SharingBegins(before, d);
      p := FirstEmptied(before, d, FeedAll(before), RfcFeedAll(before));
    }
  }

  lemma SharingBegins(before: seq<Directive>, d: Directive)
    requires SharesRules(before + [d])
    ensures SharesRules(before) || (EndsInAgents(before, 2) && !d.UserAgent?)
  {
    var ds := before + [d];
    var j :| 0 <= j < |ds| && SharedAt(ds, j);
    if j < |before| {
      assert ds[..j] == before[..j];
      assert SharedAt(before, j);
    } else {
      assert ds[..j] == before;
    }
  }

  lemma StaysEmptied(c: State, r: RfcState, d: Directive, p: nat)
    requires Emptied(c, r, p)
    ensures Emptied(Feed(c, d), RfcFeed(r, d), p)
  {
  }

  lemma FirstEmptied(before: seq<Directive>, d: Directive, c: State, r: RfcState) returns (p: nat)
    requires Corresponds(before, c, r) && EndsInAgents(before, 2) && !d.UserAgent?
    ensures Emptied(Feed(c, d), RfcFeed(r, d), p)
  {
    p := |c.rules| - 1;
    assert |Flush(c)| == |c.rules| + 1 == |r.rules| + |r.agents|;
    assert Flush(c)[p] == c.rules[p] == RfcFlush(r)[p];
  }

  /** The parser yields the groups of section 2.2.1 of RFC 9309 if and only if no two user-agent lines
      in a row are followed by a rule. */
  lemma ParserFollowsRfcExactly(ds: seq<Directive>)
    ensures Flush(FeedAll(ds)) == RfcFlush(RfcFeedAll(ds)) <==> !SharesRules(ds)
  {
    hide SharesRules;
    if SharesRules(ds) {
      var p := SharingEmpties(ds);
      assert Flush(FeedAll(ds))[p] == FeedAll(ds).rules[p];
    } else {
      NoSharingCorresponds(ds);
    }
  }

  /** So the code can be more permissive than the RFC: a crawler named first in such a pair is not bound
      by the rules it shares. */
  lemma SharedRulesAreLost(m: Matcher, u: string, v: string, d: string)
    requires u != "*" && Contains(m.lower(u), "ampy") && v != "*" && !Contains(m.lower(v), "ampy") && m.matches(d)
    ensures var ds := [UserAgent(u), UserAgent(v), DisallowPath(d)];
      && Allowed(m, Flush(FeedAll(ds)))
      && !RfcGroupAllows(m, Merge(Selected(m, RfcFlush(RfcFeedAll(ds)))))
  {
    hide Contains, Merge, Applicable, Longest, FeedAll, RfcFeedAll, RfcFlush, Flush;
    var ds := [UserAgent(u), UserAgent(v), DisallowPath(d)];
    ThreeLines(u, v, d);
    var bound, other := Rule(u, [], [d]), Rule(v, [], [d]);
    var groups := RfcFlush(RfcFeedAll(ds));
    assert groups == [bound, other];
    assert bound in groups && bound in Named(m, groups);
    NothingAllowed(m, Selected(m, groups), groups);
    DisallowIsMerged(Selected(m, groups), bound, d);
    assert Longest(m, Merge(Selected(m, groups)).disallow) >= |d|;
  }

  lemma ThreeLines(u: string, v: string, d: string)
    ensures var ds := [UserAgent(u), UserAgent(v), DisallowPath(d)];
      && Flush(FeedAll(ds)) == [Rule(u, [], []), Rule(v, [], [d])]
      && RfcFlush(RfcFeedAll(ds)) == [Rule(u, [], [d]), Rule(v, [], [d])]
  {
    var one, two := [UserAgent(u)], [UserAgent(u), UserAgent(v)];
    var ds := [UserAgent(u), UserAgent(v), DisallowPath(d)];
    assert ds[..2] == two && two[..1] == one && one[..0] == [];
    assert FeedAll(one) == State([], Some(Rule(u, [], []))) && RfcFeedAll(one) == RfcState([], [u], [], []);
    assert FeedAll(two) == State([Rule(u, [], [])], Some(Rule(v, [], []))) && RfcFeedAll(two) == RfcState([], [u, v], [], []);
    assert RfcFeedAll(ds) == RfcState([], [u, v], [], [d]);
  }

  lemma NothingAllowed(m: Matcher, rs: seq<Rule>, groups: seq<Rule>)
    requires (forall r :: r in rs ==> r in groups) && forall r :: r in groups ==> r.allow == []
    ensures Longest(m, Merge(rs).allow) == -1
  {
    hide Merge, Longest;
    forall k | 0 <= k < |rs| ensures rs[k].allow == [] {
      assert rs[k] in rs;
    }
  }

  // ---- down to the text ----

  /** bufio.ScanLines drops one trailing carriage return. */
  function DropCR(line: string): string {
    if line != "" && line[|line| - 1] == '\r' then line[..|line| - 1] else line
  }

  function ScanLines(text: string): seq<string>
    decreases |text|
  {
    if text == "" then []
    else
      var i := IndexChar(text, '\n');
      if i < 0 then [DropCR(text)] else [DropCR(text[..i])] + ScanLines(text[i + 1..])
  }

  function Text(lines: seq<string>): string {
    if lines == [] then "" else lines[0] + "\n" + Text(lines[1..])
  }

  /** Newline-free lines written out and scanned again say the same, carriage returns or not. */
  lemma {:induction false} ScanInvertsText(lower: string -> string, lines: seq<string>)
    requires forall l :: l in lines ==> '\n' !in l
    ensures |ScanLines(Text(lines))| == |lines|
    ensures forall k :: 0 <= k < |lines| ==> ParseLine(lower, ScanLines(Text(lines))[k]) == ParseLine(lower, lines[k])
  {
    hide ParseLine;
    if lines != [] {
      var text, rest := Text(lines), Text(lines[1..]);
      ScanFirstLine(lines[0], rest);
      assert text == lines[0] + "\n" + rest;
      ScanInvertsText(lower, lines[1..]);
      DropCRSaysTheSame(lower, lines[0]);
      var scanned := ScanLines(text);
      forall k | 0 <= k < |lines| ensures ParseLine(lower, scanned[k]) == ParseLine(lower, lines[k]) {
        if k > 0 {
          assert scanned[k] == ScanLines(rest)[k - 1] && lines[k] == lines[1..][k - 1];
        }
      }
    }
  }

  lemma ScanFirstLine(line: string, rest: string)
    requires '\n' !in line
    ensures ScanLines(line + "\n" + rest) == [DropCR(line)] + ScanLines(rest)
  {
    var text := line + "\n" + rest;
    assert text[|line|] == '\n';
    assert IndexChar(text, '\n') == |line|;
    assert text[..|line|] == line && text[|line| + 1..] == rest;
  }

  lemma DropCRSaysTheSame(lower: string -> string, line: string)
    ensures ParseLine(lower, DropCR(line)) == ParseLine(lower, line)
  {
    if line != "" && line[|line| - 1] == '\r' {
      TrimDropsLast(line[..|line| - 1], '\r');
      assert line[..|line| - 1] + ['\r'] == line;
    }
  }

  /** The whole file: written with noise, interleaving and line ends of any kind, it parses back. */
  lemma ParseInvertsPrintedText(lower: string -> string, rules: seq<Rule>, bodies: seq<seq<Directive>>, lines: seq<string>)
    requires KnowsNames(lower)
    requires |rules| == |bodies| && forall k :: 0 <= k < |rules| ==> Interleaves(rules[k], bodies[k])
    requires forall d :: d in Document(rules, bodies) ==> Trimmed(d.value)
    requires Spells(lower, lines, Document(rules, bodies)) && forall l :: l in lines ==> '\n' !in l
    ensures Flush(FeedAll(Directives(lower, ScanLines(Text(lines))))) == rules
  {
    hide ParseLine, FeedAll, Document, Spells, ScanLines, Text;
    ScanInvertsText(lower, lines);
    SameDirectives(lower, ScanLines(Text(lines)), lines);
    ParseInvertsPrint(lower, rules, bodies, lines);
  }

  lemma {:induction false} SameDirectives(lower: string -> string, xs: seq<string>, ys: seq<string>)
    requires |xs| == |ys| && forall k :: 0 <= k < |xs| ==> ParseLine(lower, xs[k]) == ParseLine(lower, ys[k])
    ensures Directives(lower, xs) == Directives(lower, ys)
  {
    hide ParseLine;
    if xs != [] {
      SameDirectives(lower, xs[..|xs| - 1], ys[..|ys| - 1]);
    }
  }
}
