/** The period checks of the financials mapper: grouping by key, the in-place exchange sort of each
    group, and the check of neighbours for overlap. */
module EmitPeriods {
  import opened Prelude
  import opened Sorting

  datatype Line = Line(key: string, start: int, end: int)

  predicate StartsBefore(a: Line, b: Line) {
    a.start < b.start
  }

  /** Two periods share more than an instant. */
  predicate Overlap(a: Line, b: Line) {
    a.start < b.end && b.start < a.end
  }

  /** Lines i and j of the input are two different lines of one key, and overlap. */
  predicate Clash(lines: seq<Line>, i: int, j: int)
    requires 0 <= i < j < |lines|
  {
    lines[i].key == lines[j].key && Overlap(lines[i], lines[j])
  }

  ghost predicate NoClash(lines: seq<Line>) {
    forall i, j :: 0 <= i < j < |lines| ==> !Clash(lines, i, j)
  }

  ghost predicate Forward(lines: seq<Line>) {
    forall i :: 0 <= i < |lines| ==> lines[i].start <= lines[i].end
  }

  /** No empty period shares its start with a non-empty one of the same key. */
  ghost predicate NoEmptyTie(lines: seq<Line>) {
    forall i, j :: 0 <= i < |lines| && 0 <= j < |lines| ==> !EmptyTie(lines[i], lines[j])
  }

  predicate EmptyTie(a: Line, b: Line) {
    a.key == b.key && a.start == a.end == b.start < b.end
  }

  lemma StartsBeforeIsOrder()
    ensures StrictWeakOrder(StartsBefore)
  {
  }

  // ---- one group ----

  /** The adjacent check on a group as sorted: no period ends after its neighbour starts. */
  ghost predicate NeighboursApart(g: seq<Line>) {
    forall i :: 0 <= i < |g| - 1 ==> g[i].end <= g[i + 1].start
  }

  /** The check of neighbours says something about all pairs: each period ends before every later one starts. */
  lemma {:induction false} AdjacentLiftsToAllPairs(g: seq<Line>, i: nat, j: nat)
    requires Forward(g) && NeighboursApart(g) && i < j < |g|
    ensures g[i].end <= g[j].start
    decreases j
  {
    if i + 1 < j {
      AdjacentLiftsToAllPairs(g, i, j - 1);
      assert g[j - 1].end <= g[j - 1 + 1].start;
    }
  }

  /** On a sorted group of one key: the adjacent check passes if and only if no pair overlaps and
      no non-empty period stands directly before an empty one at its own start. */
  lemma SortedGroupCheck(g: seq<Line>)
    requires Forward(g) && Sorted(StartsBefore, g)
    requires forall i, j :: 0 <= i < j < |g| ==> g[i].key == g[j].key
    ensures NeighboursApart(g) ==> NoClash(g)
    ensures NoClash(g) && (forall i, j :: 0 <= i < j < |g| ==> !EmptyTie(g[j], g[i])) ==> NeighboursApart(g)
    ensures (exists i, j :: 0 <= i < j < |g| && EmptyTie(g[j], g[i])) ==> !NeighboursApart(g)
  {
    if NeighboursApart(g) {
      forall i, j | 0 <= i < j < |g| ensures !Clash(g, i, j) && !EmptyTie(g[j], g[i]) {
        AdjacentLiftsToAllPairs(g, i, j);
      }
    }
    if NoClash(g) && forall i, j :: 0 <= i < j < |g| ==> !EmptyTie(g[j], g[i]) {
      forall i | 0 <= i < |g| - 1 ensures g[i].end <= g[i + 1].start {
        assert !Clash(g, i, i + 1) && !EmptyTie(g[i + 1], g[i]);
        assert !StartsBefore(g[i + 1], g[i]);
      }
    }
  }

  /** Sorts one group in place and checks its neighbours; false is the overlap error. */
  method CheckGroup(group: seq<Line>) returns (ok: bool, sorted: seq<Line>)
    ensures Sorted(StartsBefore, sorted) && multiset(sorted) == multiset(group)
    ensures Sorted(StartsBefore, group) ==> sorted == group
    ensures ok <==> NeighboursApart(sorted)
  {
    var keyLines := new Line[|group|](i requires 0 <= i < |group| => group[i]);
    assert keyLines[..] == group;
    StartsBeforeIsOrder();
    ExchangeSort(keyLines, StartsBefore);
    sorted := keyLines[..];
    var i := 0;
    while i < keyLines.Length - 1
      invariant 0 <= i && keyLines[..] == sorted
      invariant forall k :: 0 <= k < i && k < |sorted| - 1 ==> sorted[k].end <= sorted[k + 1].start
    {
      var currentEnd, nextStart := keyLines[i].end, keyLines[i + 1].start;
      if currentEnd > nextStart {
        return false, sorted;
      }
      i := i + 1;
    }
    ok := true;
  }

  // ---- all groups ----

  /** The lines of one key, in input order. */
  function Group(lines: seq<Line>, key: string): (g: seq<Line>)
    ensures forall l :: l in g ==> l.key == key && l in lines
  {
    if lines == [] then []
    else
      var before, last := Group(lines[..|lines| - 1], key), lines[|lines| - 1];
      if last.key == key then before + [last] else before
  }

  function Keys(lines: seq<Line>): set<string> {
    set l | l in lines :: l.key
  }

  /** Positions of the lines of one key. */
  function Positions(lines: seq<Line>, key: string): (ps: seq<nat>)
    ensures forall k :: 0 <= k < |ps| ==> ps[k] < |lines|
  {
    if lines == [] then []
    else
      var m := |lines| - 1;
      var before := Positions(lines[..m], key);
      if lines[m].key == key then before + [m] else before
  }

  lemma {:induction false} GroupIsAtPositions(lines: seq<Line>, key: string)
    ensures var ps, g := Positions(lines, key), Group(lines, key);
      && |ps| == |g| && (forall k :: 0 <= k < |ps| ==> lines[ps[k]] == g[k])
      && (forall j, k :: 0 <= j < k < |ps| ==> ps[j] < ps[k])
      && (forall i :: 0 <= i < |lines| && lines[i].key == key ==> i in ps)
  {
    if lines != [] {
      var m := |lines| - 1;
      GroupIsAtPositions(lines[..m], key);
      var before, ps := Positions(lines[..m], key), Positions(lines, key);
      forall i | 0 <= i < |lines| && lines[i].key == key ensures i in ps {
        if i < m {
          assert lines[..m][i].key == key;
          assert i in before;
        } else {
          assert ps == before + [m];
        }
      }
    }
  }

  /** The input has no clash exactly when no group has one. */
  lemma NoClashByGroup(lines: seq<Line>)
    ensures NoClash(lines) <==> forall key :: key in Keys(lines) ==> NoClash(Group(lines, key))
  {
    forall key ensures NoClash(lines) ==> NoClash(Group(lines, key)) {
      GroupIsAtPositions(lines, key);
      var ps, g := Positions(lines, key), Group(lines, key);
      if NoClash(lines) {
        forall i, j | 0 <= i < j < |g| ensures !Clash(g, i, j) {
          assert !Clash(lines, ps[i], ps[j]);
        }
      }
    }
    if forall key :: key in Keys(lines) ==> NoClash(Group(lines, key)) {
      forall i, j | 0 <= i < j < |lines| ensures !Clash(lines, i, j) {
        if lines[i].key == lines[j].key {
          var key := lines[i].key;
          assert key in Keys(lines);
          GroupIsAtPositions(lines, key);
          var ps, g := Positions(lines, key), Group(lines, key);
          var a :| 0 <= a < |ps| && ps[a] == i;
          var b :| 0 <= b < |ps| && ps[b] == j;
          assert !Clash(g, a, b);
        }
      }
    }
  }

  /** Whether a group clashes does not depend on its order. */
  lemma NoClashOfPermutation(g: seq<Line>, h: seq<Line>)
    requires multiset(g) == multiset(h) && NoClash(g)
    ensures NoClash(h)
  {
    forall i, j | 0 <= i < j < |h| ensures !Clash(h, i, j) {
      var p, q := TwoPlaces(h, g, i, j);
      assert if p < q then !Clash(g, p, q) else !Clash(g, q, p);
    }
  }

  /** A reordering of a forward group of one key is one too. */
  lemma ReorderedGroup(group: seq<Line>, p: seq<Line>, key: string)
    requires Forward(group) && (forall l :: l in group ==> l.key == key) && multiset(p) == multiset(group)
    ensures Forward(p) && (forall l :: l in p ==> l.key == key)
  {
    forall i | 0 <= i < |p| ensures p[i].start <= p[i].end && p[i].key == key {
      assert p[i] in multiset(group);
    }
  }

  /** What the verdict of one group means, when its periods run forward. */
  lemma GroupVerdict(group: seq<Line>, sorted: seq<Line>, key: string)
    requires Forward(group) && (forall l :: l in group ==> l.key == key)
    requires Sorted(StartsBefore, sorted) && multiset(sorted) == multiset(group)
    ensures NeighboursApart(sorted) ==> NoClash(group)
    ensures NoEmptyTie(group) && NoClash(group) ==> NeighboursApart(sorted)
  {
    ReorderedGroup(group, sorted, key);
    SortedGroupCheck(sorted);
    if NeighboursApart(sorted) {
      NoClashOfPermutation(sorted, group);
    }
    if NoEmptyTie(group) && NoClash(group) {
      NoClashOfPermutation(group, sorted);
      forall i, j | 0 <= i < j < |sorted| ensures !EmptyTie(sorted[j], sorted[i]) {
        assert sorted[i] in multiset(group) && sorted[j] in multiset(group);
      }
    }
  }

  /** A sorted order of the group, which the sort leaves as it is, that the check accepts. */
  ghost predicate AcceptedOrder(group: seq<Line>, p: seq<Line>) {
    multiset(p) == multiset(group) && Sorted(StartsBefore, p) && NeighboursApart(p)
  }

  /** A sorted order of the group that the check reports as overlapping. */
  ghost predicate RejectedOrder(group: seq<Line>, p: seq<Line>) {
    multiset(p) == multiset(group) && Sorted(StartsBefore, p) && !NeighboursApart(p)
  }

  /** A group of one key passes in every input order if and only if nothing overlaps and no empty period
      ties with a non-empty one: with such a tie, the order that has the non-empty period first is
      reported as overlapping. */
  lemma AcceptedInEveryOrder(group: seq<Line>, key: string)
    requires Forward(group) && (forall l :: l in group ==> l.key == key)
    ensures (exists p :: RejectedOrder(group, p)) <==> !(NoClash(group) && NoEmptyTie(group))
  {
    StartsBeforeIsOrder();
    var sorted := SortedReordering(StartsBefore, group);
    forall p | RejectedOrder(group, p) ensures !(NoClash(group) && NoEmptyTie(group)) {
      GroupVerdict(group, p, key);
    }
    if !NoClash(group) {
      GroupVerdict(group, sorted, key);
      assert RejectedOrder(group, sorted);
    }
    forall i, j | 0 <= i < |group| && 0 <= j < |group| && EmptyTie(group[i], group[j])
      ensures exists p :: RejectedOrder(group, p)
    {
      var p := EmptyTieLast(group, sorted, key, i, j);
      assert RejectedOrder(group, p);
    }
  }

  /** It passes in some input order if and only if nothing overlaps: the one that has, of two periods
      with one start, the one that ends earlier first. */
  lemma AcceptedInSomeOrder(group: seq<Line>, key: string)
    requires Forward(group) && (forall l :: l in group ==> l.key == key)
    ensures (exists p :: AcceptedOrder(group, p)) <==> NoClash(group)
  {
    forall p | AcceptedOrder(group, p) ensures NoClash(group) {
      GroupVerdict(group, p, key);
    }
    if NoClash(group) {
      var p := SortedReordering(EndsBefore, group);
      ReorderedGroup(group, p, key);
      NoClashOfPermutation(group, p);
      ByEndNeighboursApart(p, key);
      assert AcceptedOrder(group, p);
    }
  }

  /** By start, then by end. */
  predicate EndsBefore(a: Line, b: Line) {
    a.start < b.start || (a.start == b.start && a.end < b.end)
  }

  lemma ByEndNeighboursApart(p: seq<Line>, key: string)
    requires Forward(p) && NoClash(p) && Sorted(EndsBefore, p) && (forall l :: l in p ==> l.key == key)
    ensures Sorted(StartsBefore, p) && NeighboursApart(p)
  {
    forall i, j | 0 <= i < j < |p| ensures !StartsBefore(p[j], p[i]) {
      assert !EndsBefore(p[j], p[i]);
    }
    forall i | 0 <= i < |p| - 1 ensures p[i].end <= p[i + 1].start {
      assert !EndsBefore(p[i + 1], p[i]) && !Clash(p, i, i + 1);
      assert p[i] in p && p[i + 1] in p;
    }
  }

  /** So the input order decides the verdict exactly when nothing overlaps but an empty period ties with
      a non-empty one. */
  lemma OrderDecidesExactly(group: seq<Line>, key: string)
    requires Forward(group) && (forall l :: l in group ==> l.key == key)
    ensures (exists p :: AcceptedOrder(group, p)) && (exists p :: RejectedOrder(group, p))
       <==> NoClash(group) && !NoEmptyTie(group)
  {
    AcceptedInEveryOrder(group, key);
    AcceptedInSomeOrder(group, key);
  }

  lemma SwapEqualStarts(g: seq<Line>, a: nat, b: nat)
    requires a < b < |g| && Sorted(StartsBefore, g) && g[a].start == g[b].start
    ensures var p := g[a := g[b]][b := g[a]]; Sorted(StartsBefore, p) && multiset(p) == multiset(g)
  {
    var p := g[a := g[b]][b := g[a]];
    forall i, j | 0 <= i < j < |p| ensures !StartsBefore(p[j], p[i]) {
      assert p[i].start == g[i].start && p[j].start == g[j].start && !StartsBefore(g[j], g[i]);
    }
  }

  lemma EmptyTieLast(group: seq<Line>, sorted: seq<Line>, key: string, i: nat, j: nat) returns (p: seq<Line>)
    requires Forward(group) && (forall l :: l in group ==> l.key == key)
    requires Sorted(StartsBefore, sorted) && multiset(sorted) == multiset(group)
    requires i < |group| && j < |group| && EmptyTie(group[i], group[j])
    ensures multiset(p) == multiset(group) && Sorted(StartsBefore, p) && !NeighboursApart(p)
  {
    hide Sorted, NeighboursApart, Forward;
    var a, b := TwoPlaces(group, sorted, i, j);
    if a < b {
      SwapEqualStarts(sorted, a, b);
      p := sorted[a := sorted[b]][b := sorted[a]];
    } else {
      p := sorted;
    }
    ReorderedGroup(group, p, key);
    TieFailsTheCheck(p, Min(a, b), Max(a, b));
  }

  lemma TieFailsTheCheck(p: seq<Line>, lo: nat, hi: nat)
    requires Forward(p) && lo < hi < |p| && EmptyTie(p[hi], p[lo])
    ensures !NeighboursApart(p)
  {
    if NeighboursApart(p) {
      AdjacentLiftsToAllPairs(p, lo, hi);
    }
  }

  /** validateMonotonicPeriods: nil (true) or the first overlap met, in whatever order the map yields
      its keys. With forward periods nil means no two lines of one key overlap; the converse holds
      when no empty period ties with a non-empty one, in particular when every start is before its end. */
  method ValidateMonotonicPeriods(lines: seq<Line>) returns (ok: bool)
    ensures Forward(lines) && ok ==> NoClash(lines)
    ensures Forward(lines) && NoEmptyTie(lines) ==> (ok <==> NoClash(lines))
    ensures (forall i :: 0 <= i < |lines| ==> lines[i].start < lines[i].end) ==> (ok <==> NoClash(lines))
  {
    if |lines| <= 1 {
      return true;
    }
    var keyGroups := GroupByKey(lines);
    var keys := keyGroups.Keys;
    NoClashByGroup(lines);
    while keys != {}
      invariant keys <= Keys(lines)
      invariant Forward(lines) ==> forall key :: key in Keys(lines) - keys ==> NoClash(Group(lines, key))
      decreases |keys|
    {
      var key :| key in keys;
      var sorted;
      ok, sorted := CheckGroup(keyGroups[key]);
      if Forward(lines) {
        GroupInherits(lines, key);
        GroupVerdict(Group(lines, key), sorted, key);
      }
      if !ok {
        return false;
      }
      keys := keys - {key};
    }
    ok := true;
  }

  /** The period part of MapFinancialsDTO: the first line that ends before it starts is an error; the
      verdict on overlaps is computed and ignored. */
  method CheckPeriods(lines: seq<Line>) returns (bad: Option<nat>)
    ensures bad == None <==> Forward(lines)
    ensures bad.Some? ==> bad.value < |lines| && lines[bad.value].start > lines[bad.value].end && Forward(lines[..bad.value])
  {
    var i := 0;
    while i < |lines|
      invariant 0 <= i <= |lines| && Forward(lines[..i])
    {
      if lines[i].start > lines[i].end {
        return Some(i);
      }
      assert lines[..i + 1] == lines[..i] + [lines[i]];
      i := i + 1;
    }
    assert lines[..i] == lines;
    var _ := ValidateMonotonicPeriods(lines);
    bad := None;
  }

  lemma GroupInherits(lines: seq<Line>, key: string)
    requires Forward(lines)
    ensures Forward(Group(lines, key))
    ensures NoEmptyTie(lines) ==> NoEmptyTie(Group(lines, key))
  {
    var g := Group(lines, key);
    forall i | 0 <= i < |g| ensures g[i] in lines {
      assert g[i] in g;
    }
  }

  /** The grouping loop: the map holds exactly the keys of the input, each with its lines in order. */
  method GroupByKey(lines: seq<Line>) returns (groups: map<string, seq<Line>>)
    ensures groups.Keys == Keys(lines)
    ensures forall key :: key in groups ==> groups[key] == Group(lines, key)
  {
    groups := map[];
    var i := 0;
    while i < |lines|
      invariant 0 <= i <= |lines|
      invariant groups.Keys == Keys(lines[..i])
      invariant forall key :: key in groups ==> groups[key] == Group(lines[..i], key)
    {
      var line := lines[i];
      assert lines[..i + 1][..i] == lines[..i];
      assert lines[..i + 1] == lines[..i] + [line];
      NewKeyHasNoGroup(lines[..i], line.key);
      groups := groups[line.key := (if line.key in groups then groups[line.key] else []) + [line]];
      i := i + 1;
    }
    assert lines[..i] == lines;
  }

  lemma {:induction false} NewKeyHasNoGroup(lines: seq<Line>, key: string)
    ensures key !in Keys(lines) ==> Group(lines, key) == []
  {
    if Group(lines, key) != [] {
      var l := Group(lines, key)[0];
      assert l in Group(lines, key);
    }
  }
}
