/** Deduplication of scraped news: greedy selection by URL key and by title, source and time, then
    newest first, then the cut to 25 with its statistics. Times are in nanoseconds. */
module ScrapeNews {
  import opened Prelude
  import opened Sorting

  datatype Article = Article(url: string, title: string, source: string, publishedAt: Option<int>)

  /** URL normalisation, and trimming and lower-casing of text, are taken as given functions. */
  datatype Normaliser = Normaliser(urlKey: string -> string, text: string -> string)

  const TWO_MINUTES: int := 120_000_000_000
  const MAX_ARTICLES: nat := 25

  // ---- the duplicate relation ----

  /** time.Time.Sub: the difference, clamped to int64. */
  function TimeSub(a: int, b: int): int {
    Max(MIN_INT64, Min(MAX_INT64, a - b))
  }

  /** `if d < 0 { d = -d }` on an int64: the least value negates to itself. */
  function Magnitude(d: int): int {
    if d < 0 then Wrap64(-d) else d
  }

  predicate SameText(n: Normaliser, a: Article, b: Article) {
    n.text(a.title) == n.text(b.title) && n.text(a.source) == n.text(b.source)
  }

  predicate TimesMatch(a: Article, existing: Article) {
    match (a.publishedAt, existing.publishedAt)
    case (Some(t), Some(u)) => Magnitude(TimeSub(t, u)) <= TWO_MINUTES
    case (None, None) => true
    case _ => false
  }

  /** Candidate a duplicates the already kept article `existing`. */
  predicate Duplicates(n: Normaliser, a: Article, existing: Article) {
    n.urlKey(a.url) == n.urlKey(existing.url) || (SameText(n, a, existing) && TimesMatch(a, existing))
  }

  /** Both dated, with a at least 2^63 ns (292 years) before b: there the clamped difference is the
      least int64, and its magnitude comes out negative. */
  predicate FarBefore(a: Article, b: Article) {
    a.publishedAt.Some? && b.publishedAt.Some? && a.publishedAt.value - b.publishedAt.value <= MIN_INT64
  }

  /** What the relation is meant to be: at most two minutes apart, or both undated. */
  predicate CloseInTime(a: Article, b: Article) {
    match (a.publishedAt, b.publishedAt)
    case (Some(t), Some(u)) => -TWO_MINUTES <= t - u <= TWO_MINUTES
    case (None, None) => true
    case _ => false
  }

  /** The test is the intended relation, except that it also fires on a candidate 292 years older. */
  lemma TimesMatchMeaning(a: Article, b: Article)
    ensures TimesMatch(a, b) <==> CloseInTime(a, b) || FarBefore(a, b)
  {
  }

  /** When a candidate duplicates a kept article: same URL key; or same title and same source, and
      either both undated, or dated at most two minutes apart, or the candidate 2^63 ns older. */
  lemma DuplicatesMeaning(n: Normaliser, a: Article, existing: Article)
    ensures Duplicates(n, a, existing) <==>
      || n.urlKey(a.url) == n.urlKey(existing.url)
      || (&& n.text(a.title) == n.text(existing.title) && n.text(a.source) == n.text(existing.source)
          && match (a.publishedAt, existing.publishedAt)
             case (Some(t), Some(u)) => -120_000_000_000 <= t - u <= 120_000_000_000 || t - u <= -0x8000_0000_0000_0000
             case (None, None) => true
             case _ => false)
  {
    TimesMatchMeaning(a, existing);
  }

  // ---- the greedy selection ----

  predicate HasDuplicate(n: Normaliser, xs: seq<Article>, idx: seq<nat>, a: Article)
    requires forall k :: 0 <= k < |idx| ==> idx[k] < |xs|
  {
    exists k :: 0 <= k < |idx| && Duplicates(n, a, xs[idx[k]])
  }

  /** The positions of the articles the scan keeps. */
  function KeptIndices(n: Normaliser, xs: seq<Article>): (idx: seq<nat>)
    ensures forall k :: 0 <= k < |idx| ==> idx[k] < |xs|
  {
    if xs == [] then []
    else
      var m := |xs| - 1;
      var before := KeptIndices(n, xs[..m]);
      if HasDuplicate(n, xs[..m], before, xs[m]) then before else before + [m]
  }

  function At(xs: seq<Article>, idx: seq<nat>): (r: seq<Article>)
    requires forall k :: 0 <= k < |idx| ==> idx[k] < |xs|
    ensures |r| == |idx|
  {
    seq(|idx|, k requires 0 <= k < |idx| => xs[idx[k]])
  }

  function Kept(n: Normaliser, xs: seq<Article>): seq<Article> {
    At(xs, KeptIndices(n, xs))
  }

  lemma KeptStep(n: Normaliser, xs: seq<Article>, a: Article)
    ensures KeptIndices(n, xs + [a])
            == if HasDuplicate(n, xs, KeptIndices(n, xs), a) then KeptIndices(n, xs) else KeptIndices(n, xs) + [|xs|]
  {
    hide Duplicates;
    assert (xs + [a])[..|xs|] == xs;
  }

  predicate DuplicatesAny(n: Normaliser, a: Article, kept: seq<Article>) {
    exists k :: 0 <= k < |kept| && Duplicates(n, a, kept[k])
  }

  lemma KeptSnoc(n: Normaliser, xs: seq<Article>, a: Article)
    ensures Kept(n, xs + [a]) == if DuplicatesAny(n, a, Kept(n, xs)) then Kept(n, xs) else Kept(n, xs) + [a]
  {
    hide Duplicates, KeptIndices;
    KeptStep(n, xs, a);
    var idx := KeptIndices(n, xs);
    assert forall k :: 0 <= k < |idx| ==> (xs + [a])[idx[k]] == xs[idx[k]] == Kept(n, xs)[k];
  }

  lemma KeptOne(n: Normaliser, a: Article)
    ensures Kept(n, [a]) == [a]
  {
    hide Duplicates;
    assert [] + [a] == [a];
    KeptSnoc(n, [], a);
  }

  lemma KeptTwo(n: Normaliser, a: Article, b: Article)
    ensures Kept(n, [a, b]) == if Duplicates(n, b, a) then [a] else [a, b]
  {
    hide Duplicates, Kept;
    KeptOne(n, a);
    assert [a] + [b] == [a, b];
    KeptSnoc(n, [a], b);
    assert DuplicatesAny(n, b, [a]) <==> Duplicates(n, b, [a][0]);
  }

  /** The middle one of three articles duplicates, and is duplicated by, the outer two, which do not
      duplicate each other: the relation is not transitive, and the input order decides what is kept. */
  lemma OrderDecidesWhatIsKept(n: Normaliser, a: Article, b: Article, c: Article)
    requires Duplicates(n, b, a) && Duplicates(n, c, b) && Duplicates(n, a, b) && !Duplicates(n, c, a)
    ensures Kept(n, [a, b, c]) == [a, c] && Kept(n, [b, a, c]) == [b]
  {
    hide Duplicates, Kept;
    KeptTwo(n, a, b);
    KeptTwo(n, b, a);
    assert [a, b] + [c] == [a, b, c] && [b, a] + [c] == [b, a, c];
    KeptSnoc(n, [a, b], c);
    KeptSnoc(n, [b, a], c);
    assert DuplicatesAny(n, c, [a]) <==> Duplicates(n, c, [a][0]);
    assert DuplicatesAny(n, c, [b]) <==> Duplicates(n, c, [b][0]);
  }

  /** Such articles exist: the same story under three URLs, each two minutes after the one before. */
  lemma DuplicatesIsNotTransitive()
    ensures var n := Normaliser(u => u, t => t);
      var a := Article("a", "T", "S", Some(0));
      var b, c := a.(url := "b", publishedAt := Some(TWO_MINUTES)), a.(url := "c", publishedAt := Some(2 * TWO_MINUTES));
      Duplicates(n, b, a) && Duplicates(n, c, b) && Duplicates(n, a, b) && !Duplicates(n, c, a)
  {
    assert "a"[0] != "c"[0];
  }

  ghost predicate Ascending(idx: seq<nat>, m: nat) {
    && (forall k :: 0 <= k < |idx| ==> idx[k] < m)
    && (forall j, k :: 0 <= j < k < |idx| ==> idx[j] < idx[k])
  }

  /** Article i duplicates an earlier article among those at idx. */
  ghost predicate Covered(n: Normaliser, xs: seq<Article>, idx: seq<nat>, i: nat)
    requires Ascending(idx, |xs|) && i < |xs|
  {
    exists k :: 0 <= k < |idx| && idx[k] < i && Duplicates(n, xs[i], xs[idx[k]])
  }

  /** A maximal duplicate-free selection in scan order: positions ascend, no kept article duplicates
      an earlier kept one, and every dropped article duplicates an earlier kept one. */
  ghost predicate Selection(n: Normaliser, xs: seq<Article>, idx: seq<nat>) {
    && Ascending(idx, |xs|)
    && (forall k :: 0 <= k < |idx| ==> !Covered(n, xs, idx, idx[k]))
    && (forall i :: 0 <= i < |xs| && i !in idx ==> Covered(n, xs, idx, i))
  }

  /** Adding or removing later positions, or looking at a longer list, changes nothing for article i. */
  lemma CoveredInPrefix(n: Normaliser, xs: seq<Article>, idx: seq<nat>, i: nat, m: nat, short: seq<nat>)
    requires Ascending(idx, |xs|) && i < m <= |xs|
    requires short <= idx && (forall k :: 0 <= k < |idx| ==> (k < |short| <==> idx[k] < m))
    ensures Ascending(short, m)
    ensures Covered(n, xs, idx, i) <==> Covered(n, xs[..m], short, i)
  {
    hide Duplicates;
    if Covered(n, xs, idx, i) {
      var k :| 0 <= k < |idx| && idx[k] < i && Duplicates(n, xs[i], xs[idx[k]]);
      assert xs[..m][short[k]] == xs[idx[k]];
    }
    if Covered(n, xs[..m], short, i) {
      var k :| 0 <= k < |short| && short[k] < i && Duplicates(n, xs[..m][i], xs[..m][short[k]]);
      assert xs[..m][short[k]] == xs[idx[k]];
    }
  }

  /** The positions below m of an ascending list form a prefix of it. */
  function Below(idx: seq<nat>, m: nat): (r: seq<nat>)
    ensures r <= idx
    ensures Ascending(idx, m + 1) ==> forall k :: 0 <= k < |idx| ==> (k < |r| <==> idx[k] < m)
  {
    if idx != [] && idx[|idx| - 1] == m then idx[..|idx| - 1] else idx
  }

  /** A selection of a list is a selection of its prefix, plus the last article unless covered. */
  lemma SelectionSnoc(n: Normaliser, xs: seq<Article>, idx: seq<nat>)
    requires |xs| > 0 && Ascending(idx, |xs|)
    ensures var m := |xs| - 1; var short := Below(idx, m);
      Selection(n, xs, idx) <==>
        && Selection(n, xs[..m], short)
        && idx == if HasDuplicate(n, xs[..m], short, xs[m]) then short else short + [m]
  {
    hide Duplicates;
    var m := |xs| - 1;
    var short := Below(idx, m);
    assert m in idx <==> short != idx by {
      if m in idx {
        var k :| 0 <= k < |idx| && idx[k] == m;
      }
    }
    forall i | 0 <= i < m
      ensures Ascending(short, m) && (Covered(n, xs, idx, i) <==> Covered(n, xs[..m], short, i))
      ensures i in idx <==> i in short
    {
      CoveredInPrefix(n, xs, idx, i, m, short);
      if i in idx {
        var k :| 0 <= k < |idx| && idx[k] == i;
        assert short[k] == i;
      }
    }
    LastIsCovered(n, xs, idx, short);
    SelectionFromParts(n, xs, idx, short);
  }

  lemma LastIsCovered(n: Normaliser, xs: seq<Article>, idx: seq<nat>, short: seq<nat>)
    requires |xs| > 0 && Ascending(idx, |xs|) && short == Below(idx, |xs| - 1)
    ensures var m := |xs| - 1; Ascending(short, m) && (Covered(n, xs, idx, m) <==> HasDuplicate(n, xs[..m], short, xs[m]))
  {
    hide Duplicates;
    var m := |xs| - 1;
    if Covered(n, xs, idx, m) {
      var k :| 0 <= k < |idx| && idx[k] < m && Duplicates(n, xs[m], xs[idx[k]]);
      assert xs[..m][short[k]] == xs[idx[k]];
    }
    if HasDuplicate(n, xs[..m], short, xs[m]) {
      var k :| 0 <= k < |short| && Duplicates(n, xs[m], xs[..m][short[k]]);
      assert xs[..m][short[k]] == xs[idx[k]];
    }
  }

  lemma SelectionFromParts(n: Normaliser, xs: seq<Article>, idx: seq<nat>, short: seq<nat>)
    requires |xs| > 0 && Ascending(idx, |xs|) && short == Below(idx, |xs| - 1) && Ascending(short, |xs| - 1)
    requires var m := |xs| - 1;
      && (m in idx <==> short != idx)
      && (Covered(n, xs, idx, m) <==> HasDuplicate(n, xs[..m], short, xs[m]))
      && (forall i :: 0 <= i < m ==> (Covered(n, xs, idx, i) <==> Covered(n, xs[..m], short, i)) && (i in idx <==> i in short))
    ensures var m := |xs| - 1;
      Selection(n, xs, idx) <==>
        && Selection(n, xs[..m], short)
        && idx == if HasDuplicate(n, xs[..m], short, xs[m]) then short else short + [m]
  {
    hide Duplicates, Covered, HasDuplicate;
    var m := |xs| - 1;
    assert short != idx ==> idx == short + [m];
    if Selection(n, xs, idx) {
      forall k | 0 <= k < |short| ensures !Covered(n, xs[..m], short, short[k]) {
        assert !Covered(n, xs, idx, idx[k]);
      }
      if m in idx {
        assert idx[|idx| - 1] == m;
      }
    }
    if Selection(n, xs[..m], short) && idx == if HasDuplicate(n, xs[..m], short, xs[m]) then short else short + [m] {
      forall k | 0 <= k < |idx| ensures !Covered(n, xs, idx, idx[k]) {
        if k < |short| {
          assert !Covered(n, xs[..m], short, short[k]);
        }
      }
    }
  }

  lemma {:induction false} KeptIsSelection(n: Normaliser, xs: seq<Article>)
    ensures Selection(n, xs, KeptIndices(n, xs))
  {
    hide Duplicates, Covered, HasDuplicate;
    if xs != [] {
      var m := |xs| - 1;
      KeptIsSelection(n, xs[..m]);
      SelectionSnoc(n, xs, KeptIndices(n, xs));
    }
  }

  /** The description is complete: the scan's selection is the only one that meets it. */
  lemma {:induction false} SelectionIsUnique(n: Normaliser, xs: seq<Article>, idx: seq<nat>)
    ensures Selection(n, xs, idx) <==> idx == KeptIndices(n, xs)
  {
    hide Duplicates, Covered, HasDuplicate;
    KeptIsSelection(n, xs);
    if Selection(n, xs, idx) {
      if xs == [] {
        AscendingFits(idx, |xs|);
      } else {
        var m := |xs| - 1;
        SelectionSnoc(n, xs, idx);
        SelectionIsUnique(n, xs[..m], Below(idx, m));
      }
    }
  }

  /** No article duplicates one before it. */
  ghost predicate DuplicateFree(n: Normaliser, xs: seq<Article>) {
    forall i, j :: 0 <= i < j < |xs| ==> !Duplicates(n, xs[j], xs[i])
  }

  function Upto(m: nat): (r: seq<nat>)
    ensures |r| == m && forall k :: 0 <= k < m ==> r[k] == k
  {
    seq(m, k requires k >= 0 => k)
  }

  /** The scan drops nothing exactly when its input holds no article that duplicates an earlier one. */
  lemma ScanDropsNothing(n: Normaliser, xs: seq<Article>)
    ensures Kept(n, xs) == xs <==> DuplicateFree(n, xs)
  {
    hide Duplicates, KeptIndices;
    KeptIsSelection(n, xs);
    var idx := KeptIndices(n, xs);
    if Kept(n, xs) == xs {
      AscendingFull(idx, |xs|);
      forall i, j | 0 <= i < j < |xs| ensures !Duplicates(n, xs[j], xs[i]) {
        assert !Covered(n, xs, idx, idx[j]);
        assert idx[i] == i && idx[j] == j;
      }
    }
    if DuplicateFree(n, xs) {
      var all := Upto(|xs|);
      forall i | 0 <= i < |xs| ensures i in all {
        assert all[i] == i;
      }
      SelectionIsUnique(n, xs, all);
      assert At(xs, all) == xs;
    }
  }

  /** m ascending positions below m are all of them. */
  lemma {:induction false} AscendingFull(idx: seq<nat>, m: nat)
    requires |idx| == m && Ascending(idx, m)
    ensures forall k :: 0 <= k < m ==> idx[k] == k
  {
    if m > 0 {
      assert idx[m - 1] == m - 1 by {
        AscendingLower(idx, m - 1);
      }
      AscendingFull(idx[..m - 1], m - 1);
    }
  }

  lemma {:induction false} AscendingLower(idx: seq<nat>, k: nat)
    requires k < |idx|
    requires forall i, j :: 0 <= i < j < |idx| ==> idx[i] < idx[j]
    ensures idx[k] >= k
  {
    if k > 0 {
      AscendingLower(idx, k - 1);
    }
  }

  // ---- when the input order matters ----

  /** Every reordering of the input keeps the same articles. */
  ghost predicate OrderIrrelevant(n: Normaliser, xs: seq<Article>) {
    forall ys: seq<Article> | multiset(ys) == multiset(xs) :: multiset(Kept(n, ys)) == multiset(Kept(n, xs))
  }

  /** No article duplicates a different one. */
  ghost predicate Unrelated(n: Normaliser, xs: seq<Article>) {
    forall a, b | a in xs && b in xs && a != b :: !Duplicates(n, a, b)
  }

  /** What is kept is the same in every input order if and only if no two different articles are duplicates. */
  lemma OrderMattersExactly(n: Normaliser, xs: seq<Article>)
    ensures OrderIrrelevant(n, xs) <==> Unrelated(n, xs)
  {
    hide Duplicates, Kept;
    if Unrelated(n, xs) {
      forall ys: seq<Article> | multiset(ys) == multiset(xs) ensures multiset(Kept(n, ys)) == multiset(Kept(n, xs)) {
        ReorderedUnrelated(n, xs, ys);
        KeptListsTheSet(n, xs);
        KeptListsTheSet(n, ys);
        SameMembers(xs, ys);
      }
    } else {
      var a, b :| a in xs && b in xs && a != b && Duplicates(n, a, b);
      var bFirst := MovedToFront(xs, b);
      FirstShutsOut(n, bFirst, a);
      var aFirst := MovedToFront(xs, a);
      FirstIsKept(n, aFirst);
      assert a in multiset(Kept(n, aFirst)) && a !in multiset(Kept(n, bFirst));
    }
  }

  lemma SameMembers(xs: seq<Article>, ys: seq<Article>)
    requires multiset(xs) == multiset(ys)
    ensures forall a :: a in xs <==> a in ys
  {
    forall a ensures a in xs <==> a in ys {
      assert a in multiset(xs) <==> a in multiset(ys);
    }
  }

  lemma ReorderedUnrelated(n: Normaliser, xs: seq<Article>, ys: seq<Article>)
    requires Unrelated(n, xs) && multiset(ys) == multiset(xs)
    ensures Unrelated(n, ys)
  {
    SameMembers(xs, ys);
  }

  /** Among unrelated articles only repetitions are dropped: the kept ones list the input's set. */
  lemma {:induction false} KeptListsTheSet(n: Normaliser, xs: seq<Article>)
    requires Unrelated(n, xs)
    ensures forall a :: multiset(Kept(n, xs))[a] == if a in xs then 1 else 0
  {
    hide Kept, KeptIndices, Duplicates;
    if xs == [] {
      KeptNothing(n);
    } else {
      var m := |xs| - 1;
      var before := xs[..m];
      assert xs == before + [xs[m]];
      KeptListsTheSet(n, before);
      KeptSnoc(n, before, xs[m]);
      OnlyItselfDuplicates(n, before, xs[m]);
    }
  }

  lemma KeptNothing(n: Normaliser)
    ensures Kept(n, []) == []
  {
  }

  lemma OnlyItselfDuplicates(n: Normaliser, before: seq<Article>, x: Article)
    requires Unrelated(n, before + [x])
    requires forall a :: multiset(Kept(n, before))[a] == if a in before then 1 else 0
    ensures DuplicatesAny(n, x, Kept(n, before)) <==> x in before
  {
    hide Kept;
    var kept := Kept(n, before);
    if x in before {
      assert x in multiset(kept);
      var k :| 0 <= k < |kept| && kept[k] == x;
      assert Duplicates(n, x, kept[k]);
    }
    forall k | 0 <= k < |kept| && x !in before ensures !Duplicates(n, x, kept[k]) {
      assert kept[k] in multiset(kept);
      assert kept[k] in before + [x] && x in before + [x];
    }
  }

  lemma MovedToFront(xs: seq<Article>, a: Article) returns (ys: seq<Article>)
    requires a in xs
    ensures ys != [] && ys[0] == a && multiset(ys) == multiset(xs)
  {
    var i :| 0 <= i < |xs| && xs[i] == a;
    RemoveAt(xs, i);
    ys := [a] + (xs[..i] + xs[i + 1..]);
  }

  lemma {:induction false} FirstIsKept(n: Normaliser, xs: seq<Article>)
    requires xs != []
    ensures Kept(n, xs) != [] && Kept(n, xs)[0] == xs[0]
  {
    hide Kept, Duplicates;
    var m := |xs| - 1;
    if m == 0 {
      KeptOne(n, xs[0]);
      assert xs == [xs[0]];
    } else {
      FirstIsKept(n, xs[..m]);
      KeptSnoc(n, xs[..m], xs[m]);
      assert xs == xs[..m] + [xs[m]];
    }
  }

  /** Nothing that duplicates the first article is kept beside it. */
  lemma {:induction false} FirstShutsOut(n: Normaliser, xs: seq<Article>, a: Article)
    requires xs != [] && a != xs[0] && Duplicates(n, a, xs[0])
    ensures a !in Kept(n, xs)
  {
    hide Kept, Duplicates;
    var m := |xs| - 1;
    if m == 0 {
      KeptOne(n, xs[0]);
      assert xs == [xs[0]];
    } else {
      FirstShutsOut(n, xs[..m], a);
      FirstIsKept(n, xs[..m]);
      KeptSnoc(n, xs[..m], xs[m]);
      assert xs == xs[..m] + [xs[m]];
    }
  }

  /** The relation is symmetric and transitive on these articles. */
  ghost predicate Equivalence(n: Normaliser, xs: seq<Article>) {
    && (forall a, b | a in xs && b in xs && Duplicates(n, a, b) :: Duplicates(n, b, a))
    && (forall a, b, c | a in xs && b in xs && c in xs && Duplicates(n, a, b) && Duplicates(n, b, c) :: Duplicates(n, a, c))
  }

  /** How many are kept is the same in every input order when the relation is an equivalence on them. */
  lemma EquivalenceFixesTheCount(n: Normaliser, xs: seq<Article>, ys: seq<Article>)
    requires multiset(ys) == multiset(xs) && Equivalence(n, xs)
    ensures |Kept(n, ys)| == |Kept(n, xs)|
  {
    hide Duplicates, Kept, Equivalence;
    SameMembers(xs, ys);
    KeptFits(n, xs, ys);
    SameEquivalence(n, xs, ys);
    KeptFits(n, ys, xs);
  }

  lemma SameEquivalence(n: Normaliser, xs: seq<Article>, ys: seq<Article>)
    requires Equivalence(n, xs) && forall a :: a in xs <==> a in ys
    ensures Equivalence(n, ys)
  {
    hide Duplicates;
  }

  lemma KeptFits(n: Normaliser, xs: seq<Article>, ys: seq<Article>)
    requires Equivalence(n, xs) && forall a :: a in xs <==> a in ys
    ensures |Kept(n, xs)| <= |Kept(n, ys)|
  {
    hide Duplicates, Kept, Equivalence;
    var kept, others := Kept(n, xs), Kept(n, ys);
    KeptApart(n, xs);
    KeptCovers(n, ys);
    forall i | 0 <= i < |kept| ensures DuplicatesAny(n, kept[i], others) {
      assert kept[i] in xs;
    }
    Injected(n, xs, kept, others);
  }

  lemma KeptApart(n: Normaliser, xs: seq<Article>)
    ensures forall i :: 0 <= i < |Kept(n, xs)| ==> Kept(n, xs)[i] in xs
    ensures forall i, j :: 0 <= i < j < |Kept(n, xs)| ==> !Duplicates(n, Kept(n, xs)[j], Kept(n, xs)[i])
  {
    hide Duplicates, KeptIndices;
    KeptIsSelection(n, xs);
    var idx := KeptIndices(n, xs);
    forall i, j | 0 <= i < j < |idx| ensures !Duplicates(n, xs[idx[j]], xs[idx[i]]) {
      assert !Covered(n, xs, idx, idx[j]);
    }
  }

  /** Every article duplicates a kept one, if only itself. */
  lemma KeptCovers(n: Normaliser, xs: seq<Article>)
    ensures forall a :: a in xs ==> DuplicatesAny(n, a, Kept(n, xs))
    ensures forall i :: 0 <= i < |Kept(n, xs)| ==> Kept(n, xs)[i] in xs
  {
    hide KeptIndices, Duplicates;
    KeptIsSelection(n, xs);
    var idx, kept := KeptIndices(n, xs), Kept(n, xs);
    forall a | a in xs ensures DuplicatesAny(n, a, kept) {
      var i :| 0 <= i < |xs| && xs[i] == a;
      SelfDuplicate(n, a);
      if i in idx {
        var k :| 0 <= k < |idx| && idx[k] == i;
        assert Duplicates(n, a, kept[k]);
      } else {
        var k :| 0 <= k < |idx| && idx[k] < i && Duplicates(n, xs[i], xs[idx[k]]);
        assert Duplicates(n, a, kept[k]);
      }
    }
  }

  lemma SelfDuplicate(n: Normaliser, a: Article)
    ensures Duplicates(n, a, a)
  {
  }

  lemma OtherClass(n: Normaliser, xs: seq<Article>, a: Article, b: Article, r: Article)
    requires Equivalence(n, xs) && a in xs && b in xs && r in xs
    requires Duplicates(n, a, r) && !Duplicates(n, a, b)
    ensures !Duplicates(n, b, r)
  {
    hide Duplicates;
  }

  /** Pairwise different classes that each meet a list are no more than its length. */
  lemma {:induction false} Injected(n: Normaliser, xs: seq<Article>, apart: seq<Article>, reps: seq<Article>)
    requires Equivalence(n, xs)
    requires (forall i :: 0 <= i < |apart| ==> apart[i] in xs) && (forall k :: 0 <= k < |reps| ==> reps[k] in xs)
    requires forall i, j :: 0 <= i < j < |apart| ==> !Duplicates(n, apart[j], apart[i])
    requires forall i :: 0 <= i < |apart| ==> DuplicatesAny(n, apart[i], reps)
    ensures |apart| <= |reps|
    decreases |apart|
  {
    hide Duplicates;
    if apart != [] {
      var m := |apart| - 1;
      var a := apart[m];
      var k :| 0 <= k < |reps| && Duplicates(n, a, reps[k]);
      var rest := reps[..k] + reps[k + 1..];
      forall i | 0 <= i < m ensures DuplicatesAny(n, apart[i], rest) {
        var j :| 0 <= j < |reps| && Duplicates(n, apart[i], reps[j]);
        OtherClass(n, xs, a, apart[i], reps[k]);
        assert rest[if j < k then j else j - 1] == reps[j];
      }
      Injected(n, xs, apart[..m], rest);
    }
  }

  // ---- newest first ----

  /** The comparator handed to sort.Slice. */
  predicate NewestFirst(a: Article, b: Article) {
    if a.publishedAt == None && b.publishedAt == None then false
    else if a.publishedAt == None then false
    else if b.publishedAt == None then true
    else a.publishedAt.value > b.publishedAt.value
  }

  /** The comparator is a strict weak order, and a list sorted by it has its undated articles last
      and its dated ones from newest to oldest. */
  lemma ComparatorIsSound(xs: seq<Article>)
    ensures StrictWeakOrder(NewestFirst)
    ensures Sorted(NewestFirst, xs) <==>
      forall i, j :: 0 <= i < j < |xs| && xs[j].publishedAt.Some? ==>
        xs[i].publishedAt.Some? && xs[i].publishedAt.value >= xs[j].publishedAt.value
  {
    forall i, j | 0 <= i < j < |xs|
      ensures !NewestFirst(xs[j], xs[i]) <==>
        (xs[j].publishedAt.Some? ==> xs[i].publishedAt.Some? && xs[i].publishedAt.value >= xs[j].publishedAt.value)
    {
    }
  }

  // ---- the routine ----

  /** The scan of deduplicateArticles; `seen` holds exactly the URL keys of the kept articles. */
  method SelectArticles(n: Normaliser, articles: seq<Article>) returns (result: seq<Article>, seen: set<string>)
    ensures result == Kept(n, articles)
    ensures seen == set a | a in result :: n.urlKey(a.url)
  {
    result, seen := [], {};
    var i := 0;
    while i < |articles|
      invariant 0 <= i <= |articles|
      invariant result == Kept(n, articles[..i])
      invariant seen == set a | a in result :: n.urlKey(a.url)
    {
      var article := articles[i];
      var isDuplicate := n.urlKey(article.url) in seen;
      if !isDuplicate {
        isDuplicate := MatchesKept(n, article, result);
      }
      KeptPrefix(n, articles, i, isDuplicate);
      if !isDuplicate {
        seen := seen + {n.urlKey(article.url)};
        result := result + [article];
      }
      i := i + 1;
    }
    assert articles[..i] == articles;
  }

  /** The inner loop: same title and source as a kept article, and matching times. */
  method MatchesKept(n: Normaliser, article: Article, result: seq<Article>) returns (isDuplicate: bool)
    ensures isDuplicate <==> exists k :: 0 <= k < |result| && SameText(n, article, result[k]) && TimesMatch(article, result[k])
  {
    isDuplicate := false;
    var k := 0;
    while k < |result|
      invariant 0 <= k <= |result|
      invariant forall m :: 0 <= m < k ==> !(SameText(n, article, result[m]) && TimesMatch(article, result[m]))
    {
      var existing := result[k];
      if n.text(article.title) == n.text(existing.title) && n.text(article.source) == n.text(existing.source) {
        if article.publishedAt.Some? && existing.publishedAt.Some? {
          var timeDiff := TimeSub(article.publishedAt.value, existing.publishedAt.value);
          if timeDiff < 0 {
            timeDiff := Wrap64(-timeDiff);
          }
          if timeDiff <= TWO_MINUTES {
            return true;
          }
        } else if article.publishedAt.None? && existing.publishedAt.None? {
          return true;
        }
      }
      k := k + 1;
    }
  }

  lemma KeptPrefix(n: Normaliser, xs: seq<Article>, i: nat, isDuplicate: bool)
    requires i < |xs|
    requires var result := Kept(n, xs[..i]);
      isDuplicate <==>
        || n.urlKey(xs[i].url) in (set a | a in result :: n.urlKey(a.url))
        || exists k :: 0 <= k < |result| && SameText(n, xs[i], result[k]) && TimesMatch(xs[i], result[k])
    ensures Kept(n, xs[..i + 1]) == if isDuplicate then Kept(n, xs[..i]) else Kept(n, xs[..i]) + [xs[i]]
  {
    hide Duplicates, HasDuplicate, SameText, TimesMatch;
    var prefix, more := xs[..i], xs[..i + 1];
    assert more == prefix + [xs[i]];
    KeptStep(n, prefix, xs[i]);
    DuplicateTest(n, prefix, xs[i]);
  }

  /** The two tests of the scan together look for a duplicate among the kept articles. */
  lemma DuplicateTest(n: Normaliser, xs: seq<Article>, a: Article)
    ensures var result := Kept(n, xs);
      HasDuplicate(n, xs, KeptIndices(n, xs), a) <==>
        || n.urlKey(a.url) in (set b | b in result :: n.urlKey(b.url))
        || exists k :: 0 <= k < |result| && SameText(n, a, result[k]) && TimesMatch(a, result[k])
  {
    hide KeptIndices, SameText, TimesMatch;
    var idx, result := KeptIndices(n, xs), Kept(n, xs);
    assert forall k :: 0 <= k < |idx| ==> result[k] == xs[idx[k]] && result[k] in result;
    forall k | 0 <= k < |result| && (n.urlKey(a.url) == n.urlKey(result[k].url) || (SameText(n, a, result[k]) && TimesMatch(a, result[k])))
      ensures Duplicates(n, a, xs[idx[k]])
    {
    }
  }

  /** deduplicateArticles: the kept articles, newest first, undated last. sort.Slice may order ties
      as it likes; any order the comparator accepts is allowed for here. */
  method DeduplicateArticles(n: Normaliser, articles: seq<Article>) returns (result: seq<Article>)
    ensures multiset(result) == multiset(Kept(n, articles))
    ensures Sorted(NewestFirst, result)
  {
    var kept, _ := SelectArticles(n, articles);
    var a := new Article[|kept|](i requires 0 <= i < |kept| => kept[i]);
    assert a[..] == kept;
    ComparatorIsSound(kept);
    ExchangeSort(a, NewestFirst);
    result := a[..];
  }

  /** Two articles of the same text, dated 292 years or more apart. */
  predicate FarApart(n: Normaliser, a: Article, b: Article) {
    SameText(n, a, b) && (FarBefore(a, b) || FarBefore(b, a))
  }

  /** Running the scan again on a sorted result drops nothing if and only if no two articles in it
      have the same text and dates 292 years or more apart. */
  lemma RerunDropsNothing(n: Normaliser, articles: seq<Article>, result: seq<Article>)
    requires multiset(result) == multiset(Kept(n, articles)) && Sorted(NewestFirst, result)
    ensures Kept(n, result) == result <==>
      forall i, j :: 0 <= i < j < |result| ==> !FarApart(n, result[i], result[j])
  {
    hide Kept, NewestFirst, FarBefore;
    ScanDropsNothing(n, result);
    forall i, j | 0 <= i < j < |result|
      ensures Duplicates(n, result[j], result[i]) <==> FarApart(n, result[i], result[j])
    {
      PairwiseUnrelated(n, articles, result, i, j);
      SortedPair(n, result[i], result[j]);
    }
  }

  /** That does happen: one story under two URLs, dated the year 1 and three centuries later, say, is
      kept twice, and a rerun on the sorted result drops the older. */
  lemma RerunMayDrop()
    ensures var n := Normaliser(u => u, t => t);
      var older := Article("a", "T", "S", Some(0));
      var newer := older.(url := "b", publishedAt := Some(MAX_INT64 + 1));
      && Kept(n, [older, newer]) == [older, newer]
      && multiset([newer, older]) == multiset([older, newer]) && Sorted(NewestFirst, [newer, older])
      && Kept(n, [newer, older]) == [newer]
  {
    hide Kept;
    var n := Normaliser(u => u, t => t);
    var older := Article("a", "T", "S", Some(0));
    var newer := older.(url := "b", publishedAt := Some(MAX_INT64 + 1));
    assert "a"[0] != "b"[0];
    TimesMatchMeaning(newer, older);
    TimesMatchMeaning(older, newer);
    KeptTwo(n, older, newer);
    KeptTwo(n, newer, older);
    assert [newer, older] == [newer] + [older] && [older, newer] == [older] + [newer];
  }

  /** In a sorted pair only the later one can be far before the other. */
  lemma SortedPair(n: Normaliser, a: Article, b: Article)
    requires !NewestFirst(b, a)
    requires !Duplicates(n, a, b) || !Duplicates(n, b, a)
    ensures Duplicates(n, b, a) <==> FarApart(n, a, b)
  {
    TimesMatchMeaning(a, b);
    TimesMatchMeaning(b, a);
  }

  /** Two articles at different places of a reordering of the kept ones: at least one does not
      duplicate the other. */
  lemma PairwiseUnrelated(n: Normaliser, articles: seq<Article>, result: seq<Article>, i: nat, j: nat)
    requires multiset(result) == multiset(Kept(n, articles)) && i < j < |result|
    ensures !Duplicates(n, result[i], result[j]) || !Duplicates(n, result[j], result[i])
  {
    var kept := Kept(n, articles);
    KeptIsSelection(n, articles);
    var p, q := TwoPlaces(result, kept, i, j);
    var idx := KeptIndices(n, articles);
    assert kept[p] == articles[idx[p]] && kept[q] == articles[idx[q]];
  }

  // ---- the cut and its statistics ----

  datatype NewsStats = NewsStats(totalFound: nat, totalReturned: nat, deduped: nat)

  /** ParseNews on extracted articles: deduplicate, keep the first 25, count. */
  method ParseExtracted(n: Normaliser, articles: seq<Article>) returns (returned: seq<Article>, stats: NewsStats)
    ensures |returned| == stats.totalReturned == if |Kept(n, articles)| > 25 then 25 else |Kept(n, articles)|
    ensures stats.totalFound == |articles| && stats.deduped == |articles| - |Kept(n, articles)|
    ensures stats.totalFound == stats.totalReturned + stats.deduped <==> |Kept(n, articles)| <= 25
    ensures exists dropped :: multiset(returned + dropped) == multiset(Kept(n, articles)) && Sorted(NewestFirst, returned + dropped)
  {
    var originalCount := |articles|;
    var all := DeduplicateArticles(n, articles);
    SameSize(all, Kept(n, articles));
    KeptIsSelection(n, articles);
    AscendingFits(KeptIndices(n, articles), |articles|);
    var deduped := originalCount - |all|;
    returned := if |all| > MAX_ARTICLES then all[..MAX_ARTICLES] else all;
    assert all == returned + all[|returned|..];
    stats := NewsStats(originalCount, |returned|, deduped);
  }

  lemma SameSize(xs: seq<Article>, ys: seq<Article>)
    requires multiset(xs) == multiset(ys)
    ensures |xs| == |ys|
  {
    assert |multiset(xs)| == |xs| && |multiset(ys)| == |ys|;
  }

  lemma AscendingFits(idx: seq<nat>, m: nat)
    requires Ascending(idx, m)
    ensures |idx| <= m
  {
    if idx != [] {
      AscendingLower(idx, |idx| - 1);
    }
  }
}
